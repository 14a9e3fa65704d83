/** Splitting an accepted line into commands and files, as a fold over typed tokens. */
module ShellSplit {
  import opened ShellSyntax
  import opened Wrappers

  datatype Files = Files(input: Option<string>, output: Option<string>)

  type Tagged = seq<(string, Kind)>

  /** The arrays being filled; the last command and file pair are the current ones. */
  datatype Splitting = Splitting(commands: seq<seq<string>>, files: seq<Files>, outMode: bool, previous: string) {
    predicate Open() {
      commands != [] && |commands| == |files|
    }

    function Command(): (words: seq<string>)
      requires Open()
    {
      commands[|commands| - 1]
    }

    function CurrentFiles(): (f: Files)
      requires Open()
    {
      files[|files| - 1]
    }
  }

  const NOFILES := Files(None, None)
  const FIRST := Splitting([[]], [NOFILES], false, "")

  function SplitStep(p: Splitting, token: string, k: Kind): (q: Splitting)
    requires p.Open()
    ensures q.Open()
  {
    var n := |p.commands| - 1;
    match k
    case CommandName => p.(commands := p.commands[n := p.commands[n] + [token]], previous := token)
    case Argument => p.(commands := p.commands[n := p.commands[n] + [token]], previous := token)
    case Pipe => p.(commands := p.commands + [[]], files := p.files + [NOFILES], previous := token)
    case InputFilename => p.(files := p.files[n := p.files[n].(input := Some(token))], previous := token)
    case OutputFilename =>
      p.(files := p.files[n := p.files[n].(output := Some(token))],
         outMode := if p.previous == ">" then false else if p.previous == ">>" then true else p.outMode,
         previous := token)
    case _ => p.(previous := token)
  }

  function SplitAll(p: Splitting, tagged: Tagged): (q: Splitting)
    requires p.Open()
    ensures q.Open()
  {
    if tagged == [] then p
    else SplitStep(SplitAll(p, tagged[..|tagged| - 1]), tagged[|tagged| - 1].0, tagged[|tagged| - 1].1)
  }

  function Zip(tokens: seq<string>, kinds: seq<Kind>): (tagged: Tagged)
    requires |tokens| == |kinds|
  {
    seq(|tokens|, i requires 0 <= i < |tokens| => (tokens[i], kinds[i]))
  }

  // ---- what the grammar says the result should be

  function InputOf(rs: seq<Redirect>): (f: Option<string>) {
    if rs == [] then None
    else if rs[|rs| - 1].In? then Some(rs[|rs| - 1].file) else InputOf(rs[..|rs| - 1])
  }

  function OutputOf(rs: seq<Redirect>): (f: Option<string>) {
    if rs == [] then None
    else if rs[|rs| - 1].Out? then Some(rs[|rs| - 1].file) else OutputOf(rs[..|rs| - 1])
  }

  /** Whether the last output redirection appends. */
  function ModeOf(rs: seq<Redirect>, before: bool): (append: bool) {
    if rs == [] then before
    else if rs[|rs| - 1].Out? then rs[|rs| - 1].append else ModeOf(rs[..|rs| - 1], before)
  }

  predicate Plain(line: seq<Stage>) {
    forall i :: 0 <= i < |line| ==> line[i].Command?
  }

  function CommandsOf(line: seq<Stage>): (commands: seq<seq<string>>)
    requires Plain(line)
  {
    seq(|line|, i requires 0 <= i < |line| => [line[i].name] + line[i].args)
  }

  function FilesOfLine(line: seq<Stage>): (files: seq<Files>)
    requires Plain(line)
  {
    seq(|line|, i requires 0 <= i < |line| => Files(InputOf(line[i].redirects), OutputOf(line[i].redirects)))
  }

  function ModeOfLine(line: seq<Stage>): (append: bool)
    requires Plain(line)
  {
    if line == [] then false else ModeOf(line[|line| - 1].redirects, ModeOfLine(line[..|line| - 1]))
  }

  /** `p` holds the parts of the line. */
  predicate Recovers(p: Splitting, line: seq<Stage>)
    requires Plain(line)
  {
    p.commands == CommandsOf(line) && p.files == FilesOfLine(line) && p.outMode == ModeOfLine(line)
  }

  // ---- typed tokens by structure

  function TagWords(words: seq<string>): (tagged: Tagged) {
    seq(|words|, i requires 0 <= i < |words| => (words[i], Argument))
  }

  function TagRedirect(r: Redirect): (tagged: Tagged) {
    match r
    case In(file) => [("<", RedirectInput), (file, InputFilename)]
    case Out(append, file) => [(if append then ">>" else ">", RedirectOutput), (file, OutputFilename)]
  }

  function TagRedirects(rs: seq<Redirect>): (tagged: Tagged) {
    if rs == [] then [] else TagRedirects(rs[..|rs| - 1]) + TagRedirect(rs[|rs| - 1])
  }

  function TagStage(s: Stage): (tagged: Tagged)
    requires s.Command?
  {
    [(s.name, CommandName)] + TagWords(s.args) + TagRedirects(s.redirects)
  }

  function TagLine(line: seq<Stage>): (tagged: Tagged)
    requires Plain(line)
  {
    if line == [] then []
    else if |line| == 1 then TagStage(line[0])
    else TagLine(line[..|line| - 1]) + [("|", Pipe)] + TagStage(line[|line| - 1])
  }

  lemma ZipAppend(a: seq<string>, b: seq<string>, ka: seq<Kind>, kb: seq<Kind>)
    requires |a| == |ka| && |b| == |kb|
    ensures Zip(a + b, ka + kb) == Zip(a, ka) + Zip(b, kb)
  {
  }

  lemma {:induction false} ZipRedirects(rs: seq<Redirect>)
    ensures |RenderRedirects(rs)| == |KindsOfRedirects(rs)|
    ensures Zip(RenderRedirects(rs), KindsOfRedirects(rs)) == TagRedirects(rs)
    decreases |rs|
  {
    if rs == [] {
    } else {
      var front, r := rs[..|rs| - 1], rs[|rs| - 1];
      var k := if r.In? then [RedirectInput, InputFilename] else [RedirectOutput, OutputFilename];
      ZipRedirects(front);
      assert RenderRedirects(rs) == RenderRedirects(front) + RenderRedirect(r);
      assert KindsOfRedirects(rs) == KindsOfRedirects(front) + k;
      assert TagRedirects(rs) == TagRedirects(front) + TagRedirect(r);
      assert Zip(RenderRedirect(r), k) == TagRedirect(r);
      hide *;
      ZipAppend(RenderRedirects(front), RenderRedirect(r), KindsOfRedirects(front), k);
    }
  }

  lemma ZipStage(s: Stage)
    requires s.Command?
    ensures |RenderStage(s)| == |KindsOfStage(s)|
    ensures Zip(RenderStage(s), KindsOfStage(s)) == TagStage(s)
  {
    var n := |s.args|;
    ZipRedirects(s.redirects);
    assert Zip([s.name], [CommandName]) == [(s.name, CommandName)];
    assert |Arguments(n)| == n && Zip(s.args, Arguments(n)) == TagWords(s.args);
    assert RenderStage(s) == [s.name] + s.args + RenderRedirects(s.redirects);
    assert KindsOfStage(s) == [CommandName] + Arguments(n) + KindsOfRedirects(s.redirects);
    assert TagStage(s) == [(s.name, CommandName)] + TagWords(s.args) + TagRedirects(s.redirects);
    hide *;
    ZipAppend([s.name], s.args, [CommandName], Arguments(n));
    ZipAppend([s.name] + s.args, RenderRedirects(s.redirects), [CommandName] + Arguments(n),
        KindsOfRedirects(s.redirects));
  }

  /** The tokens of a line with the types of the checker. */
  lemma {:induction false} ZipLine(line: seq<Stage>)
    requires Plain(line)
    ensures |Render(line)| == |KindsOf(line)|
    ensures Zip(Render(line), KindsOf(line)) == TagLine(line)
    decreases |line|
  {
    if line == [] {
    } else if |line| == 1 {
      hide RenderStage, KindsOfStage, TagStage;
      ZipStage(line[0]);
    } else {
      var front, s := line[..|line| - 1], line[|line| - 1];
      assert Plain(front) && s.Command?;
      ZipLine(front);
      ZipStage(s);
      assert Render(line) == Render(front) + ["|"] + RenderStage(s);
      assert KindsOf(line) == KindsOf(front) + [Pipe] + KindsOfStage(s);
      assert TagLine(line) == TagLine(front) + [("|", Pipe)] + TagStage(s);
      assert Zip(["|"], [Pipe]) == [("|", Pipe)];
      hide *;
      ZipAppend(Render(front), ["|"], KindsOf(front), [Pipe]);
      ZipAppend(Render(front) + ["|"], RenderStage(s), KindsOf(front) + [Pipe], KindsOfStage(s));
    }
  }

  // ---- the fold over a line

  lemma {:induction false} SplitAppend(p: Splitting, a: Tagged, b: Tagged)
    requires p.Open()
    ensures SplitAll(p, a + b) == SplitAll(SplitAll(p, a), b)
    decreases |b|
  {
    if b == [] {
      assert a + b == a;
    } else {
      SplitAppend(p, a, b[..|b| - 1]);
      assert (a + b)[..|a + b| - 1] == a + b[..|b| - 1];
      hide SplitStep;
    }
  }

  lemma SplitOne(p: Splitting, token: string, k: Kind)
    requires p.Open()
    ensures SplitAll(p, [(token, k)]) == SplitStep(p, token, k)
  {
    hide SplitStep;
    assert [(token, k)][..0] == [];
  }

  /** `p` with the last command and files replaced. */
  function WithLast(p: Splitting, command: seq<string>, files: Files, outMode: bool, previous: string): (q: Splitting)
    requires p.Open()
    ensures q.Open()
  {
    var n := |p.commands| - 1;
    Splitting(p.commands[n := command], p.files[n := files], outMode, previous)
  }

  function LastWord(words: seq<string>, before: string): (w: string) {
    if words == [] then before else words[|words| - 1]
  }

  lemma {:induction false} SplitWords(p: Splitting, words: seq<string>)
    requires p.Open()
    ensures SplitAll(p, TagWords(words)) ==
            WithLast(p, p.Command() + words, p.CurrentFiles(), p.outMode, LastWord(words, p.previous))
    decreases |words|
  {
    if words == [] {
      assert p.Command() + words == p.Command();
    } else {
      var front, w := words[..|words| - 1], words[|words| - 1];
      SplitWords(p, front);
      assert TagWords(words)[..|words| - 1] == TagWords(front);
      assert p.Command() + words == p.Command() + front + [w];
    }
  }

  /** `p` with one more redirection. */
  function WithRedirect(p: Splitting, r: Redirect): (q: Splitting)
    requires p.Open()
    ensures q.Open()
  {
    WithLast(p, p.Command(),
             if r.In? then p.CurrentFiles().(input := Some(r.file)) else p.CurrentFiles().(output := Some(r.file)),
             if r.Out? then r.append else p.outMode, r.file)
  }

  lemma {:induction false} SplitRedirect(p: Splitting, r: Redirect)
    requires p.Open()
    ensures SplitAll(p, TagRedirect(r)) == WithRedirect(p, r)
  {
    var n, tagged := |p.commands| - 1, TagRedirect(r);
    assert tagged == [tagged[0]] + [tagged[1]];
    SplitAppend(p, [tagged[0]], [tagged[1]]);
    SplitOne(p, tagged[0].0, tagged[0].1);
    SplitOne(SplitStep(p, tagged[0].0, tagged[0].1), tagged[1].0, tagged[1].1);
    hide SplitAll;
    assert p.commands[n := p.commands[n]] == p.commands;
    assert ">" != ">>";
  }

  /** `p` with the files of all redirections. */
  function WithRedirects(p: Splitting, rs: seq<Redirect>): (q: Splitting)
    requires p.Open()
    ensures q.Open()
  {
    WithLast(p, p.Command(), Files(InputOf(rs), OutputOf(rs)), ModeOf(rs, p.outMode),
             if rs == [] then p.previous else rs[|rs| - 1].file)
  }

  lemma OneMoreRedirect(p: Splitting, front: seq<Redirect>, r: Redirect)
    requires p.Open()
    ensures WithRedirect(WithRedirects(p, front), r) == WithRedirects(p, front + [r])
  {
    assert (front + [r])[..|front|] == front;
  }

  lemma NoRedirect(p: Splitting)
    requires p.Open() && p.CurrentFiles() == NOFILES
    ensures WithRedirects(p, []) == p
  {
  }

  lemma TagRedirectsLast(rs: seq<Redirect>, r: Redirect)
    ensures TagRedirects(rs + [r]) == TagRedirects(rs) + TagRedirect(r)
  {
    assert (rs + [r])[..|rs|] == rs;
    hide TagRedirect;
  }

  lemma {:induction false} SplitRedirects(p: Splitting, rs: seq<Redirect>)
    requires p.Open() && p.CurrentFiles() == NOFILES
    ensures SplitAll(p, TagRedirects(rs)) == WithRedirects(p, rs)
    decreases |rs|
  {
    if rs == [] {
      NoRedirect(p);
      hide WithRedirects;
    } else {
      var front, r := rs[..|rs| - 1], rs[|rs| - 1];
      assert rs == front + [r];
      SplitRedirects(p, front);
      hide *;
      TagRedirectsLast(front, r);
      SplitAppend(p, TagRedirects(front), TagRedirect(r));
      SplitRedirect(SplitAll(p, TagRedirects(front)), r);
      OneMoreRedirect(p, front, r);
    }
  }

  /** `q` is `p` after one stage. */
  ghost predicate StageDone(p: Splitting, s: Stage, q: Splitting)
    requires p.Open() && s.Command?
  {
    var n := |p.commands| - 1;
    && q.commands == p.commands[n := [s.name] + s.args]
    && q.files == p.files[n := Files(InputOf(s.redirects), OutputOf(s.redirects))]
    && q.outMode == ModeOf(s.redirects, p.outMode)
  }

  /** The parts of a stage in turn: its name, its arguments, its redirections. */
  function StageParts(p: Splitting, s: Stage): (q: Splitting)
    requires p.Open() && s.Command?
    ensures q.Open()
  {
    var named := SplitStep(p, s.name, CommandName);
    var worded := WithLast(named, named.Command() + s.args, named.CurrentFiles(), named.outMode,
                           LastWord(s.args, named.previous));
    WithRedirects(worded, s.redirects)
  }

  lemma PartsAreStage(p: Splitting, s: Stage)
    requires p.Open() && s.Command? && p.Command() == []
    ensures StageDone(p, s, StageParts(p, s))
  {
    hide InputOf, OutputOf, ModeOf;
    assert [] + [s.name] == [s.name];
  }

  /** A stage fills the current command and files. */
  lemma SplitStage(p: Splitting, s: Stage)
    requires p.Open() && s.Command?
    requires p.CurrentFiles() == NOFILES && p.Command() == []
    ensures StageDone(p, s, SplitAll(p, TagStage(s)))
  {
    PartsAreStage(p, s);
    var named := SplitStep(p, s.name, CommandName);
    var worded := WithLast(named, named.Command() + s.args, named.CurrentFiles(), named.outMode,
                           LastWord(s.args, named.previous));
    assert worded.CurrentFiles() == NOFILES && StageParts(p, s) == WithRedirects(worded, s.redirects);
    assert TagStage(s) == [(s.name, CommandName)] + TagWords(s.args) + TagRedirects(s.redirects);
    hide *;
    SplitOne(p, s.name, CommandName);
    SplitWords(named, s.args);
    SplitRedirects(worded, s.redirects);
    SplitAppend(p, [(s.name, CommandName)], TagWords(s.args));
    SplitAppend(p, [(s.name, CommandName)] + TagWords(s.args), TagRedirects(s.redirects));
  }

  lemma RecoversFirst(s: Stage, q: Splitting)
    requires s.Command? && StageDone(FIRST, s, q)
    ensures Recovers(q, [s])
  {
    hide ModeOf, InputOf, OutputOf;
    assert [s][..0] == [] && ModeOfLine([]) == false;
  }

  lemma RecoversMore(p: Splitting, front: seq<Stage>, s: Stage, q: Splitting)
    requires Plain(front) && Recovers(p, front) && s.Command? && p.Open()
    requires StageDone(SplitStep(p, "|", Pipe), s, q)
    ensures Recovers(q, front + [s])
  {
    hide ModeOf, InputOf, OutputOf;
    var line := front + [s];
    assert line[..|line| - 1] == front && line[|line| - 1] == s;
  }

  /** Splitting the typed tokens of a line recovers its commands, files and output mode. */
  lemma {:induction false} SplitRecovers(line: seq<Stage>)
    requires line != [] && Plain(line)
    ensures Recovers(SplitAll(FIRST, TagLine(line)), line)
    decreases |line|
  {
    var front, s := line[..|line| - 1], line[|line| - 1];
    assert line == front + [s];
    if |line| == 1 {
      assert TagLine(line) == TagStage(s) && line == [s];
      hide SplitAll, TagStage, TagLine, StageDone;
      SplitStage(FIRST, s);
      RecoversFirst(s, SplitAll(FIRST, TagStage(s)));
    } else {
      assert Plain(front) && TagLine(line) == TagLine(front) + [("|", Pipe)] + TagStage(s);
      hide SplitAll, TagStage, TagLine, StageDone, Recovers;
      SplitRecovers(front);
      var p := SplitAll(FIRST, TagLine(front));
      SplitAppend(FIRST, TagLine(front), [("|", Pipe)]);
      SplitOne(p, "|", Pipe);
      var piped := SplitStep(p, "|", Pipe);
      SplitAppend(FIRST, TagLine(front) + [("|", Pipe)], TagStage(s));
      SplitStage(piped, s);
      RecoversMore(p, front, s, SplitAll(piped, TagStage(s)));
    }
  }

  // ---- argument vectors

  /** A cell of an argument vector; Unset is memory that was never written. */
  datatype Cell = Unset | Null | Word(text: string)

  /**
     The row of a command that holds `words`. All rows are filled with NULL, but the first one is
     then replaced by fresh memory; a pipe puts a NULL behind the words and closes the row.
     */
  function Row(words: seq<string>, first: bool, closed: bool, width: nat): (row: seq<Cell>)
    ensures |row| == width
  {
    seq(width, j requires 0 <= j < width =>
      if j < |words| then Word(words[j])
      else if first && !(closed && j == |words|) then Unset
      else Null)
  }

  /** The rows when the loop ends: the last token puts a NULL one cell too far. */
  function FinalRow(commands: seq<seq<string>>, r: nat, width: nat): (row: seq<Cell>)
    requires r < |commands|
    ensures |row| == width
  {
    var last, n := r == |commands| - 1, |commands[r]|;
    var row := Row(commands[r], r == 0, !last, width);
    if last && n + 1 < width then row[n + 1 := Null] else row
  }

  /** The arguments that execvp finds up to the first NULL; None when it meets unset or foreign memory first. */
  function ReadArguments(row: seq<Cell>): (args: Option<seq<string>>) {
    if row == [] || row[0] == Unset then None
    else if row[0] == Null then Some([])
    else
      var rest := ReadArguments(row[1..]);
      if rest == None then None else Some([row[0].text] + rest.value)
  }

  lemma {:induction false} ReadWords(row: seq<Cell>, words: seq<string>)
    requires |words| <= |row| && forall j :: 0 <= j < |words| ==> row[j] == Word(words[j])
    requires |words| < |row| ==> !row[|words|].Word?
    ensures ReadArguments(row) == if |words| < |row| && row[|words|] == Null then Some(words) else None
    decreases |words|
  {
    if words != [] {
      ReadWords(row[1..], words[1..]);
      assert words == [words[0]] + words[1..];
    }
  }

  /** A command finds its own words as arguments if and only if the line has a pipe (and the row has room). */
  lemma ArgumentsReadIff(commands: seq<seq<string>>, r: nat, width: nat)
    requires r < |commands| && |commands[r]| <= width
    ensures ReadArguments(FinalRow(commands, r, width)) ==
            if |commands| >= 2 && |commands[r]| < width then Some(commands[r]) else None
  {
    ReadWords(FinalRow(commands, r, width), commands[r]);
  }

  lemma RenderOne(line: seq<Stage>)
    requires |line| == 1 && Plain(line)
    ensures |CommandsOf(line)| == 1 && |CommandsOf(line)[0]| <= |Render(line)|
  {
    hide RenderRedirects;
  }

  lemma RenderLonger(line: seq<Stage>)
    requires |line| > 1 && Plain(line)
    ensures var front := line[..|line| - 1];
            && Plain(front) && |CommandsOf(line)| == |line| && |CommandsOf(front)| == |front|
            && |Render(line)| >= |Render(front)| + 1 + |CommandsOf(line)[|front|]|
            && |CommandsOf(line)[|front|]| >= 1
            && forall i :: 0 <= i < |front| ==> CommandsOf(line)[i] == CommandsOf(front)[i]
  {
    hide RenderRedirects;
  }

  /** No stage is longer than the line, and every pipe takes a token more. */
  lemma {:induction false} StageFits(line: seq<Stage>, i: nat)
    requires i < |line| && Plain(line)
    ensures |CommandsOf(line)| == |line| && |CommandsOf(line)[i]| + |line| - 1 <= |Render(line)|
    decreases |line|
  {
    hide *;
    if |line| == 1 {
      RenderOne(line);
    } else {
      var front := line[..|line| - 1];
      RenderLonger(line);
      StageFits(front, if i < |front| then i else 0);
    }
  }
}

/** The line checker of the shell, and the grammar that it decides. */
module ShellSyntax {
  import opened Wrappers

  // ---- the automaton

  datatype State = WAIT_CMD | WAIT_ARG | WAIT_IN_FILE | WAIT_OUT_FILE | WAIT_MORE | WAIT_ONE_ARG | NO_MORE

  /** The type recorded for a token. */
  datatype Kind =
    | BuiltInCommand | CommandName | Argument | Pipe
    | RedirectInput | RedirectOutput | InputFilename | OutputFilename

  predicate IsIllegal(c: char) {
    c == '>' || c == '<' || c == '|' || c == '*' || c == '!' || c == '\'' || c == '\"'
  }

  /** checkIllegal: no reserved character occurs in the token. */
  predicate Legal(token: string) {
    forall k :: 0 <= k < |token| ==> !IsIllegal(token[k])
  }

  predicate IsOutput(token: string) {
    token == ">" || token == ">>"
  }

  predicate TakesArgument(token: string) {
    token == "cd" || token == "fg"
  }

  predicate IsBuiltIn(token: string) {
    TakesArgument(token) || token == "exit" || token == "jobs"
  }

  datatype Config = Config(state: State, recursive: nat, fileQuota: nat, types: seq<Kind>) {
    predicate After(k: Kind) {
      types != [] && types[|types| - 1] == k
    }

    function Next(state': State, k: Kind): (c: Config) {
      Config(state', recursive, fileQuota, types + [k])
    }
  }

  const START := Config(WAIT_CMD, 0, 0, [])

  /** One token; None where the checker raises its error flag. */
  function Step(c: Config, token: string): (r: Option<Config>) {
    match c.state
    case WAIT_CMD =>
      if !Legal(token) then None
      else if TakesArgument(token) then Some(c.Next(WAIT_ONE_ARG, BuiltInCommand))
      else if IsBuiltIn(token) then Some(c.Next(NO_MORE, BuiltInCommand))
      else Some(c.Next(WAIT_ARG, CommandName))
    case WAIT_ARG =>
      if token == "|" then Some(c.Next(WAIT_CMD, Pipe).(recursive := c.recursive + 1))
      else if token == "<" then Some(c.Next(WAIT_IN_FILE, RedirectInput))
      else if IsOutput(token) then Some(c.Next(WAIT_OUT_FILE, RedirectOutput))
      else if !Legal(token) then None
      else Some(c.Next(WAIT_ARG, Argument))
    case WAIT_ONE_ARG =>
      if !Legal(token) then None else Some(c.Next(NO_MORE, Argument))
    case WAIT_IN_FILE =>
      if c.recursive != 0 || !Legal(token) then None
      else Some(c.Next(WAIT_MORE, InputFilename).(fileQuota := c.fileQuota + 1))
    case WAIT_OUT_FILE =>
      if !Legal(token) then None
      else Some(c.Next(WAIT_MORE, OutputFilename).(fileQuota := c.fileQuota + 1))
    case WAIT_MORE =>
      if token == "<" && c.After(OutputFilename) && c.fileQuota <= 2 then Some(c.Next(WAIT_IN_FILE, RedirectInput))
      else if IsOutput(token) && c.After(InputFilename) && c.fileQuota <= 2 then
        Some(c.Next(WAIT_OUT_FILE, RedirectOutput))
      else if c.recursive == 0 && token == "|" && c.After(InputFilename) then
        Some(c.Next(WAIT_CMD, Pipe).(recursive := c.recursive + 1))
      else None
    case NO_MORE => None
  }

  function RunFrom(c: Config, tokens: seq<string>): (r: Option<Config>) {
    if tokens == [] then Some(c)
    else
      match RunFrom(c, tokens[..|tokens| - 1])
      case None => None
      case Some(d) => Step(d, tokens[|tokens| - 1])
  }

  predicate Final(c: Config) {
    !(c.state == WAIT_IN_FILE || c.state == WAIT_OUT_FILE || c.state == WAIT_CMD || c.recursive > 2 || c.fileQuota >= 3)
  }

  predicate Accepts(tokens: seq<string>) {
    var r := RunFrom(START, tokens);
    r.Some? && Final(r.value)
  }

  // ---- the grammar

  datatype Redirect = In(file: string) | Out(append: bool, file: string)

  datatype Stage =
    | Command(name: string, args: seq<string>, redirects: seq<Redirect>)
    | BuiltIn(name: string, args: seq<string>)

  function RenderRedirect(r: Redirect): (tokens: seq<string>) {
    match r
    case In(file) => ["<", file]
    case Out(append, file) => [if append then ">>" else ">", file]
  }

  function RenderRedirects(rs: seq<Redirect>): (tokens: seq<string>) {
    if rs == [] then [] else RenderRedirects(rs[..|rs| - 1]) + RenderRedirect(rs[|rs| - 1])
  }

  function RenderStage(s: Stage): (tokens: seq<string>) {
    match s
    case Command(name, args, redirects) => [name] + args + RenderRedirects(redirects)
    case BuiltIn(name, args) => [name] + args
  }

  /** Stages joined by pipes. */
  function Render(line: seq<Stage>): (tokens: seq<string>) {
    if line == [] then []
    else if |line| == 1 then RenderStage(line[0])
    else Render(line[..|line| - 1]) + ["|"] + RenderStage(line[|line| - 1])
  }

  predicate LegalAll(words: seq<string>) {
    forall k :: 0 <= k < |words| ==> Legal(words[k])
  }

  predicate LegalFiles(rs: seq<Redirect>) {
    forall k :: 0 <= k < |rs| ==> Legal(rs[k].file)
  }

  predicate LegalStage(s: Stage) {
    && Legal(s.name) && LegalAll(s.args)
    && match s
       case Command(name, _, redirects) => !IsBuiltIn(name) && LegalFiles(redirects)
       case BuiltIn(name, args) => IsBuiltIn(name) && |args| <= if TakesArgument(name) then 1 else 0
  }

  /** At most one input and one output, in either order. */
  predicate FirstRedirects(rs: seq<Redirect>) {
    |rs| <= 2 && (|rs| == 2 ==> rs[0].In? != rs[1].In?)
  }

  function Files(line: seq<Stage>): (n: nat) {
    if line == [] then 0
    else
      var last := line[|line| - 1];
      Files(line[..|line| - 1]) + if last.Command? then |last.redirects| else 0
  }

  /**
     One to three stages; only the last may be built in; the first may redirect both ways
     but must end with its input when a pipe follows; only the last of the others may
     redirect, its output; two files at most.
     */
  predicate WellFormed(line: seq<Stage>) {
    && 1 <= |line| <= 3
    && (forall i :: 0 <= i < |line| ==> LegalStage(line[i]))
    && (forall i :: 0 <= i < |line| - 1 ==> PipedStage(line[i], i == 0))
    && LastStage(line[|line| - 1], |line| == 1)
    && Files(line) <= 2
  }

  predicate PipedStage(s: Stage, first: bool) {
    && s.Command?
    && (s.redirects == [] || (first && FirstRedirects(s.redirects) && s.redirects[|s.redirects| - 1].In?))
  }

  predicate LastStage(s: Stage, first: bool) {
    s.Command? ==>
      if first then FirstRedirects(s.redirects)
      else s.redirects == [] || (|s.redirects| == 1 && s.redirects[0].Out?)
  }

  // ---- the types that the checker records

  function KindsOfRedirects(rs: seq<Redirect>): (kinds: seq<Kind>) {
    if rs == [] then []
    else
      KindsOfRedirects(rs[..|rs| - 1])
      + if rs[|rs| - 1].In? then [RedirectInput, InputFilename] else [RedirectOutput, OutputFilename]
  }

  function Arguments(n: nat): (kinds: seq<Kind>) {
    seq(n, _ => Argument)
  }

  function KindsOfStage(s: Stage): (kinds: seq<Kind>) {
    match s
    case Command(_, args, redirects) => [CommandName] + Arguments(|args|) + KindsOfRedirects(redirects)
    case BuiltIn(_, args) => [BuiltInCommand] + Arguments(|args|)
  }

  function KindsOf(line: seq<Stage>): (kinds: seq<Kind>) {
    if line == [] then []
    else if |line| == 1 then KindsOfStage(line[0])
    else KindsOf(line[..|line| - 1]) + [Pipe] + KindsOfStage(line[|line| - 1])
  }

  // ---- every accepted line has a parse

  /** A line under construction: the finished stages, then what has been read of the next. */
  datatype Current =
    | Empty
    | Words(name: string, args: seq<string>, redirects: seq<Redirect>)
    | NeedIn(name: string, args: seq<string>, redirects: seq<Redirect>)
    | NeedOut(name: string, args: seq<string>, redirects: seq<Redirect>, append: bool)
    | Built(name: string, args: seq<string>)

  function RenderCurrent(q: Current): (tokens: seq<string>) {
    match q
    case Empty => []
    case Words(name, args, redirects) => RenderStage(Command(name, args, redirects))
    case NeedIn(name, args, redirects) => RenderStage(Command(name, args, redirects)) + ["<"]
    case NeedOut(name, args, redirects, append) =>
      RenderStage(Command(name, args, redirects)) + [if append then ">>" else ">"]
    case Built(name, args) => RenderStage(BuiltIn(name, args))
  }

  function RenderPartial(before: seq<Stage>, q: Current): (tokens: seq<string>) {
    if before == [] then RenderCurrent(q) else Render(before) + ["|"] + RenderCurrent(q)
  }

  /** Inputs and outputs alternate, as long as the checker lets them go on. */
  predicate Alternating(rs: seq<Redirect>) {
    forall k :: 0 <= k < |rs| - 1 ==> rs[k].In? != rs[k + 1].In?
  }

  predicate CurrentRedirects(rs: seq<Redirect>, first: bool) {
    if first then Alternating(rs) else rs == [] || (|rs| == 1 && rs[0].Out?)
  }

  predicate Before(before: seq<Stage>) {
    forall i :: 0 <= i < |before| ==>
      && LegalStage(before[i]) && before[i].Command?
      && (before[i].redirects == []
          || (i == 0 && Alternating(before[0].redirects) && before[0].redirects[|before[0].redirects| - 1].In?))
  }

  /** The configuration that belongs to a partial parse. */
  predicate Matches(c: Config, before: seq<Stage>, q: Current) {
    && Before(before)
    && c.recursive == |before|
    && match q
       case Empty => c.state == WAIT_CMD && c.fileQuota == Files(before)
       case Words(name, args, rs) =>
         && LegalStage(Command(name, args, rs)) && CurrentRedirects(rs, before == [])
         && c.fileQuota == Files(before) + |rs|
         && (if rs == [] then c.state == WAIT_ARG
             else c.state == WAIT_MORE && c.After(if rs[|rs| - 1].In? then InputFilename else OutputFilename))
       case NeedIn(name, args, rs) =>
         && LegalStage(Command(name, args, rs)) && CurrentRedirects(rs, before == [])
         && c.fileQuota == Files(before) + |rs|
         && c.state == WAIT_IN_FILE && (rs == [] || rs[|rs| - 1].Out?)
       case NeedOut(name, args, rs, append) =>
         && LegalStage(Command(name, args, rs)) && CurrentRedirects(rs, before == [])
         && c.fileQuota == Files(before) + |rs|
         && c.state == WAIT_OUT_FILE && (rs == [] || rs[|rs| - 1].In?)
       case Built(name, args) =>
         && LegalStage(BuiltIn(name, args)) && c.fileQuota == Files(before)
         && c.state == if TakesArgument(name) && args == [] then WAIT_ONE_ARG else NO_MORE
  }

  lemma Operators(token: string)
    ensures token == "|" || token == "<" || IsOutput(token) ==> !Legal(token)
    ensures IsOutput(token) ==> token == if token == ">>" then ">>" else ">"
  {
    if token == "|" || token == "<" || token == ">" || token == ">>" {
      assert IsIllegal(token[0]);
    }
  }

  lemma RenderSnoc(before: seq<Stage>, s: Stage)
    ensures Render(before + [s]) == if before == [] then RenderStage(s) else Render(before) + ["|"] + RenderStage(s)
    ensures Files(before + [s]) == Files(before) + if s.Command? then |s.redirects| else 0
  {
    hide RenderStage;
    var line := before + [s];
    assert line[|line| - 1] == s && line[..|line| - 1] == before;
  }

  lemma RedirectsSnoc(rs: seq<Redirect>, r: Redirect)
    ensures RenderRedirects(rs + [r]) == RenderRedirects(rs) + RenderRedirect(r)
  {
    assert (rs + [r])[..|rs|] == rs;
  }

  lemma ArgumentGrows(name: string, args: seq<string>, token: string)
    ensures RenderStage(Command(name, args + [token], [])) == RenderStage(Command(name, args, [])) + [token]
  {
  }

  lemma RedirectGrows(name: string, args: seq<string>, rs: seq<Redirect>, r: Redirect)
    ensures RenderStage(Command(name, args, rs + [r])) == RenderStage(Command(name, args, rs)) + RenderRedirect(r)
  {
    RedirectsSnoc(rs, r);
    hide RenderRedirect;
  }

  /** The current part of the parse grows by a token. */
  lemma CurrentGrows(before: seq<Stage>, q: Current, q': Current, token: string)
    requires RenderCurrent(q') == RenderCurrent(q) + [token]
    ensures RenderPartial(before, q') == RenderPartial(before, q) + [token]
  {
    hide Render, RenderCurrent;
    if before != [] {
      assert Render(before) + ["|"] + (RenderCurrent(q) + [token])
          == Render(before) + ["|"] + RenderCurrent(q) + [token];
    }
  }

  lemma StepPipe(c: Config, before: seq<Stage>, q: Current) returns (before': seq<Stage>)
    requires Matches(c, before, q) && q.Words? && Step(c, "|").Some?
    ensures Matches(Step(c, "|").value, before', Empty)
    ensures RenderPartial(before', Empty) == RenderPartial(before, q) + ["|"]
  {
    var s := Command(q.name, q.args, q.redirects);
    before' := before + [s];
    RenderSnoc(before, s);
    hide Legal, LegalStage, IsBuiltIn, RenderStage, Files, Render;
    assert Step(c, "|").value == c.Next(WAIT_CMD, Pipe).(recursive := c.recursive + 1);
    hide Step;
    assert Before(before') by {
      forall i | 0 <= i < |before'| ensures before'[i] == if i < |before| then before[i] else s {
      }
    }
  }

  lemma StepRedirect(c: Config, token: string, before: seq<Stage>, q: Current) returns (q': Current)
    requires Matches(c, before, q) && q.Words? && (token == "<" || IsOutput(token)) && Step(c, token).Some?
    ensures Matches(Step(c, token).value, before, q')
    ensures RenderPartial(before, q') == RenderPartial(before, q) + [token]
  {
    Operators(token);
    if token == "<" {
      q' := NeedIn(q.name, q.args, q.redirects);
    } else {
      q' := NeedOut(q.name, q.args, q.redirects, token == ">>");
    }
    hide Legal, LegalStage, IsBuiltIn, RenderStage, Files;
    CurrentGrows(before, q, q', token);
  }

  lemma StepArgument(c: Config, token: string, before: seq<Stage>, q: Current) returns (q': Current)
    requires Matches(c, before, q) && q.Words? && token != "|" && token != "<" && !IsOutput(token)
            && Step(c, token).Some?
    ensures Matches(Step(c, token).value, before, q')
    ensures RenderPartial(before, q') == RenderPartial(before, q) + [token]
  {
    q' := Words(q.name, q.args + [token], q.redirects);
    ArgumentGrows(q.name, q.args, token);
    hide Legal, IsBuiltIn, RenderStage, Files;
    CurrentGrows(before, q, q', token);
  }

  lemma FileStep(c: Config, token: string)
    requires (c.state == WAIT_IN_FILE || c.state == WAIT_OUT_FILE) && Step(c, token).Some?
    ensures var k := if c.state == WAIT_IN_FILE then InputFilename else OutputFilename;
            Step(c, token).value == Config(WAIT_MORE, c.recursive, c.fileQuota + 1, c.types + [k])
    ensures Legal(token) && (c.state == WAIT_IN_FILE ==> c.recursive == 0)
  {
  }

  lemma FileMatches(c: Config, before: seq<Stage>, q: Current, r: Redirect)
    requires Matches(c, before, q) && Legal(r.file) && (r.In? ==> c.recursive == 0)
    requires (q.NeedIn? && r.In?) || (q.NeedOut? && r.Out?)
    ensures var d := Config(WAIT_MORE, c.recursive, c.fileQuota + 1,
                           c.types + [if r.In? then InputFilename else OutputFilename]);
            Matches(d, before, Words(q.name, q.args, q.redirects + [r]))
  {
    var rs := q.redirects + [r];
    FilesLegal(q.redirects, r);
    hide LegalAll, LegalFiles, Legal, IsBuiltIn, Files, Before;
    assert CurrentRedirects(rs, before == []) by {
      assert forall k :: 0 <= k < |rs| - 1 ==> rs[k] == q.redirects[k];
    }
    assert rs[|rs| - 1] == r;
  }

  lemma StepInFile(c: Config, token: string, before: seq<Stage>, q: Current) returns (q': Current)
    requires Matches(c, before, q) && (q.NeedIn? || q.NeedOut?) && Step(c, token).Some?
    ensures Matches(Step(c, token).value, before, q')
    ensures RenderPartial(before, q') == RenderPartial(before, q) + [token]
  {
    assert c.state == if q.NeedIn? then WAIT_IN_FILE else WAIT_OUT_FILE;
    hide *;
    FileStep(c, token);
    var r := if q.NeedIn? then In(token) else Out(q.append, token);
    q' := Words(q.name, q.args, q.redirects + [r]);
    FileMatches(c, before, q, r);
    FileGrows(q, r);
    CurrentGrows(before, q, q', token);
  }

  lemma FileGrows(q: Current, r: Redirect)
    requires (q.NeedIn? && r.In?) || (q.NeedOut? && r.Out? && r.append == q.append)
    ensures RenderCurrent(Words(q.name, q.args, q.redirects + [r])) == RenderCurrent(q) + [r.file]
  {
    RedirectGrows(q.name, q.args, q.redirects, r);
    hide RenderStage;
  }

  lemma FilesLegal(rs: seq<Redirect>, r: Redirect)
    requires LegalFiles(rs) && Legal(r.file)
    ensures LegalFiles(rs + [r])
  {
    hide Legal;
  }

  lemma WordGrows(q: Current, q': Current, token: string)
    requires q.Built? ==> q' == Built(q.name, q.args + [token])
    requires !q.Built? ==> q.Empty? && (q' == Built(token, []) || q' == Words(token, [], []))
    ensures RenderCurrent(q') == RenderCurrent(q) + [token]
  {
  }

  lemma OtherMatches(c: Config, token: string, before: seq<Stage>, q: Current, q': Current)
    requires Matches(c, before, q) && (q.Empty? || q.Built?) && Step(c, token).Some?
    requires q' == if q.Built? then Built(q.name, q.args + [token])
                   else if IsBuiltIn(token) then Built(token, []) else Words(token, [], [])
    ensures Matches(Step(c, token).value, before, q')
  {
    hide Legal, Files, Before;
  }

  lemma StepInOther(c: Config, token: string, before: seq<Stage>, q: Current) returns (q': Current)
    requires Matches(c, before, q) && (q.Empty? || q.Built?) && Step(c, token).Some?
    ensures Matches(Step(c, token).value, before, q')
    ensures RenderPartial(before, q') == RenderPartial(before, q) + [token]
  {
    hide *;
    q' := if q.Built? then Built(q.name, q.args + [token])
          else if IsBuiltIn(token) then Built(token, []) else Words(token, [], []);
    OtherMatches(c, token, before, q, q');
    WordGrows(q, q', token);
    CurrentGrows(before, q, q', token);
  }

  lemma NothingParses()
    ensures RunFrom(START, []) == Some(START) && Matches(START, [], Empty) && RenderPartial([], Empty) == []
  {
  }

  lemma RunLast(tokens: seq<string>)
    requires tokens != [] && RunFrom(START, tokens).Some?
    ensures var front, token := tokens[..|tokens| - 1], tokens[|tokens| - 1];
            && RunFrom(START, front).Some?
            && RunFrom(START, tokens) == Step(RunFrom(START, front).value, token)
  {
    hide Step;
  }

  lemma {:induction false} RunParses(tokens: seq<string>) returns (before: seq<Stage>, q: Current)
    requires RunFrom(START, tokens).Some?
    ensures Matches(RunFrom(START, tokens).value, before, q) && RenderPartial(before, q) == tokens
    decreases |tokens|
  {
    hide *;
    if tokens == [] {
      before, q := [], Empty;
      NothingParses();
    } else {
      var front, token := tokens[..|tokens| - 1], tokens[|tokens| - 1];
      RunLast(tokens);
      before, q := RunParses(front);
      var c := RunFrom(START, front).value;
      assert tokens == front + [token];
      match q {
        case Words(_, _, _) =>
          if token == "|" {
            before := StepPipe(c, before, q);
            q := Empty;
          } else if token == "<" || IsOutput(token) {
            q := StepRedirect(c, token, before, q);
          } else {
            q := StepArgument(c, token, before, q);
          }
        case NeedIn(_, _, _) => q := StepInFile(c, token, before, q);
        case NeedOut(_, _, _, _) => q := StepInFile(c, token, before, q);
        case Empty => q := StepInOther(c, token, before, q);
        case Built(_, _) => q := StepInOther(c, token, before, q);
      }
    }
  }

  lemma PartialIsLine(c: Config, before: seq<Stage>, s: Stage)
    requires Before(before) && LegalStage(s) && c.recursive == |before| && Final(c)
    requires s.Command? ==> CurrentRedirects(s.redirects, before == [])
    requires c.fileQuota == Files(before + [s])
    ensures WellFormed(before + [s])
  {
    var line := before + [s];
    FilesOfFirst(line);
    hide LegalStage, Files;
  }

  lemma {:induction false} FilesOfFirst(line: seq<Stage>)
    ensures line != [] && line[0].Command? ==> Files(line) >= |line[0].redirects|
    decreases |line|
  {
    if |line| > 1 {
      FilesOfFirst(line[..|line| - 1]);
    }
  }

  /** The stage that a finished parse ends with. */
  function StageOf(q: Current): (s: Stage)
    requires q.Words? || q.Built?
  {
    if q.Words? then Command(q.name, q.args, q.redirects) else BuiltIn(q.name, q.args)
  }

  lemma FinishedRenders(before: seq<Stage>, q: Current)
    requires q.Words? || q.Built?
    ensures RenderPartial(before, q) == Render(before + [StageOf(q)])
  {
    RenderSnoc(before, StageOf(q));
    hide Render, RenderStage;
  }

  lemma FinishedIsLine(c: Config, before: seq<Stage>, q: Current)
    requires Matches(c, before, q) && Final(c)
    ensures (q.Words? || q.Built?) && WellFormed(before + [StageOf(q)])
  {
    hide LegalStage, Files, Before, WellFormed;
    assert q.Words? || q.Built?;
    var s := StageOf(q);
    RenderSnoc(before, s);
    assert LegalStage(s);
    PartialIsLine(c, before, s);
  }

  /** Every accepted line belongs to the grammar. */
  lemma AcceptedParses(tokens: seq<string>) returns (line: seq<Stage>)
    requires Accepts(tokens)
    ensures WellFormed(line) && Render(line) == tokens
  {
    hide RunFrom, WellFormed, Render, RenderPartial, Matches, Final;
    var before, q := RunParses(tokens);
    FinishedIsLine(RunFrom(START, tokens).value, before, q);
    FinishedRenders(before, q);
    line := before + [StageOf(q)];
  }

  // ---- every line of the grammar is accepted

  lemma {:induction false} RunAppend(c: Config, a: seq<string>, b: seq<string>)
    ensures RunFrom(c, a + b) == match RunFrom(c, a) case None => None case Some(d) => RunFrom(d, b)
    decreases |b|
  {
    if b == [] {
      assert a + b == a;
    } else {
      RunAppend(c, a, b[..|b| - 1]);
      assert (a + b)[..|a + b| - 1] == a + b[..|b| - 1];
      hide Step;
    }
  }

  lemma RunOne(c: Config, token: string)
    ensures RunFrom(c, [token]) == Step(c, token)
  {
    assert [token][..0] == [];
  }

  /** The configuration after `n` arguments. */
  function Worded(c: Config, n: nat): (d: Config) {
    c.(types := c.types + Arguments(n))
  }

  lemma NoWords(c: Config)
    ensures Worded(c, 0) == c
  {
  }

  lemma OneMoreWord(c: Config, n: nat, token: string)
    requires c.state == WAIT_ARG && Legal(token)
    ensures Step(Worded(c, n), token) == Some(Worded(c, n + 1))
  {
    Operators(token);
    hide IsOutput, Legal;
    assert c.types + Arguments(n) + [Argument] == c.types + Arguments(n + 1);
  }

  lemma {:induction false} RunWords(c: Config, args: seq<string>)
    requires c.state == WAIT_ARG && LegalAll(args)
    ensures RunFrom(c, args) == Some(Worded(c, |args|))
    decreases |args|
  {
    if args == [] {
      NoWords(c);
    } else {
      var n := |args| - 1;
      RunWords(c, args[..n]);
      OneMoreWord(c, n, args[n]);
      hide Worded, Step, Legal;
    }
  }

  lemma {:induction false} RunRedirect(c: Config, r: Redirect)
    requires Legal(r.file) && (r.In? ==> c.recursive == 0)
    requires || c.state == WAIT_ARG
             || (c.state == WAIT_MORE && c.After(if r.In? then OutputFilename else InputFilename) && c.fileQuota <= 2)
    ensures RunFrom(c, RenderRedirect(r)) ==
              Some(Config(WAIT_MORE, c.recursive, c.fileQuota + 1,
                          c.types + if r.In? then [RedirectInput, InputFilename] else [RedirectOutput, OutputFilename]))
  {
    var t := RenderRedirect(r)[0];
    assert RenderRedirect(r) == [t] + [r.file];
    RunAppend(c, [t], [r.file]);
    RunOne(c, t);
    assert Step(c, t).Some?;
    var d := Step(c, t).value;
    RunOne(d, r.file);
    hide RunFrom, Legal;
    assert c.types + [RedirectInput] + [InputFilename] == c.types + [RedirectInput, InputFilename];
    assert c.types + [RedirectOutput] + [OutputFilename] == c.types + [RedirectOutput, OutputFilename];
  }

  /** The configuration after the redirections of one stage. */
  function Redirected(c: Config, rs: seq<Redirect>): (d: Config) {
    Config(if rs == [] then WAIT_ARG else WAIT_MORE, c.recursive, c.fileQuota + |rs|, c.types + KindsOfRedirects(rs))
  }

  lemma LastKind(rs: seq<Redirect>)
    requires rs != []
    ensures KindsOfRedirects(rs) != []
    ensures KindsOfRedirects(rs)[|KindsOfRedirects(rs)| - 1] ==
              if rs[|rs| - 1].In? then InputFilename else OutputFilename
  {
  }

  lemma {:induction false} AddRedirect(c: Config, front: seq<Redirect>, r: Redirect)
    requires RunFrom(c, RenderRedirects(front)) == Some(Redirected(c, front))
    requires Legal(r.file) && (r.In? ==> c.recursive == 0)
    requires front != [] ==> front[|front| - 1].In? != r.In? && c.fileQuota + |front| <= 2
    ensures RunFrom(c, RenderRedirects(front + [r])) == Some(Redirected(c, front + [r]))
  {
    hide RunFrom, RenderRedirect, Legal, RenderRedirects, KindsOfRedirects;
    var d := Redirected(c, front);
    if front != [] {
      LastKind(front);
    }
    RunRedirect(d, r);
    RunAppend(c, RenderRedirects(front), RenderRedirect(r));
    RedirectsSnoc(front, r);
    RedirectKindsSnoc(front, r);
    var k := if r.In? then [RedirectInput, InputFilename] else [RedirectOutput, OutputFilename];
    assert c.types + KindsOfRedirects(front) + k == c.types + (KindsOfRedirects(front) + k);
  }

  lemma RedirectKindsSnoc(rs: seq<Redirect>, r: Redirect)
    ensures KindsOfRedirects(rs + [r])
         == KindsOfRedirects(rs) + if r.In? then [RedirectInput, InputFilename] else [RedirectOutput, OutputFilename]
  {
    assert (rs + [r])[..|rs|] == rs;
  }

  lemma NoRedirects(c: Config)
    requires c.state == WAIT_ARG
    ensures RunFrom(c, RenderRedirects([])) == Some(Redirected(c, []))
  {
    assert c.types + [] == c.types;
  }

  lemma RunRedirects(c: Config, rs: seq<Redirect>)
    requires c.state == WAIT_ARG && LegalFiles(rs) && FirstRedirects(rs)
    requires rs != [] ==> c.fileQuota <= 1 && (c.recursive == 0 || forall k :: 0 <= k < |rs| ==> rs[k].Out?)
    ensures RunFrom(c, RenderRedirects(rs)) == Some(Redirected(c, rs))
    decreases |rs|
  {
    if rs == [] {
      NoRedirects(c);
    } else {
      assert Legal(rs[0].file) && Legal(rs[|rs| - 1].file);
      NoRedirects(c);
      hide RunFrom, RenderRedirect, Legal, RenderRedirects, KindsOfRedirects, Redirected, LegalFiles;
      AddRedirect(c, [], rs[0]);
      assert [] + [rs[0]] == [rs[0]];
      if |rs| == 1 {
        assert rs == [rs[0]];
      } else {
        AddRedirect(c, [rs[0]], rs[1]);
        assert rs == [rs[0]] + [rs[1]];
      }
    }
  }

  /** Where the checker stands after a whole stage. */
  function EndState(s: Stage): (state: State) {
    match s
    case Command(_, _, rs) => if rs == [] then WAIT_ARG else WAIT_MORE
    case BuiltIn(name, args) => if TakesArgument(name) && args == [] then WAIT_ONE_ARG else NO_MORE
  }

  function FilesOf(s: Stage): (n: nat) {
    if s.Command? then |s.redirects| else 0
  }

  function Staged(c: Config, s: Stage): (d: Config) {
    Config(EndState(s), c.recursive, c.fileQuota + FilesOf(s), c.types + KindsOfStage(s))
  }

  lemma RunName(c: Config, name: string)
    requires c.state == WAIT_CMD && Legal(name) && !IsBuiltIn(name)
    ensures RunFrom(c, [name]) == Some(c.Next(WAIT_ARG, CommandName))
  {
    RunOne(c, name);
    hide Legal;
  }

  lemma CommandKinds(types: seq<Kind>, s: Stage)
    requires s.Command?
    ensures types + [CommandName] + Arguments(|s.args|) + KindsOfRedirects(s.redirects) == types + KindsOfStage(s)
  {
    hide KindsOfRedirects, Arguments;
  }

  lemma RunCommand(c: Config, s: Stage)
    requires c.state == WAIT_CMD && s.Command? && LegalStage(s) && FirstRedirects(s.redirects)
    requires s.redirects != [] ==>
               c.fileQuota <= 1 && (c.recursive == 0 || forall k :: 0 <= k < |s.redirects| ==> s.redirects[k].Out?)
    ensures RunFrom(c, RenderStage(s)) == Some(Staged(c, s))
  {
    hide RunFrom, LegalAll, LegalFiles, Legal, IsBuiltIn, FirstRedirects, KindsOfRedirects, RenderRedirects;
    var named := c.Next(WAIT_ARG, CommandName);
    var worded := Worded(named, |s.args|);
    RunName(c, s.name);
    RunWords(named, s.args);
    RunRedirects(worded, s.redirects);
    RunAppend(c, [s.name], s.args);
    RunAppend(c, [s.name] + s.args, RenderRedirects(s.redirects));
    assert RenderStage(s) == [s.name] + s.args + RenderRedirects(s.redirects);
    CommandKinds(c.types, s);
    assert Redirected(worded, s.redirects) == Staged(c, s);
  }

  lemma RunBuiltIn(c: Config, s: Stage)
    requires c.state == WAIT_CMD && s.BuiltIn? && LegalStage(s)
    ensures RunFrom(c, RenderStage(s)) == Some(Staged(c, s))
  {
    RunOne(c, s.name);
    var d := Step(c, s.name).value;
    assert d == c.Next(if TakesArgument(s.name) then WAIT_ONE_ARG else NO_MORE, BuiltInCommand);
    if s.args == [] {
      assert [s.name] + s.args == [s.name];
      assert c.types + [BuiltInCommand] == c.types + KindsOfStage(s);
    } else {
      assert s.args == [s.args[0]];
      RunAppend(c, [s.name], [s.args[0]]);
      RunOne(d, s.args[0]);
      assert c.types + [BuiltInCommand] + [Argument] == c.types + KindsOfStage(s);
    }
  }

  /** The configuration after the stages of a line. */
  function AfterStages(line: seq<Stage>): (c: Config)
    requires line != []
  {
    Config(EndState(line[|line| - 1]), |line| - 1, Files(line), KindsOf(line))
  }

  lemma KindsSnoc(before: seq<Stage>, s: Stage)
    ensures KindsOf(before + [s]) ==
              if before == [] then KindsOfStage(s) else KindsOf(before) + [Pipe] + KindsOfStage(s)
  {
    hide KindsOfStage;
    var line := before + [s];
    assert line[|line| - 1] == s && line[..|line| - 1] == before;
  }

  lemma RunPipe(c: Config)
    requires c.state == WAIT_ARG || (c.state == WAIT_MORE && c.recursive == 0 && c.After(InputFilename))
    ensures RunFrom(c, ["|"]) == Some(c.Next(WAIT_CMD, Pipe).(recursive := c.recursive + 1))
  {
    RunOne(c, "|");
  }

  lemma PipedLast(before: seq<Stage>, s: Stage)
    requires s.Command? && s.redirects != [] && s.redirects[|s.redirects| - 1].In?
    ensures KindsOf(before + [s]) != []
    ensures KindsOf(before + [s])[|KindsOf(before + [s])| - 1] == InputFilename
  {
    KindsSnoc(before, s);
    LastKind(s.redirects);
    hide KindsOf, KindsOfRedirects;
  }

  /** The pipe after a stage that may be piped. */
  lemma RunPipeAfter(before: seq<Stage>)
    requires before != [] && PipedStage(before[|before| - 1], |before| == 1)
    ensures var c := AfterStages(before);
            RunFrom(c, ["|"]) == Some(Config(WAIT_CMD, |before|, Files(before), KindsOf(before) + [Pipe]))
  {
    var last := before[|before| - 1];
    if last.redirects != [] {
      assert before == before[..|before| - 1] + [last];
      PipedLast(before[..|before| - 1], last);
    }
    hide RunFrom, KindsOf, Files;
    RunPipe(AfterStages(before));
  }

  lemma FirstConfig(s: Stage)
    ensures Staged(START, s) == AfterStages([s]) && Render([s]) == RenderStage(s)
  {
    hide RenderStage, KindsOfStage;
    assert [s][..0] == [];
    assert [] + KindsOfStage(s) == KindsOfStage(s);
    assert Files([s]) == Files([]) + FilesOf(s);
  }

  lemma RunFirstStage(s: Stage)
    requires LegalStage(s) && LastStage(s, true)
    ensures RunFrom(START, Render([s])) == Some(AfterStages([s]))
  {
    hide RunFrom, LegalStage, Render, RenderStage, AfterStages, Staged, FirstRedirects;
    FirstConfig(s);
    if s.Command? {
      RunCommand(START, s);
    } else {
      RunBuiltIn(START, s);
    }
  }

  /** One more stage after a pipe. */
  lemma {:induction false} RunNextStage(before: seq<Stage>, s: Stage)
    requires before != [] && RunFrom(START, Render(before)) == Some(AfterStages(before))
    requires PipedStage(before[|before| - 1], |before| == 1)
    requires LegalStage(s) && LastStage(s, false)
    requires s.Command? && s.redirects != [] ==> Files(before) <= 1
    ensures RunFrom(START, Render(before + [s])) == Some(AfterStages(before + [s]))
  {
    hide RunFrom, LegalStage, Render, RenderStage, KindsOf, KindsOfStage, Files;
    RenderSnoc(before, s);
    KindsSnoc(before, s);
    RunPipeAfter(before);
    hide PipedStage;
    RunAppend(START, Render(before), ["|"]);
    var d := Config(WAIT_CMD, |before|, Files(before), KindsOf(before) + [Pipe]);
    RunAppend(START, Render(before) + ["|"], RenderStage(s));
    if s.Command? {
      RunCommand(d, s);
    } else {
      RunBuiltIn(d, s);
    }
  }

  lemma {:induction false} FilesGrow(line: seq<Stage>, n: nat)
    requires n <= |line|
    ensures Files(line[..n]) <= Files(line)
    ensures n < |line| && line[|line| - 1].Command? ==> Files(line[..n]) + |line[|line| - 1].redirects| <= Files(line)
    decreases |line|
  {
    if n < |line| {
      FilesGrow(line[..|line| - 1], n);
      assert line[..|line| - 1][..n] == line[..n];
    } else {
      assert line[..n] == line;
    }
  }

  /** What the grammar says of the stage at `n - 1` and the one before it. */
  lemma StageFacts(line: seq<Stage>, n: nat)
    requires WellFormed(line) && 1 <= n <= |line|
    ensures LegalStage(line[n - 1]) && LastStage(line[n - 1], n == 1)
    ensures n > 1 ==> PipedStage(line[n - 2], n == 2)
    ensures line[n - 1].Command? && line[n - 1].redirects != [] ==> Files(line[..n - 1]) <= 1
  {
    assert line[..n][..n - 1] == line[..n - 1];
    FilesGrow(line[..n], n - 1);
    FilesGrow(line, n);
    hide LegalStage, Files, FirstRedirects;
    if n < |line| {
      assert PipedStage(line[n - 1], n == 1);
    }
  }

  lemma {:induction false} RunPrefix(line: seq<Stage>, n: nat)
    requires WellFormed(line) && 1 <= n <= |line|
    ensures RunFrom(START, Render(line[..n])) == Some(AfterStages(line[..n]))
    decreases n
  {
    hide *;
    var before, s := line[..n - 1], line[n - 1];
    assert line[..n] == before + [s];
    StageFacts(line, n);
    if n == 1 {
      assert before + [s] == [s];
      RunFirstStage(s);
    } else {
      RunPrefix(line, n - 1);
      assert before[|before| - 1] == line[n - 2];
      RunNextStage(before, s);
    }
  }

  /** Every line of the grammar is accepted, with the types that the grammar gives its tokens. */
  lemma LineIsAccepted(line: seq<Stage>)
    requires WellFormed(line)
    ensures Accepts(Render(line)) && RunFrom(START, Render(line)).value.types == KindsOf(line)
  {
    hide RunFrom, Render, KindsOf, KindsOfStage, LegalStage, Files, PipedStage;
    RunPrefix(line, |line|);
    assert line[..|line|] == line;
  }

  /** The checker accepts exactly the lines of the grammar. */
  lemma AcceptsIsGrammar(tokens: seq<string>)
    ensures Accepts(tokens) <==> exists line :: WellFormed(line) && Render(line) == tokens
  {
    if Accepts(tokens) {
      var line := AcceptedParses(tokens);
    }
    if line :| WellFormed(line) && Render(line) == tokens {
      LineIsAccepted(line);
    }
  }
}

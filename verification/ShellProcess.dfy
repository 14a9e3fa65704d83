/** The shell itself: checking a line over the global type table, splitting it, wiring its processes. */
module ShellProcess {
  import opened ShellSyntax
  import opened ShellAcceptance
  import opened ShellSplit
  import opened Wrappers

  /** What a standard stream of a process is connected to. */
  datatype Port =
    | Inherited
    | FromFile(name: string)
    | ToFile(name: string, append: bool)
    | PipeRead(pipe: nat)
    | PipeWrite(pipe: nat)

  /**
     The streams of a process when it starts, the output file it has opened before (created if
     missing, and truncated unless appended to, even when a pipe then takes its place), and the
     arguments that execvp finds.
     */
  datatype Wiring = Wiring(input: Port, output: Port, touched: Port, args: Option<seq<string>>)

  /** The wiring of stage `i` of `n`: pipes between neighbours, files or the terminal at the ends. */
  function ExpectedWiring(command: seq<seq<Cell>>, files: seq<Files>, append: bool, i: nat): (w: Wiring)
    requires i < |files| == |command|
  {
    Wiring(if i > 0 then PipeRead(i - 1)
           else if files[0].input.Some? then FromFile(files[0].input.value) else Inherited,
           if i < |files| - 1 then PipeWrite(i)
           else OutputPort(files[i], append),
           OutputPort(files[i], append),
           ReadArguments(command[i]))
  }

  function OutputPort(files: Files, append: bool): (p: Port) {
    if files.output.Some? then ToFile(files.output.value, append) else Inherited
  }

  class Shell {
    const types: array<Kind>    // recorded for earlier lines too, until overwritten
    var builtInDetect: bool

    constructor (size: nat)
      ensures fresh(types) && types.Length == size
    {
      types := new Kind[size](_ => Argument);
      builtInDetect := false;
    }

    /** checkIllegal: scans for the first reserved character. */
    static method CheckIllegal(token: string) returns (legal: bool)
      ensures legal <==> forall k :: 0 <= k < |token| ==> token[k] !in "><|*!'\""
      ensures legal <==> Legal(token)
    {
      var i := 0;
      while i < |token| && !IsIllegal(token[i])
        invariant 0 <= i <= |token|
        invariant forall k :: 0 <= k < i ==> !IsIllegal(token[k])
      {
        i := i + 1;
      }
      legal := i == |token|;
      LegalIsUnreserved(token);
    }

    /** One turn of the checker's loop. */
    method CheckToken(i: nat, token: string, state: State, recursive: nat, fileQuota: nat)
      returns (ok: bool, state': State, recursive': nat, fileQuota': nat)
      requires i < types.Length && (state == WAIT_MORE ==> i > 0)
      modifies types, this`builtInDetect
      ensures types[..i] == old(types[..i]) && types[i + 1..] == old(types[i + 1..])
      ensures var r := Step(Config(state, recursive, fileQuota, old(types[..i])), token);
              && (ok <==> r.Some?)
              && (ok ==> r.value == Config(state', recursive', fileQuota', types[..i + 1]))
      ensures builtInDetect <==> old(builtInDetect) || (ok && types[i] == BuiltInCommand)
      ensures state' == WAIT_MORE ==> ok || i > 0
    {
      var legal := CheckIllegal(token);
      hide Legal;
      ok, state', recursive', fileQuota' := true, state, recursive, fileQuota;
      var k := Argument;
      match state {
        case WAIT_CMD =>
          if !legal {
            ok := false;
          } else if IsBuiltIn(token) {
            if TakesArgument(token) {
              state' := WAIT_ONE_ARG;
            } else {
              state' := NO_MORE;
            }
            builtInDetect := true;
            k := BuiltInCommand;
          } else {
            state', k := WAIT_ARG, CommandName;
          }
        case WAIT_ARG =>
          if token == "|" {
            state', k, recursive' := WAIT_CMD, Pipe, recursive + 1;
          } else if token == "<" {
            state', k := WAIT_IN_FILE, RedirectInput;
          } else if IsOutput(token) {
            state', k := WAIT_OUT_FILE, RedirectOutput;
          } else if !legal {
            ok := false;
          }
        case WAIT_ONE_ARG =>
          if !legal {
            ok := false;
          } else {
            state' := NO_MORE;
          }
        case WAIT_IN_FILE =>
          if recursive == 0 {
            if !legal {
              ok := false;
            } else {
              state', k, fileQuota' := WAIT_MORE, InputFilename, fileQuota + 1;
            }
          } else {
            ok := false;
          }
        case WAIT_OUT_FILE =>
          if !legal {
            ok := false;
          } else {
            state', k, fileQuota' := WAIT_MORE, OutputFilename, fileQuota + 1;
          }
        case WAIT_MORE =>
          if token == "<" && types[i - 1] == OutputFilename && fileQuota <= 2 {
            state', k := WAIT_IN_FILE, RedirectInput;
          } else if IsOutput(token) && types[i - 1] == InputFilename && fileQuota <= 2 {
            state', k := WAIT_OUT_FILE, RedirectOutput;
          } else if recursive == 0 {
            if token == "|" && types[i - 1] == InputFilename {
              state', k, recursive' := WAIT_CMD, Pipe, recursive + 1;
            } else {
              ok := false;
            }
          } else {
            ok := false;
          }
        case NO_MORE =>
          ok := false;
      }
      if ok {
        types[i] := k;
      }
      assert types[..i + 1] == types[..i] + [types[i]];
    }

    /** checkSyntax: after an error the loop runs on, but the error stays. */
    method CheckSyntax(tokens: seq<string>) returns (error: bool)
      requires |tokens| <= types.Length
      modifies types, this`builtInDetect
      ensures !error <==> Accepts(tokens)
      ensures !error ==> types[..|tokens|] == RunFrom(START, tokens).value.types
      ensures types[|tokens|..] == old(types[|tokens|..])
      ensures !error ==> (builtInDetect <==> BuiltInCommand in types[..|tokens|])
    {
      error, builtInDetect := false, false;
      var state, recursive, fileQuota := WAIT_CMD, 0, 0;
      var i := 0;
      while i < |tokens|
        invariant 0 <= i <= |tokens|
        invariant RunFrom(START, tokens[..i]) ==
                if error then None else Some(Config(state, recursive, fileQuota, types[..i]))
        invariant state == WAIT_MORE ==> i > 0
        invariant types[i..] == old(types[i..])
        invariant !error ==> (builtInDetect <==> BuiltInCommand in types[..i])
      {
        assert tokens[..i + 1][..i] == tokens[..i];
        hide Step;
        var ok;
        ok, state, recursive, fileQuota := CheckToken(i, tokens[i], state, recursive, fileQuota);
        if !ok {
          error := true;
        }
        assert types[..i + 1] == types[..i] + [types[i]];
        i := i + 1;
      }
      assert tokens[..|tokens|] == tokens;
      if state == WAIT_IN_FILE || state == WAIT_OUT_FILE || state == WAIT_CMD || recursive > 2 || fileQuota >= 3 {
        error := true;
      }
    }

    /** The rows hold the words split so far; `k` is the next free cell of the last row. */
    static ghost predicate Holds(p: Splitting, command: seq<seq<Cell>>, k: nat, width: nat) {
      && p.Open() && |command| == |p.commands| && k == |p.Command()|
      && forall r :: 0 <= r < |command| ==>
           |p.commands[r]| <= width && command[r] == Row(p.commands[r], r == 0, r < |command| - 1, width)
    }

    /** One turn of the splitting loop: `previous` is read only where an output filename ends a redirection. */
    static method SplitToken(command: seq<seq<Cell>>, files: seq<Files>, outMode: bool, noCMD: nat, k: nat,
                             previous: string, token: string, kind: Kind, width: nat, ghost p: Splitting)
      returns (command': seq<seq<Cell>>, files': seq<Files>, outMode': bool, noCMD': nat, k': nat)
      requires Holds(p, command, k, width) && p.files == files && p.outMode == outMode
      requires |command| == noCMD + 1 && k < width
      requires kind == OutputFilename ==> p.previous == previous
      ensures var q := SplitStep(p, token, kind);
              && Holds(q, command', k', width) && q.files == files' && q.outMode == outMode'
              && |command'| == |files'| == |q.commands| == noCMD' + 1 && k' <= k + 1
    {
      command', files', outMode', noCMD', k' := command, files, outMode, noCMD, k;
      if kind == CommandName || kind == Argument {
        command' := command[noCMD := command[noCMD][k := Word(token)]];
        k' := k + 1;
      } else if kind == Pipe {
        command' := command[noCMD := command[noCMD][k := Null]] + [seq(width, _ => Null)];
        files' := files + [NOFILES];
        noCMD', k' := noCMD + 1, 0;
      } else if kind == InputFilename {
        files' := files[noCMD := files[noCMD].(input := Some(token))];
      } else if kind == OutputFilename {
        if previous == ">" {
          outMode' := false;
        } else if previous == ">>" {
          outMode' := true;
        }
        files' := files[noCMD := files[noCMD].(output := Some(token))];
      }
    }

    /** The rows when the loop has ended; an overrun writes behind the row of the last command. */
    static ghost predicate Finished(commands: seq<seq<string>>, command: seq<seq<Cell>>, overrun: bool, width: nat) {
      && |command| == |commands| > 0
      && (forall r :: 0 <= r < |command| ==> |commands[r]| <= width && command[r] == FinalRow(commands, r, width))
      && (overrun <==> |commands[|commands| - 1]| + 1 >= width)
    }

    /** After the last token a NULL is put one cell behind the next free one. */
    static method Terminate(command: seq<seq<Cell>>, noCMD: nat, k: nat, width: nat, ghost p: Splitting)
      returns (command': seq<seq<Cell>>, overrun: bool)
      requires Holds(p, command, k, width) && |command| == noCMD + 1
      ensures Finished(p.commands, command', overrun, width) && |command'| == |command|
    {
      command', overrun := command, k + 1 >= width;
      if !overrun {
        command' := command[noCMD := command[noCMD][k + 1 := Null]];
      }
    }

    /** The row of the first command is fresh memory. */
    static lemma FreshRow(width: nat)
      ensures Holds(FIRST, [seq(width, _ => Unset)], 0, width)
    {
      assert seq(width, _ => Unset) == Row([], true, false, width);
    }

    /** The splitting loop of cmdExe, for tokens whose types are recorded; a row has as many cells as the type table. */
    method SplitLine(tokens: seq<string>)
      returns (command: seq<seq<Cell>>, files: seq<Files>, outMode: bool, noCMD: nat, overrun: bool)
      requires 0 < |tokens| <= types.Length
      requires forall k :: 0 <= k < |tokens| && types[k] == OutputFilename ==> k > 0
      ensures |command| == |files| == noCMD + 1
      ensures var p := SplitAll(FIRST, Zip(tokens, types[..|tokens|]));
              && Finished(p.commands, command, overrun, types.Length) && files == p.files && outMode == p.outMode
    {
      var width := types.Length;
      command, files, outMode, noCMD, overrun := [seq(width, _ => Unset)], [NOFILES], false, 0, false;
      var i: nat, k: nat := 0, 0;
      ghost var kinds, p := types[..|tokens|], FIRST;
      NoTokenYet(tokens, kinds);
      FreshRow(width);
      hide SplitAll, Zip, SplitStep, Holds, Finished;
      while i < |tokens|
        invariant 0 <= i <= |tokens| && |command| == |files| == noCMD + 1
        invariant p == SplitAll(FIRST, Zip(tokens[..i], kinds[..i])) && p.files == files && p.outMode == outMode
        invariant i > 0 ==> p.previous == tokens[i - 1]
        invariant i < |tokens| ==> k <= i && Holds(p, command, k, width)
        invariant i == |tokens| ==> Finished(p.commands, command, overrun, width)
      {
        OneMoreToken(tokens, kinds, i);
        assert types[i] == kinds[i];
        ghost var q := SplitStep(p, tokens[i], kinds[i]);
        var previous := if i > 0 then tokens[i - 1] else "";
        command, files, outMode, noCMD, k :=
          SplitToken(command, files, outMode, noCMD, k, previous, tokens[i], types[i], width, p);
        p := q;
        StepRemembers(p, tokens[i], kinds[i]);
        if i + 1 == |tokens| {
          command, overrun := Terminate(command, noCMD, k, width, p);
        }
        i := i + 1;
      }
      assert tokens[..|tokens|] == tokens && kinds[..|tokens|] == kinds;
    }

    static lemma NoTokenYet(tokens: seq<string>, kinds: seq<Kind>)
      ensures SplitAll(FIRST, Zip(tokens[..0], kinds[..0])) == FIRST
    {
    }

    static lemma OneMoreToken(tokens: seq<string>, kinds: seq<Kind>, i: nat)
      requires i < |tokens| == |kinds|
      ensures SplitAll(FIRST, Zip(tokens[..i + 1], kinds[..i + 1]))
           == SplitStep(SplitAll(FIRST, Zip(tokens[..i], kinds[..i])), tokens[i], kinds[i])
    {
      var tagged := Zip(tokens[..i + 1], kinds[..i + 1]);
      assert tagged[..i] == Zip(tokens[..i], kinds[..i]);
      hide SplitStep;
    }

    /** The redirections and duplications of one child, in the order of the system calls. */
    static method ProcessCreation(args: seq<Cell>, files: Files, outMode: bool, front: nat, back: nat, ioPort: int)
      returns (w: Wiring)
      ensures w.input ==
                if ioPort == 2 then PipeRead(front)
                else if ioPort == 3 then PipeRead(back)
                else if files.input.Some? then FromFile(files.input.value) else Inherited
      ensures w.output ==
                if ioPort == 1 then PipeWrite(front)
                else if ioPort == 2 then PipeWrite(back)
                else if files.output.Some? then ToFile(files.output.value, outMode) else Inherited
      ensures w.touched == if files.output.Some? then ToFile(files.output.value, outMode) else Inherited
      ensures w.args == ReadArguments(args)
    {
      w := Wiring(Inherited, Inherited, Inherited, None);
      if files.input.Some? {
        w := w.(input := FromFile(files.input.value));
      }
      if files.output.Some? {
        w := w.(touched := ToFile(files.output.value, outMode));
        w := w.(output := w.touched);
      }
      match ioPort {
        case 1 => w := w.(output := PipeWrite(front));
        case 2 => w := w.(input := PipeRead(front)).(output := PipeWrite(back));
        case 3 => w := w.(input := PipeRead(back));
        case _ =>
      }
      w := w.(args := ReadArguments(args));
    }

    /** The wiring loop of cmdExe. */
    static method Launch(command: seq<seq<Cell>>, files: seq<Files>, outMode: bool, noCMD: nat)
      returns (wires: seq<Wiring>)
      requires |command| == |files| == noCMD + 1
      ensures |wires| == |files|
      ensures forall i :: 0 <= i < |files| ==> wires[i] == ExpectedWiring(command, files, outMode, i)
    {
      wires := [];
      if noCMD > 0 {
        for i := 0 to noCMD + 1
          invariant |wires| == i
          invariant forall j :: 0 <= j < i ==> wires[j] == ExpectedWiring(command, files, outMode, j)
        {
          var w;
          if i == 0 {
            w := ProcessCreation(command[0], files[0], outMode, 0, 0, 1);
          } else if i == noCMD {
            w := ProcessCreation(command[noCMD], files[noCMD], outMode, 0, noCMD - 1, 3);
          } else {
            w := ProcessCreation(command[i], files[i], outMode, i - 1, i, 2);
          }
          wires := wires + [w];
        }
      } else {
        var w := ProcessCreation(command[0], files[0], outMode, 0, 0, 0);
        wires := [w];
      }
    }

    /**
     What a parse of the line says about its execution: the rows, the wiring of each process, and
     its arguments, which are the stage's own words if and only if the line has a pipe.
     */
    static ghost predicate ExecutesAs(line: seq<Stage>, command: seq<seq<Cell>>, overrun: bool, wires: seq<Wiring>,
                                      width: nat)
      requires Plain(line)
    {
      && Finished(CommandsOf(line), command, overrun, width) && |wires| == |line|
      && (forall i :: 0 <= i < |line| ==> wires[i] == ExpectedWiring(command, FilesOfLine(line), ModeOfLine(line), i))
      && (forall i :: 0 <= i < |line| ==>
            wires[i].args == if |line| >= 2 then Some(CommandsOf(line)[i]) else None)
    }

    /** After a successful check of a line without built-in commands: it is split and wired as its parse says. */
    method CmdExe(tokens: seq<string>) returns (command: seq<seq<Cell>>, overrun: bool, wires: seq<Wiring>)
      requires |tokens| <= types.Length && Accepts(tokens)
      requires types[..|tokens|] == RunFrom(START, tokens).value.types && BuiltInCommand !in types[..|tokens|]
      ensures exists line ::
                && WellFormed(line) && Plain(line) && Render(line) == tokens
                && ExecutesAs(line, command, overrun, wires, types.Length)
      ensures forall line :: WellFormed(line) && Render(line) == tokens ==>
                Plain(line) && ExecutesAs(line, command, overrun, wires, types.Length)
    {
      ghost var kinds := types[..|tokens|];
      ghost var line := AcceptedParses(tokens);
      LineIsAccepted(line);
      hide Accepts, WellFormed, RunFrom, Render, KindsOf, Plain, ExecutesAs, ExpectedWiring, SplitAll, Zip, Finished;
      PlainIfNoBuiltIn(line);
      FirstIsName(line);
      assert types[0] == kinds[0];
      var files, outMode, noCMD;
      command, files, outMode, noCMD, overrun := SplitLine(tokens);
      wires := Launch(command, files, outMode, noCMD);
      ExecutedAs(line, kinds, command, files, outMode, overrun, wires, types.Length);
      forall other | WellFormed(other) && Render(other) == tokens
        ensures Plain(other) && ExecutesAs(other, command, overrun, wires, types.Length)
      {
        SameExecution(line, other, kinds, command, overrun, wires, types.Length);
      }
    }

    static lemma StepRemembers(p: Splitting, token: string, kind: Kind)
      requires p.Open()
      ensures SplitStep(p, token, kind).previous == token
    {
    }

    static lemma {:induction false} PlainIfNoBuiltIn(line: seq<Stage>)
      requires BuiltInCommand !in KindsOf(line)
      ensures Plain(line)
      decreases |line|
    {
      if line == [] {
        assert Plain([]);
      } else {
        var front, s := line[..|line| - 1], line[|line| - 1];
        assert line == front + [s];
        hide *;
        KindsContain(front, s);
        BuiltInShows(s);
        PlainIfNoBuiltIn(front);
        PlainMore(front, s);
      }
    }

    static lemma PlainMore(front: seq<Stage>, s: Stage)
      requires Plain(front) && !s.BuiltIn?
      ensures Plain(front + [s])
    {
    }

    static lemma KindsContain(front: seq<Stage>, s: Stage)
      ensures BuiltInCommand in KindsOf(front) || BuiltInCommand in KindsOfStage(s) ==>
                BuiltInCommand in KindsOf(front + [s])
    {
      KindsSnoc(front, s);
      if front == [] {
        assert KindsOf(front) == [];
      }
      hide KindsOf, KindsOfStage;
    }

    static lemma BuiltInShows(s: Stage)
      ensures s.BuiltIn? ==> BuiltInCommand in KindsOfStage(s)
    {
      if s.BuiltIn? {
        assert KindsOfStage(s)[0] == BuiltInCommand;
      }
    }

    static lemma ExecutedAs(line: seq<Stage>, kinds: seq<Kind>, command: seq<seq<Cell>>, files: seq<Files>,
                            outMode: bool, overrun: bool, wires: seq<Wiring>, width: nat)
      requires line != [] && Plain(line) && kinds == KindsOf(line) && |Render(line)| == |kinds| <= width
      requires var p := SplitAll(FIRST, Zip(Render(line), kinds));
               Finished(p.commands, command, overrun, width) && files == p.files && outMode == p.outMode
      requires |wires| == |command| == |files|
      requires forall i :: 0 <= i < |files| ==> wires[i] == ExpectedWiring(command, files, outMode, i)
      ensures ExecutesAs(line, command, overrun, wires, width)
    {
      ZipLine(line);
      SplitRecovers(line);
      hide Zip, Render, KindsOf, SplitAll, ModeOfLine, ReadArguments, FinalRow;
      forall i | 0 <= i < |line| ensures wires[i].args == if |line| >= 2 then Some(CommandsOf(line)[i]) else None {
        StageFits(line, i);
        ArgumentsReadIff(CommandsOf(line), i, width);
      }
    }

    static lemma SameExecution(line: seq<Stage>, other: seq<Stage>, kinds: seq<Kind>, command: seq<seq<Cell>>,
                               overrun: bool, wires: seq<Wiring>, width: nat)
      requires WellFormed(line) && WellFormed(other) && Render(line) == Render(other)
      requires kinds == KindsOf(line) && BuiltInCommand !in kinds
      requires Plain(line) && ExecutesAs(line, command, overrun, wires, width)
      ensures Plain(other) && ExecutesAs(other, command, overrun, wires, width)
    {
      LineIsAccepted(line);
      LineIsAccepted(other);
      hide WellFormed, Render, RunFrom, Accepts, KindsOf, ExpectedWiring, ModeOfLine, Finished;
      PlainIfNoBuiltIn(other);
      ParseIsUnique(line, other);
      assert |CommandsOf(line)| == |line| && |CommandsOf(other)| == |other|;
    }

    static lemma {:induction false} FirstIsName(line: seq<Stage>)
      requires line != [] && Plain(line)
      ensures KindsOf(line) != [] && KindsOf(line)[0] == CommandName
      decreases |line|
    {
      if |line| > 1 {
        FirstIsName(line[..|line| - 1]);
      }
    }
  }

  /** Process `i` writes a pipe that process `j` reads. */
  ghost predicate Feeds(wires: seq<Wiring>, i: nat, j: nat)
    requires i < |wires| && j < |wires|
  {
    exists k :: wires[i].output == PipeWrite(k) && wires[j].input == PipeRead(k)
  }

  /** The processes of a line form one chain: each feeds the next one and no other. */
  lemma StagesFormChain(line: seq<Stage>, command: seq<seq<Cell>>, overrun: bool, wires: seq<Wiring>, width: nat,
                        i: nat, j: nat)
    requires Plain(line) && Shell.ExecutesAs(line, command, overrun, wires, width) && i < |wires| && j < |wires|
    ensures Feeds(wires, i, j) <==> j == i + 1
    ensures wires[i].output.PipeWrite? <==> i + 1 < |wires|
    ensures wires[i].input.PipeRead? <==> i > 0
  {
    if j == i + 1 {
      assert wires[i].output == PipeWrite(i) && wires[j].input == PipeRead(i);
    }
  }

  /**
     The ends of a checked line follow its redirections: the first process reads the input file, the
     last one writes the output file, and without them both have the shell's own streams.
     */
  lemma EndsFollowRedirects(line: seq<Stage>, command: seq<seq<Cell>>, overrun: bool, wires: seq<Wiring>, width: nat,
                            file: string, append: bool)
    requires WellFormed(line) && Plain(line) && Shell.ExecutesAs(line, command, overrun, wires, width)
    ensures |wires| == |line|
    ensures In(file) in line[0].redirects ==> wires[0].input == FromFile(file)
    ensures (forall f :: In(f) !in line[0].redirects) ==> wires[0].input == Inherited
    ensures var last := |line| - 1;
            && (Out(append, file) in line[last].redirects ==> wires[last].output == ToFile(file, append))
            && ((forall a, f :: Out(a, f) !in line[last].redirects) ==> wires[last].output == Inherited)
  {
    var last := |line| - 1;
    assert FirstRedirects(line[0].redirects) by {
      if last > 0 {
        assert PipedStage(line[0], true);
      }
    }
    assert FirstRedirects(line[last].redirects) && line[last].Command?;
    hide WellFormed, InputOf, OutputOf, ModeOf, Shell.Finished, FirstRedirects, ReadArguments;
    FewRedirects(line[0].redirects, file, append, false);
    FewRedirects(line[last].redirects, file, append, ModeOfLine(line[..last]));
  }

  lemma FewRedirects(rs: seq<Redirect>, file: string, append: bool, before: bool)
    requires FirstRedirects(rs)
    ensures In(file) in rs ==> InputOf(rs) == Some(file)
    ensures (forall f :: In(f) !in rs) ==> InputOf(rs) == None
    ensures Out(append, file) in rs ==> OutputOf(rs) == Some(file) && ModeOf(rs, before) == append
    ensures (forall a, f :: Out(a, f) !in rs) ==> OutputOf(rs) == None
  {
    if |rs| == 1 {
      assert rs[..0] == [] && rs == [rs[0]];
      assert rs[0] in rs;
    } else if |rs| == 2 {
      assert rs[..1][..0] == [] && rs == [rs[0], rs[1]];
      assert rs[0] in rs && rs[1] in rs;
    }
  }

  /** The line `ls`: its argument vector is "ls", a cell never written, and a NULL behind that. */
  lemma LsHasNoTerminator()
    ensures var line := [Command("ls", [], [])];
            && WellFormed(line) && Plain(line) && Render(line) == ["ls"] && Accepts(Render(line))
            && FinalRow(CommandsOf(line), 0, 10)[..3] == [Word("ls"), Unset, Null]
            && ReadArguments(FinalRow(CommandsOf(line), 0, 10)) == None
  {
    var line := [Command("ls", [], [])];
    assert Legal("ls") && RenderRedirects([]) == [];
    assert WellFormed(line);
    LineIsAccepted(line);
    ArgumentsReadIff(CommandsOf(line), 0, 10);
  }

  /** Two parses of the same tokens agree on commands and files. */
  lemma ParseIsUnique(a: seq<Stage>, b: seq<Stage>)
    requires WellFormed(a) && WellFormed(b) && Plain(a) && Plain(b) && Render(a) == Render(b)
    ensures CommandsOf(a) == CommandsOf(b) && FilesOfLine(a) == FilesOfLine(b) && ModeOfLine(a) == ModeOfLine(b)
  {
    LineIsAccepted(a);
    LineIsAccepted(b);
    ZipLine(a);
    ZipLine(b);
    SplitRecovers(a);
    SplitRecovers(b);
  }
}

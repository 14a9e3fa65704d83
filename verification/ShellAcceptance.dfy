/** What acceptance means for the characters, the names and the operators of a line, said without the grammar. */
module ShellAcceptance {
  import opened ShellSyntax

  predicate HasReserved(token: string) {
    exists k :: 0 <= k < |token| && token[k] in "><|*!'\""
  }

  function Count(tokens: seq<string>, token: string): (n: nat) {
    if tokens == [] then 0
    else Count(tokens[..|tokens| - 1], token) + if tokens[|tokens| - 1] == token then 1 else 0
  }

  lemma ReservedCharacters(c: char)
    ensures IsIllegal(c) <==> c in "><|*!'\""
  {
  }

  lemma LegalIsUnreserved(token: string)
    ensures Legal(token) <==> !HasReserved(token)
  {
    hide IsIllegal;
    forall k | 0 <= k < |token| ensures IsIllegal(token[k]) <==> token[k] in "><|*!'\"" {
      ReservedCharacters(token[k]);
    }
  }

  lemma {:induction false} RunOfPrefix(tokens: seq<string>, i: nat)
    requires i <= |tokens| && RunFrom(START, tokens).Some?
    ensures RunFrom(START, tokens[..i]).Some?
    decreases |tokens|
  {
    if i == |tokens| {
      assert tokens[..i] == tokens;
    } else {
      var front := tokens[..|tokens| - 1];
      RunOfPrefix(front, i);
      assert front[..i] == tokens[..i];
    }
  }

  /** In an accepted line a reserved character stands only in an operator. */
  lemma AcceptedIsUnreserved(tokens: seq<string>, i: nat)
    requires Accepts(tokens) && i < |tokens| && HasReserved(tokens[i])
    ensures tokens[i] == "<" || tokens[i] == ">" || tokens[i] == ">>" || tokens[i] == "|"
  {
    RunOfPrefix(tokens, i + 1);
    assert tokens[..i + 1][..i] == tokens[..i];
    LegalIsUnreserved(tokens[i]);
    hide Legal, HasReserved;
  }

  lemma RunMore(tokens: seq<string>, token: string)
    requires RunFrom(START, tokens).Some?
    ensures RunFrom(START, tokens + [token]) == Step(RunFrom(START, tokens).value, token)
  {
    assert (tokens + [token])[..|tokens|] == tokens;
  }

  lemma RunFirst(name: string)
    ensures RunFrom(START, [name]) == Step(START, name)
  {
    assert [name][..0] == [];
  }

  lemma UnreservedWord(word: string)
    requires !HasReserved(word)
    ensures Legal(word) && word != "|" && word != "<" && word != ">" && word != ">>"
  {
    LegalIsUnreserved(word);
    Operators(word);
  }

  /** A name that is not one of the four built-in ones, and an argument. */
  lemma CommandIsAccepted(name: string, argument: string)
    requires !HasReserved(name) && !HasReserved(argument)
    requires name != "cd" && name != "exit" && name != "fg" && name != "jobs"
    ensures Accepts([name]) && RunFrom(START, [name]).value.types == [CommandName]
    ensures Accepts([name, argument]) && RunFrom(START, [name, argument]).value.types == [CommandName, Argument]
  {
    UnreservedWord(name);
    UnreservedWord(argument);
    hide Legal, HasReserved;
    RunFirst(name);
    RunMore([name], argument);
    assert [name] + [argument] == [name, argument];
  }

  /** The built-in names: cd and fg take at most one argument, exit and jobs none. */
  lemma BuiltInIsAccepted(name: string, argument: string, more: string)
    requires name == "cd" || name == "exit" || name == "fg" || name == "jobs"
    requires !HasReserved(argument)
    ensures Accepts([name]) && RunFrom(START, [name]).value.types == [BuiltInCommand]
    ensures Accepts([name, argument]) <==> name == "cd" || name == "fg"
    ensures !Accepts([name, argument, more])
  {
    assert !HasReserved(name) by {
      assert forall k :: 0 <= k < |name| ==> name[k] in "cdexitfgjobs";
    }
    UnreservedWord(name);
    UnreservedWord(argument);
    hide Legal, HasReserved;
    RunFirst(name);
    RunMore([name], argument);
    assert [name] + [argument] == [name, argument];
    if RunFrom(START, [name, argument]).Some? {
      RunMore([name, argument], more);
      assert [name, argument] + [more] == [name, argument, more];
    } else {
      assert [name, argument, more][..2] == [name, argument];
    }
  }

  /** The checker's counters are the numbers of pipes and of redirections read. */
  lemma {:induction false} CountersCount(tokens: seq<string>)
    requires RunFrom(START, tokens).Some?
    ensures var c := RunFrom(START, tokens).value;
            && c.recursive == Count(tokens, "|")
            && c.fileQuota + (if c.state == WAIT_IN_FILE || c.state == WAIT_OUT_FILE then 1 else 0)
               == Count(tokens, "<") + Count(tokens, ">") + Count(tokens, ">>")
    decreases |tokens|
  {
    if tokens != [] {
      CountersCount(tokens[..|tokens| - 1]);
      Operators(tokens[|tokens| - 1]);
      hide Legal;
    }
  }

  /** At most three commands and two files. */
  lemma AcceptedCounts(tokens: seq<string>)
    requires Accepts(tokens)
    ensures Count(tokens, "|") <= 2
    ensures Count(tokens, "<") + Count(tokens, ">") + Count(tokens, ">>") <= 2
  {
    CountersCount(tokens);
  }

  /** The longest shape is accepted: three commands, an input behind the first, an output behind the last. */
  lemma LongestShape(a: string, b: string, c: string, input: string, output: string, append: bool)
    requires forall w :: w in [a, b, c] ==> !HasReserved(w) && w != "cd" && w != "exit" && w != "fg" && w != "jobs"
    requires !HasReserved(input) && !HasReserved(output)
    ensures Accepts([a, "<", input, "|", b, "|", c, if append then ">>" else ">", output])
  {
    var line := [Command(a, [], [In(input)]), Command(b, [], []), Command(c, [], [Out(append, output)])];
    assert a in [a, b, c] && b in [a, b, c] && c in [a, b, c];
    UnreservedWord(a);
    UnreservedWord(b);
    UnreservedWord(c);
    UnreservedWord(input);
    UnreservedWord(output);
    hide Legal, HasReserved;
    assert WellFormed(line) by {
      assert line[..2][..1] == line[..1] && line[..1][..0] == [];
      assert Files(line[..1]) == 1 && Files(line[..2]) == 1;
    }
    LineIsAccepted(line);
    RenderLongest(a, b, c, input, output, append);
  }

  lemma RenderLongest(a: string, b: string, c: string, input: string, output: string, append: bool)
    ensures Render([Command(a, [], [In(input)]), Command(b, [], []), Command(c, [], [Out(append, output)])])
            == [a, "<", input, "|", b, "|", c, if append then ">>" else ">", output]
  {
    var first, second, third := Command(a, [], [In(input)]), Command(b, [], []), Command(c, [], [Out(append, output)]);
    var line := [first, second, third];
    assert line[..2] == [first, second] && line[..2][..1] == [first];
    assert RenderRedirects([]) == [] && [In(input)][..0] == [] && [Out(append, output)][..0] == [];
    assert RenderStage(first) == [a, "<", input] && RenderStage(second) == [b];
    assert RenderStage(third) == [c, if append then ">>" else ">", output];
    assert Render([first]) == [a, "<", input];
    assert Render([first, second]) == [a, "<", input] + ["|"] + [b];
    assert Render(line) == [a, "<", input] + ["|"] + [b] + ["|"] + [c, if append then ">>" else ">", output];
  }
}

/** The text of the metadata file, said in plain characters and numbers. */
module MetadataFormat {
  import opened Metadata
  import opened Wrappers

  lemma Characters(c: char)
    ensures IsSpace(c) <==> c in " \t\n\r\U{0C}"
    ensures IsBreak(c) <==> c in "\n\r"
  {
  }

  lemma LongRange(n: int)
    ensures IsLong(n) <==> -9223372036854775808 <= n <= 9223372036854775807
  {
  }

  /** Numbers are written in decimal, with a minus sign in front. */
  lemma DecimalText(n: int, d: nat)
    requires n >= 0 && d < 10
    ensures PrintLong(d) == ["0123456789"[d]]
    ensures n > 0 ==> PrintLong(10 * n + d) == PrintLong(n) + ["0123456789"[d]]
    ensures n > 0 ==> PrintLong(-n) == "-" + PrintLong(n)
  {
    assert (10 * n + d) / 10 == n && (10 * n + d) % 10 == d;
  }

  lemma LineText(checksum: string, size: int, refCount: int, backend: int, path: string, list: seq<string>)
    ensures LineOf(ChunkRow(checksum, size, refCount, backend))
            == "c " + checksum + " " + PrintLong(size) + " " + PrintLong(refCount) + " " + PrintLong(backend)
    ensures LineOf(FileRow(path, list)) == "f " + path + " " + Join(',', list)
  {
    ChunkLine(checksum, PrintLong(size), PrintLong(refCount), PrintLong(backend));
    FileLine(path, Join(',', list));
    hide PrintLong, Join;
  }

  /** The record of a chunk line with these words; None where a number is bad. */
  function ChunkOfWords(words: seq<string>): (row: Option<Row>)
    requires |words| >= 5
  {
    match (ParseLong(words[2]), ParseLong(words[3]), ParseLong(words[4]))
    case (Some(size), Some(count), Some(backend)) => Some(ChunkRow(words[1], size, count, backend))
    case _ => None
  }

  /** What is made of a line, by its words: the first letter decides, and missing words throw. */
  lemma LineOfWords(words: seq<string>)
    requires words != [] && words[0] != "" && forall k :: 0 <= k < |words| ==> IsWord(words[k])
    ensures var row, kind := ParseLine(Join(' ', words)), words[0][0];
            && (kind == 'c' ==> row == if |words| < 5 then None else ChunkOfWords(words))
            && (kind == 'f' && |words| == 1 ==> row == None)
            && (kind == 'f' && |words| == 2 ==> row == Some(FileRow(words[1], [])))
            && (kind == 'f' && |words| >= 3 ==> row == Some(FileRow(words[1], Split(words[2]))))
            && (kind != 'c' && kind != 'f' ==> row == Some(BadRow))
  {
    TokensOfJoin(words);
    assert WithoutEmptyLast(words) == words;
    hide Tokens, Join, Split, ParseLong;
  }

  /** One more line: the first record of a checksum stays, the last list of a path counts. */
  lemma OneMoreLine(lines: seq<string>, line: string, index: Index)
    requires ReadLines(lines) == Some(index)
    ensures match ParseLine(line)
            case None => ReadLines(lines + [line]) == None
            case Some(BadRow) => ReadLines(lines + [line]) == Some(index)
            case Some(ChunkRow(c, size, count, backend)) =>
              ReadLines(lines + [line]) ==
                Some(if c in index.chunks then index
                     else Index(index.chunks[c := (size, count, backend)], index.files))
            case Some(FileRow(path, list)) =>
              ReadLines(lines + [line]) == Some(Index(index.chunks, index.files[path := list]))
  {
    hide ParseLine;
    assert (lines + [line])[..|lines|] == lines;
  }

  predicate Delimiter(c: char) {
    c in " \t\n\r\U{0C}"
  }

  /** Tokenising, step by step: delimiters in front are skipped, and a word reaches to the next one. */
  lemma TokenLaws(w: string, c: char, rest: string)
    requires w != "" && Delimiter(c) && forall k :: 0 <= k < |w| ==> !Delimiter(w[k])
    ensures Tokens("") == [] && Tokens(w) == [w]
    ensures Tokens([c] + rest) == Tokens(rest)
    ensures Tokens(w + ([c] + rest)) == [w] + Tokens(rest)
  {
    assert IsWord(w) && IsSpace(c);
    LastToken(w);
    SkipDelimiter(c, rest);
    FirstToken(w, [c] + rest);
  }

  lemma SkipDelimiter(c: char, rest: string)
    requires IsSpace(c)
    ensures Tokens([c] + rest) == Tokens(rest)
  {
    var i := Find(rest, Printed);
    assert forall k :: 0 <= k < i + 1 ==> !Is(Printed, ([c] + rest)[k]);
    FindIs([c] + rest, Printed, i + 1);
    assert ([c] + rest)[i + 1..] == rest[i..];
  }

  /** Splitting at commas keeps every part but the empty ones at the end; without a comma it keeps the string. */
  lemma SplitLaws(list: seq<string>)
    requires list != [] && forall k, j :: 0 <= k < |list| && 0 <= j < |list[k]| ==> list[k][j] != ','
    ensures var parts := Split(Join(',', list));
            if |list| == 1 then parts == list
            else
              && parts <= list
              && (parts != [] ==> parts[|parts| - 1] != "")
              && forall k :: |parts| <= k < |list| ==> list[k] == ""
  {
    PartsOfJoin(list);
    if |list| == 1 {
      assert Join(',', list) == list[0];
    } else {
      assert Split(Join(',', list)) == DropEmptyTail(list);
      hide *;
      DroppedAreEmpty(list);
    }
  }

  lemma {:induction false} DroppedAreEmpty(parts: seq<string>)
    ensures forall k :: |DropEmptyTail(parts)| <= k < |parts| ==> parts[k] == ""
    decreases |parts|
  {
    if parts != [] && parts[|parts| - 1] == "" {
      DroppedAreEmpty(parts[..|parts| - 1]);
    }
  }

  /** Decimal digits, the last one least; anything else is no number. */
  lemma DigitsLaws(s: string, c: char)
    ensures ParseDigits("") == None
    ensures ParseDigits([c]) == if c in "0123456789" then Some(c as int - '0' as int) else None
    ensures s != "" ==>
              ParseDigits(s + [c]) ==
              if c in "0123456789" && ParseDigits(s) != None
              then Some(10 * ParseDigits(s).value + (c as int - '0' as int))
              else None
  {
    assert s != "" ==> (s + [c])[..|s|] == s;
    DigitCharacters(c);
  }

  /** A number may have one sign in front, and must be in the range of a long. */
  lemma SignLaws(s: string)
    ensures ParseLong(['-'] + s) == InRange(ParseDigits(s), -1) && ParseLong(['+'] + s) == InRange(ParseDigits(s), 1)
    ensures s == "" || (s[0] != '-' && s[0] != '+') ==> ParseLong(s) == InRange(ParseDigits(s), 1)
  {
    Signed('-', s);
    Signed('+', s);
    if s == "" || (s[0] != '-' && s[0] != '+') {
      Unsigned(s);
    }
  }

  lemma Signed(sign: char, s: string)
    requires sign == '-' || sign == '+'
    ensures ParseLong([sign] + s) == InRange(ParseDigits(s), if sign == '-' then -1 else 1)
  {
    hide ParseDigits;
    assert ([sign] + s)[0] == sign && ([sign] + s)[1..] == s;
  }

  lemma Unsigned(s: string)
    requires s == "" || (s[0] != '-' && s[0] != '+')
    ensures ParseLong(s) == InRange(ParseDigits(s), 1)
  {
    if s == "" {
      assert ParseDigits(s) == None;
    } else {
      hide ParseDigits;
    }
  }

  lemma DigitCharacters(c: char)
    ensures c in "0123456789" <==> '0' <= c <= '9'
  {
    if '0' <= c <= '9' {
      assert "0123456789"[c as int - '0' as int] == c;
    }
  }

  function InRange(n: Option<int>, sign: int): (m: Option<int>) {
    if n != None && -9223372036854775808 <= sign * n.value <= 9223372036854775807 then Some(sign * n.value) else None
  }

  /** One readLine: up to a line feed, a carriage return, or both, or the end of the text. */
  lemma ReadLineLaws(line: string, rest: string)
    requires forall k :: 0 <= k < |line| ==> line[k] != '\n' && line[k] != '\r'
    ensures line != "" ==> ReadLine(line) == (line, "")
    ensures ReadLine(line + (['\n'] + rest)) == (line, rest)
    ensures ReadLine(line + (['\r', '\n'] + rest)) == (line, rest)
    ensures rest == "" || rest[0] != '\n' ==> ReadLine(line + (['\r'] + rest)) == (line, rest)
  {
    hide ReadLine;
    if line != "" {
      ReadWhole(line);
    }
    ReadUpTo(line, ['\n'] + rest, 1);
    ReadUpTo(line, ['\r', '\n'] + rest, 2);
    if rest == "" || rest[0] != '\n' {
      ReadUpTo(line, ['\r'] + rest, 1);
    }
    assert (['\n'] + rest)[1..] == rest && (['\r', '\n'] + rest)[2..] == rest && (['\r'] + rest)[1..] == rest;
  }

  lemma ReadWhole(line: string)
    requires line != "" && forall k :: 0 <= k < |line| ==> line[k] != '\n' && line[k] != '\r'
    ensures ReadLine(line) == (line, "")
  {
    FindIs(line, Break, |line|);
  }

  lemma ReadUpTo(line: string, tail: string, width: nat)
    requires tail != "" && IsBreak(tail[0])
    requires forall k :: 0 <= k < |line| ==> line[k] != '\n' && line[k] != '\r'
    requires width == if tail[0] == '\r' && |tail| >= 2 && tail[1] == '\n' then 2 else 1
    ensures ReadLine(line + tail) == (line, tail[width..])
  {
    BreakAt(line, tail);
    assert (line + tail)[|line|] == tail[0] && (|tail| >= 2 ==> (line + tail)[|line| + 1] == tail[1]);
    hide Find;
  }

  lemma BreakAt(line: string, tail: string)
    requires tail != "" && IsBreak(tail[0])
    requires forall k :: 0 <= k < |line| ==> line[k] != '\n' && line[k] != '\r'
    ensures Find(line + tail, Break) == |line|
    ensures (line + tail)[..|line|] == line
    ensures (line + tail)[|line| + 1..] == tail[1..]
    ensures |tail| >= 2 ==> (line + tail)[|line| + 2..] == tail[2..]
  {
    FindIs(line + tail, Break, |line|);
  }

  /** A whole metadata file: one chunk of twelve bytes, counted twice, in a file that holds it twice. */
  lemma FormatExample()
    ensures Written([ChunkRow("ab", 12, 2, 1), FileRow("x", ["ab", "ab"])]) == "c ab 12 2 1\nf x ab,ab\n"
    ensures Parse("c ab 12 2 1\nf x ab,ab\n") == Some(Index(map["ab" := (12, 2, 1)], map["x" := ["ab", "ab"]]))
  {
    var rows := [ChunkRow("ab", 12, 2, 1), FileRow("x", ["ab", "ab"])];
    var index := Index(map["ab" := (12, 2, 1)], map["x" := ["ab", "ab"]]);
    ExampleText(rows);
    hide Parse, Written, LineOf;
    ExampleIndex(rows, index);
    RoundTrip(rows, index);
  }

  lemma ExampleText(rows: seq<Row>)
    requires rows == [ChunkRow("ab", 12, 2, 1), FileRow("x", ["ab", "ab"])]
    ensures Written(rows) == "c ab 12 2 1\nf x ab,ab\n"
  {
    assert rows[1..] == [rows[1]] && rows[1..][1..] == [];
    assert Written([]) == "" && Written(rows[1..]) == LineOf(rows[1]) + "\n" + Written([]);
    assert Written(rows) == LineOf(rows[0]) + "\n" + Written(rows[1..]);
    hide *;
    ExampleLines();
    assert "c ab 12 2 1" + "\n" + ("f x ab,ab" + "\n" + "") == "c ab 12 2 1\nf x ab,ab\n";
  }

  lemma ExampleLines()
    ensures LineOf(ChunkRow("ab", 12, 2, 1)) == "c ab 12 2 1" && LineOf(FileRow("x", ["ab", "ab"])) == "f x ab,ab"
  {
    assert Join(',', ["ab", "ab"]) == "ab" + ([','] + "ab") by { JoinTwo("ab"); }
    hide *;
    ExampleNumbers();
    LineText("ab", 12, 2, 1, "x", ["ab", "ab"]);
    ChunkWords();
    FileWords();
  }

  lemma ChunkWords()
    ensures "c " + "ab" + " " + "12" + " " + "2" + " " + "1" == "c ab 12 2 1"
  {
    assert "c " + "ab" + " " == "c ab " && "12" + " " + "2" + " " + "1" == "12 2 1";
  }

  lemma FileWords()
    ensures "f " + "x" + " " + ("ab" + ([','] + "ab")) == "f x ab,ab"
  {
    assert "f " + "x" + " " == "f x " && "ab" + ([','] + "ab") == "ab,ab";
  }

  lemma JoinTwo(w: string)
    ensures Join(',', [w, w]) == w + ([','] + w)
  {
    assert [w, w][1..] == [w];
  }

  lemma ExampleIndex(rows: seq<Row>, index: Index)
    requires rows == [ChunkRow("ab", 12, 2, 1), FileRow("x", ["ab", "ab"])]
    requires index == Index(map["ab" := (12, 2, 1)], map["x" := ["ab", "ab"]])
    ensures Lists(rows, index) && Fits(index) && Clean(index)
  {
    hide CleanRow;
    assert RowOfChunk(index, "ab") == rows[0] && FileRow("x", index.files["x"]) == rows[1];
    assert CleanRow(rows[0]) && CleanRow(rows[1]) by { ExampleRowsAreClean(); }
  }

  lemma ExampleRowsAreClean()
    ensures CleanRow(ChunkRow("ab", 12, 2, 1)) && CleanRow(FileRow("x", ["ab", "ab"]))
  {
  }

  lemma ExampleNumbers()
    ensures PrintLong(12) == "12" && PrintLong(2) == "2" && PrintLong(1) == "1"
  {
    DecimalText(1, 2);
    DecimalText(0, 1);
    DecimalText(0, 2);
  }
}

/** The text form of the chunk and file index: what is written at exit and read back at start. */
module Metadata {
  import opened Wrappers

  /** One line of the metadata file. `BadRow` is a line of unknown kind, reported and skipped. */
  datatype Row =
    | ChunkRow(checksum: string, size: int, refCount: int, backend: int)
    | FileRow(path: string, list: seq<string>)
    | BadRow

  datatype Index = Index(chunks: map<string, (int, int, int)>, files: map<string, seq<string>>)

  const EMPTY := Index(map[], map[])

  // ---- characters and words

  predicate IsBreak(c: char) {
    c == '\n' || c == '\r'
  }

  /** The default delimiters of StringTokenizer. */
  predicate IsSpace(c: char) {
    c == ' ' || c == '\t' || c == '\n' || c == '\r' || c == '\U{0C}'
  }

  /** What a scan may stop at. */
  datatype CharClass = Space | Printed | Comma | Break

  predicate Is(kind: CharClass, c: char) {
    match kind
    case Space => IsSpace(c)
    case Printed => !IsSpace(c)
    case Comma => c == ','
    case Break => IsBreak(c)
  }

  predicate NoSpace(s: string) {
    forall k :: 0 <= k < |s| ==> !IsSpace(s[k])
  }

  predicate NoComma(s: string) {
    forall k :: 0 <= k < |s| ==> s[k] != ','
  }

  predicate IsWord(s: string) {
    s != "" && NoSpace(s)
  }

  /** The position of the first character in the class `stop`, or the length. */
  function Find(s: string, stop: CharClass): (i: nat)
    ensures i <= |s|
    ensures forall k :: 0 <= k < i ==> !Is(stop, s[k])
    ensures i < |s| ==> Is(stop, s[i])
  {
    FindFrom(s, stop, 0)
  }

  function FindFrom(s: string, stop: CharClass, from: nat): (i: nat)
    requires from <= |s|
    ensures from <= i <= |s|
    ensures forall k :: from <= k < i ==> !Is(stop, s[k])
    ensures i < |s| ==> Is(stop, s[i])
    decreases |s| - from
  {
    if from == |s| || Is(stop, s[from]) then from else FindFrom(s, stop, from + 1)
  }

  // ---- numbers

  const MINLONG := -0x8000_0000_0000_0000
  const MAXLONG := 0x7fff_ffff_ffff_ffff

  predicate IsLong(n: int) {
    MINLONG <= n <= MAXLONG
  }

  function Digit(d: nat): (c: char)
    requires d < 10
  {
    '0' + d as char
  }

  function Digits(n: nat): (s: string) {
    if n < 10 then [Digit(n)] else Digits(n / 10) + [Digit(n % 10)]
  }

  /** Long.toString. */
  function PrintLong(n: int): (s: string) {
    if n < 0 then "-" + Digits(-n) else Digits(n)
  }

  function ParseDigits(s: string): (n: Option<int>) {
    if s == "" || !('0' <= s[|s| - 1] <= '9') then None
    else
      var d := (s[|s| - 1] - '0') as int;
      if |s| == 1 then Some(d)
      else
        match ParseDigits(s[..|s| - 1])
        case None => None
        case Some(n) => Some(10 * n + d)
  }

  /** Long.parseLong on ASCII digits: None stands for NumberFormatException. */
  function ParseLong(s: string): (n: Option<int>) {
    var signed := s != "" && (s[0] == '-' || s[0] == '+');
    match ParseDigits(if signed then s[1..] else s)
    case None => None
    case Some(v) =>
      var n := if s[0] == '-' then -v else v;
      if IsLong(n) then Some(n) else None
  }

  lemma {:induction false} DigitsParse(n: nat)
    ensures ParseDigits(Digits(n)) == Some(n)
    ensures IsWord(Digits(n)) && '0' <= Digits(n)[0] <= '9'
  {
    if n >= 10 {
      DigitsParse(n / 10);
      var s := Digits(n);
      assert s[..|s| - 1] == Digits(n / 10);
    }
  }

  lemma PrintedLongParses(n: int)
    requires IsLong(n)
    ensures ParseLong(PrintLong(n)) == Some(n) && IsWord(PrintLong(n))
  {
    DigitsParse(if n < 0 then -n else n);
    hide Digits, ParseDigits;
    if n < 0 {
      assert PrintLong(n)[1..] == Digits(-n);
    }
  }

  // ---- tokens

  /** The tokens that StringTokenizer yields. */
  function Tokens(s: string): (tokens: seq<string>)
    decreases |s|
  {
    var t := s[Find(s, Printed)..];
    if t == "" then []
    else
      var e := Find(t, Space);
      [t[..e]] + Tokens(t[e..])
  }

  lemma {:induction false} TokensAreWords(s: string, k: nat)
    requires k < |Tokens(s)|
    ensures IsWord(Tokens(s)[k])
    decreases |s|
  {
    var t := s[Find(s, Printed)..];
    if k > 0 {
      TokensAreWords(t[Find(t, Space)..], k - 1);
    }
  }

  lemma FindIs(s: string, stop: CharClass, i: nat)
    requires i <= |s| && (forall k :: 0 <= k < i ==> !Is(stop, s[k])) && (i < |s| ==> Is(stop, s[i]))
    ensures Find(s, stop) == i
  {
  }

  lemma FirstToken(w: string, rest: string)
    requires IsWord(w) && (rest == "" || IsSpace(rest[0]))
    ensures Tokens(w + rest) == [w] + Tokens(rest)
  {
    FindIs(w + rest, Printed, 0);
    FindIs(w + rest, Space, |w|);
    assert (w + rest)[0..] == w + rest && (w + rest)[..|w|] == w && (w + rest)[|w|..] == rest;
  }

  lemma TokensSkipSpace(s: string)
    ensures Tokens(" " + s) == Tokens(s)
  {
    var i := Find(s, Printed);
    FindIs(" " + s, Printed, i + 1);
    assert (" " + s)[i + 1..] == s[i..];
  }

  // ---- comma-separated lists

  function Join(sep: char, list: seq<string>): (s: string) {
    if list == [] then "" else if |list| == 1 then list[0] else list[0] + ([sep] + Join(sep, list[1..]))
  }

  lemma NextToken(w: string, rest: string)
    requires IsWord(w)
    ensures Tokens(w + ([' '] + rest)) == [w] + Tokens(rest)
  {
    FirstToken(w, " " + rest);
    TokensSkipSpace(rest);
  }

  /** The list without an empty last element. */
  function WithoutEmptyLast(list: seq<string>): (kept: seq<string>)
    requires list != []
  {
    if list[|list| - 1] == "" then list[..|list| - 1] else list
  }

  /** Words joined by spaces are split again; an empty last element leaves no token. */
  lemma {:induction false} TokensOfJoin(list: seq<string>)
    requires list != [] && (forall k :: 0 <= k < |list| - 1 ==> IsWord(list[k])) && NoSpace(list[|list| - 1])
    ensures Tokens(Join(' ', list)) == WithoutEmptyLast(list)
    decreases |list|
  {
    if |list| == 1 {
      if list[0] != "" {
        LastToken(list[0]);
      }
      assert list == [list[0]];
    } else {
      var w, tail, rest := list[0], list[1..], Join(' ', list[1..]);
      assert Join(' ', list) == w + ([' '] + rest);
      assert WithoutEmptyLast(list) == [w] + WithoutEmptyLast(tail);
      hide *;
      TokensOfJoin(tail);
      NextToken(w, rest);
    }
  }

  lemma LastToken(w: string)
    requires IsWord(w)
    ensures Tokens(w) == [w]
  {
    FirstToken(w, "");
    assert w + "" == w;
  }

  function Parts(s: string): (parts: seq<string>)
    ensures parts != []
  {
    var i := Find(s, Comma);
    if i == |s| then [s] else [s[..i]] + Parts(s[i + 1..])
  }

  function DropEmptyTail(parts: seq<string>): (kept: seq<string>)
    ensures kept <= parts
    ensures kept != [] ==> kept[|kept| - 1] != ""
  {
    if parts != [] && parts[|parts| - 1] == "" then DropEmptyTail(parts[..|parts| - 1]) else parts
  }

  /** String.split(","): trailing empty parts are dropped, unless there is no comma at all. */
  function Split(s: string): (parts: seq<string>) {
    if NoComma(s) then [s] else DropEmptyTail(Parts(s))
  }

  /** The lists that survive: no commas or spaces, and a last element that is not empty. */
  predicate CleanList(list: seq<string>) {
    && (forall k :: 0 <= k < |list| ==> NoComma(list[k]) && NoSpace(list[k]))
    && (list != [] ==> list[|list| - 1] != "")
  }

  lemma CutAtComma(s: string, i: nat)
    requires NoSpace(s) && i == Find(s, Comma)
    ensures NoComma(s[..i]) && NoSpace(s[..i])
    ensures i < |s| ==> NoSpace(s[i + 1..])
  {
    forall k | 0 <= k < i ensures s[k] != ',' {
      assert !Is(Comma, s[k]);
    }
  }

  lemma {:induction false} PartsAreClean(s: string, k: nat)
    requires NoSpace(s) && k < |Parts(s)|
    ensures NoComma(Parts(s)[k]) && NoSpace(Parts(s)[k])
    decreases |s|
  {
    var i := Find(s, Comma);
    CutAtComma(s, i);
    hide NoComma, NoSpace, Find;
    if i == |s| {
      assert Parts(s) == [s] && s[..i] == s;
    } else {
      assert Parts(s) == [s[..i]] + Parts(s[i + 1..]);
      hide *;
      if k > 0 {
        PartsAreClean(s[i + 1..], k - 1);
      }
    }
  }

  lemma SplitIsClean(s: string)
    requires IsWord(s)
    ensures CleanList(Split(s))
  {
    forall k | 0 <= k < |Split(s)| ensures NoComma(Split(s)[k]) && NoSpace(Split(s)[k]) {
      PartsAreClean(s, k);
    }
  }

  lemma FirstPart(w: string, rest: string)
    requires NoComma(w)
    ensures Parts(w + ([','] + rest)) == [w] + Parts(rest) && !NoComma(w + ([','] + rest))
  {
    var s := w + ([','] + rest);
    assert s[|w|] == ',' && s[..|w|] == w && s[|w| + 1..] == rest;
    FindIs(s, Comma, |w|);
  }

  lemma SinglePart(w: string)
    requires NoComma(w)
    ensures Parts(w) == [w]
  {
    assert Find(w, Comma) == |w|;
  }

  lemma {:induction false} PartsOfJoin(list: seq<string>)
    requires list != [] && forall k :: 0 <= k < |list| ==> NoComma(list[k])
    ensures Parts(Join(',', list)) == list
    ensures |list| > 1 ==> !NoComma(Join(',', list))
    decreases |list|
  {
    var w, tail, rest := list[0], list[1..], Join(',', list[1..]);
    assert NoComma(w) && list == [w] + tail;
    if |list| == 1 {
      assert Join(',', list) == w;
      hide *;
      SinglePart(w);
    } else {
      assert Join(',', list) == w + ([','] + rest);
      hide *;
      PartsOfJoin(tail);
      FirstPart(w, rest);
    }
  }

  lemma {:induction false} JoinIsWord(list: seq<string>)
    requires list != [] && CleanList(list)
    ensures IsWord(Join(',', list))
    decreases |list|
  {
    if |list| > 1 {
      JoinIsWord(list[1..]);
    }
  }

  lemma SplitOfJoin(list: seq<string>)
    requires list != [] && CleanList(list)
    ensures Split(Join(',', list)) == list
  {
    PartsOfJoin(list);
    if |list| > 1 {
    }
  }

  // ---- lines

  /** What Update writes for a row, without the line end. */
  function LineOf(row: Row): (line: string) {
    match row
    case ChunkRow(checksum, size, refCount, backend) =>
      Join(' ', ["c", checksum, PrintLong(size), PrintLong(refCount), PrintLong(backend)])
    case FileRow(path, list) => Join(' ', ["f", path, Join(',', list)])
    case BadRow => ""
  }

  /** One line as the constructor reads it; None stands for an exception. */
  function ParseLine(line: string): (row: Option<Row>) {
    var tokens := Tokens(line);
    if tokens == [] || tokens[0] == "" then None
    else if tokens[0][0] == 'c' then
      if |tokens| < 5 then None
      else
        var size, refCount, backend := ParseLong(tokens[2]), ParseLong(tokens[3]), ParseLong(tokens[4]);
        if size.None? || refCount.None? || backend.None? then None
        else Some(ChunkRow(tokens[1], size.value, refCount.value, backend.value))
    else if tokens[0][0] == 'f' then
      if |tokens| < 2 then None
      else Some(FileRow(tokens[1], if |tokens| > 2 then Split(tokens[2]) else []))
    else Some(BadRow)
  }

  /** The rows that survive being written and read. */
  predicate CleanRow(row: Row) {
    match row
    case ChunkRow(checksum, size, refCount, backend) =>
      IsWord(checksum) && IsLong(size) && IsLong(refCount) && IsLong(backend)
    case FileRow(path, list) => IsWord(path) && CleanList(list)
    case BadRow => false
  }

  lemma ChunkLineParses(row: Row)
    requires row.ChunkRow? && CleanRow(row)
    ensures ParseLine(LineOf(row)) == Some(row)
  {
    var n1, n2, n3 := PrintLong(row.size), PrintLong(row.refCount), PrintLong(row.backend);
    PrintedLongParses(row.size);
    PrintedLongParses(row.refCount);
    PrintedLongParses(row.backend);
    TokensOfJoin(["c", row.checksum, n1, n2, n3]);
    hide Tokens, PrintLong, ParseLong, IsWord, Split;
  }

  lemma FileLineParses(row: Row)
    requires row.FileRow? && CleanRow(row)
    ensures ParseLine(LineOf(row)) == Some(row)
  {
    var joined := Join(',', row.list);
    if row.list != [] {
      JoinIsWord(row.list);
      SplitOfJoin(row.list);
    }
    TokensOfJoin(["f", row.path, joined]);
    hide Tokens, IsWord, Split, CleanList;
  }

  /** Whatever is read from a line is clean. */
  lemma ParsedRowIsClean(line: string)
    requires ParseLine(line).Some? && ParseLine(line).value != BadRow
    ensures CleanRow(ParseLine(line).value)
  {
    var tokens := Tokens(line);
    TokensAreWords(line, 1);
    if tokens[0][0] != 'c' && |tokens| > 2 {
      TokensAreWords(line, 2);
      SplitIsClean(tokens[2]);
    }
  }

  // ---- text

  /** The lines that repeated readLine calls return. */
  function Lines(text: string): (lines: seq<string>)
    decreases |text|
  {
    if text == "" then [] else [ReadLine(text).0] + Lines(ReadLine(text).1)
  }

  /** One readLine call: the line, and the text after its end. */
  function ReadLine(text: string): (r: (string, string))
    requires text != ""
    ensures |r.1| < |text|
  {
    var e := Find(text, Break);
    if e == |text| then (text, "")
    else if text[e] == '\r' && e + 1 < |text| && text[e + 1] == '\n' then (text[..e], text[e + 2..])
    else (text[..e], text[e + 1..])
  }

  function AddRow(index: Index, row: Row): (next: Index) {
    match row
    case ChunkRow(checksum, size, refCount, backend) =>
      if checksum in index.chunks then index
      else index.(chunks := index.chunks[checksum := (size, refCount, backend)])
    case FileRow(path, list) => index.(files := index.files[path := list])
    case BadRow => index
  }

  function ReadLines(lines: seq<string>): (index: Option<Index>) {
    if lines == [] then Some(EMPTY)
    else
      match (ReadLines(lines[..|lines| - 1]), ParseLine(lines[|lines| - 1]))
      case (Some(index), Some(row)) => Some(AddRow(index, row))
      case _ => None
  }

  /** The index that the constructor builds from the text, or None where it throws. */
  function Parse(text: string): (index: Option<Index>) {
    ReadLines(Lines(text))
  }

  /** What Update writes for the rows in order. */
  function Written(rows: seq<Row>): (text: string) {
    if rows == [] then "" else LineOf(rows[0]) + "\n" + Written(rows[1..])
  }

  lemma {:induction false} WrittenLast(rows: seq<Row>, row: Row)
    ensures Written(rows + [row]) == Written(rows) + LineOf(row) + "\n"
    decreases |rows|
  {
    hide LineOf;
    if rows == [] {
      assert Written([row]) == LineOf(row) + "\n" + Written([row][1..]);
    } else {
      var line, rest, last := LineOf(rows[0]) + "\n", Written(rows[1..]), LineOf(row) + "\n";
      WrittenLast(rows[1..], row);
      assert (rows + [row])[1..] == rows[1..] + [row];
      assert Written(rows + [row]) == line + (rest + LineOf(row) + "\n") && Written(rows) == line + rest;
      hide *;
      assert line + (rest + LineOf(row) + "\n") == (line + rest) + LineOf(row) + "\n";
    }
  }

  // ---- listings

  predicate InIndex(row: Row, index: Index) {
    match row
    case ChunkRow(checksum, size, refCount, backend) =>
      checksum in index.chunks && index.chunks[checksum] == (size, refCount, backend)
    case FileRow(path, list) => path in index.files && index.files[path] == list
    case BadRow => false
  }

  function RowOfChunk(index: Index, checksum: string): (row: Row)
    requires checksum in index.chunks
  {
    var v := index.chunks[checksum];
    ChunkRow(checksum, v.0, v.1, v.2)
  }

  ghost predicate NoRepeat(rows: seq<Row>) {
    forall i, j :: 0 <= i < j < |rows| ==> rows[i] != rows[j]
  }

  /** `rows` lists the entries of the index, each once, in some order. */
  ghost predicate Lists(rows: seq<Row>, index: Index) {
    && NoRepeat(rows)
    && (forall i :: 0 <= i < |rows| ==> InIndex(rows[i], index))
    && (forall c :: c in index.chunks ==> RowOfChunk(index, c) in rows)
    && (forall p :: p in index.files ==> FileRow(p, index.files[p]) in rows)
  }

  ghost predicate Clean(index: Index) {
    && (forall c :: c in index.chunks ==> CleanRow(RowOfChunk(index, c)))
    && (forall p :: p in index.files ==> CleanRow(FileRow(p, index.files[p])))
  }

  /** The stored numbers are Java longs. */
  ghost predicate Fits(index: Index) {
    forall c :: c in index.chunks ==>
      IsLong(index.chunks[c].0) && IsLong(index.chunks[c].1) && IsLong(index.chunks[c].2)
  }

  function LinesOf(rows: seq<Row>): (lines: seq<string>) {
    seq(|rows|, k requires 0 <= k < |rows| => LineOf(rows[k]))
  }

  predicate NoBreak(s: string) {
    forall k :: 0 <= k < |s| ==> !IsBreak(s[k])
  }

  lemma {:induction false} JoinHasNoBreak(sep: char, list: seq<string>)
    requires !IsBreak(sep) && forall k :: 0 <= k < |list| ==> NoBreak(list[k])
    ensures NoBreak(Join(sep, list))
    decreases |list|
  {
    if |list| > 1 {
      JoinHasNoBreak(sep, list[1..]);
    }
  }

  lemma CleanLineHasNoBreak(row: Row)
    requires CleanRow(row)
    ensures NoBreak(LineOf(row))
  {
    match row
    case ChunkRow(checksum, size, refCount, backend) =>
      PrintedLongParses(size);
      PrintedLongParses(refCount);
      PrintedLongParses(backend);
      JoinHasNoBreak(' ', ["c", checksum, PrintLong(size), PrintLong(refCount), PrintLong(backend)]);
    case FileRow(path, list) =>
      JoinHasNoBreak(',', list);
      JoinHasNoBreak(' ', ["f", path, Join(',', list)]);
  }

  lemma WrittenFirst(rows: seq<Row>)
    requires rows != []
    ensures Written(rows) == LineOf(rows[0]) + "\n" + Written(rows[1..])
    ensures LinesOf(rows) == [LineOf(rows[0])] + LinesOf(rows[1..])
  {
    hide LineOf;
  }

  lemma {:induction false} WrittenLines(rows: seq<Row>)
    requires forall k :: 0 <= k < |rows| ==> CleanRow(rows[k])
    ensures Lines(Written(rows)) == LinesOf(rows)
    decreases |rows|
  {
    if rows == [] {
      hide LineOf, ReadLine;
      assert LinesOf(rows) == [];
    } else {
      hide *;
      var line, rest := LineOf(rows[0]), Written(rows[1..]);
      WrittenFirst(rows);
      CleanLineHasNoBreak(rows[0]);
      WrittenLines(rows[1..]);
      assert line + "\n" + rest == line + ("\n" + rest);
      BreakAt(line + "\n" + rest, line, rest);
    }
  }

  lemma BreakAt(text: string, line: string, rest: string)
    requires text == line + ("\n" + rest) && NoBreak(line)
    ensures Lines(text) == [line] + Lines(rest)
  {
    assert text[|line|] == '\n';
    FindIs(text, Break, |line|);
    assert text[..|line|] == line && text[|line| + 1..] == rest;
  }

  /** The index that holds the entries of `rows`. */
  ghost predicate Holds(index: Index, rows: seq<Row>, whole: Index) {
    && (forall c :: c in index.chunks <==> c in whole.chunks && RowOfChunk(whole, c) in rows)
    && (forall c :: c in index.chunks ==> index.chunks[c] == whole.chunks[c])
    && (forall p :: p in index.files <==> p in whole.files && FileRow(p, whole.files[p]) in rows)
    && (forall p :: p in index.files ==> index.files[p] == whole.files[p])
  }

  lemma HoldsStep(index: Index, rows: seq<Row>, row: Row, whole: Index)
    requires Holds(index, rows, whole) && InIndex(row, whole) && row !in rows
    ensures Holds(AddRow(index, row), rows + [row], whole)
  {
  }

  lemma HoldsAll(index: Index, rows: seq<Row>, whole: Index)
    requires Holds(index, rows, whole) && Lists(rows, whole)
    ensures index == whole
  {
    assert index.chunks == whole.chunks && index.files == whole.files;
  }

  lemma ReadSnoc(lines: seq<string>, line: string)
    requires ReadLines(lines).Some? && ParseLine(line).Some?
    ensures ReadLines(lines + [line]) == Some(AddRow(ReadLines(lines).value, ParseLine(line).value))
  {
    hide ParseLine, AddRow;
    assert (lines + [line])[..|lines|] == lines;
  }

  lemma ReadLast(rows: seq<Row>, row: Row)
    requires CleanRow(row) && ReadLines(LinesOf(rows)).Some?
    ensures ReadLines(LinesOf(rows + [row])) == Some(AddRow(ReadLines(LinesOf(rows)).value, row))
  {
    if row.ChunkRow? {
      ChunkLineParses(row);
    } else {
      FileLineParses(row);
    }
    assert LinesOf(rows + [row]) == LinesOf(rows) + [LineOf(row)];
    hide *;
    ReadSnoc(LinesOf(rows), LineOf(row));
  }

  lemma {:induction false} RowsRead(rows: seq<Row>, whole: Index)
    requires NoRepeat(rows)
    requires forall k :: 0 <= k < |rows| ==> InIndex(rows[k], whole) && CleanRow(rows[k])
    ensures ReadLines(LinesOf(rows)).Some? && Holds(ReadLines(LinesOf(rows)).value, rows, whole)
    decreases |rows|
  {
    if rows != [] {
      var front, last := rows[..|rows| - 1], rows[|rows| - 1];
      assert rows == front + [last] && NoRepeat(front) && last !in front;
      hide ParseLine, LineOf, CleanRow, InIndex, NoRepeat, Holds, LinesOf;
      RowsRead(front, whole);
      ReadLast(front, last);
      HoldsStep(ReadLines(LinesOf(front)).value, front, last, whole);
    }
  }

  /** Whatever is read from a text is clean. */
  lemma {:induction false} ReadIsClean(lines: seq<string>)
    requires ReadLines(lines).Some?
    ensures Clean(ReadLines(lines).value)
    decreases |lines|
  {
    if lines != [] {
      var front, last := lines[..|lines| - 1], lines[|lines| - 1];
      ReadIsClean(front);
      if ParseLine(last).value != BadRow {
        ParsedRowIsClean(last);
      }
      hide ParseLine, CleanList, IsWord, IsLong;
    }
  }

  /**
     Reading back what was written restores the index, in whatever order its maps were
     listed, exactly when its paths and checksums are clean.
     */
  lemma RoundTrip(rows: seq<Row>, index: Index)
    requires Lists(rows, index) && Fits(index)
    ensures Parse(Written(rows)) == Some(index) <==> Clean(index)
  {
    if Clean(index) {
      forall k | 0 <= k < |rows| ensures CleanRow(rows[k]) {
        assert InIndex(rows[k], index);
        match rows[k]
        case ChunkRow(c, _, _, _) => assert rows[k] == RowOfChunk(index, c);
        case FileRow(p, _) => assert rows[k] == FileRow(p, index.files[p]);
      }
      WrittenLines(rows);
      RowsRead(rows, index);
      HoldsAll(ReadLines(LinesOf(rows)).value, rows, index);
    }
    if Parse(Written(rows)) == Some(index) {
      ReadIsClean(Lines(Written(rows)));
    }
  }


  // ---- the methods

  lemma {:induction false} ReadFails(lines: seq<string>, line: string, more: seq<string>)
    requires ParseLine(line).None?
    ensures ReadLines(lines + [line] + more).None?
    decreases |more|
  {
    hide ParseLine, AddRow;
    var all := lines + [line] + more;
    if more == [] {
      assert all[|all| - 1] == line;
    } else {
      ReadFails(lines, line, more[..|more| - 1]);
      assert all[..|all| - 1] == lines + [line] + more[..|more| - 1];
    }
  }

  /** The body of the constructor's reading loop; not ok where it throws. */
  method LoadLine(line: string, index: Index) returns (ok: bool, next: Index)
    ensures ok <==> ParseLine(line).Some?
    ensures ok ==> next == AddRow(index, ParseLine(line).value)
  {
    next := index;
    var tokens := Tokens(line);
    if tokens == [] {
      return false, next;
    }
    TokensAreWords(line, 0);
    hide Tokens, Split, ParseLong;
    match tokens[0][0] {
      case 'c' =>
        if |tokens| < 5 {
          return false, next;
        }
        var size, refCount, backend := ParseLong(tokens[2]), ParseLong(tokens[3]), ParseLong(tokens[4]);
        if size.None? || refCount.None? || backend.None? {
          return false, next;
        }
        if tokens[1] !in next.chunks {
          next := next.(chunks := next.chunks[tokens[1] := (size.value, refCount.value, backend.value)]);
        }
      case 'f' =>
        if |tokens| < 2 {
          return false, next;
        }
        var list := [];
        if |tokens| > 2 {
          list := Split(tokens[2]);
        }
        next := next.(files := next.files[tokens[1] := list]);
      case _ =>
    }
    ok := true;
  }

  /** The constructor's reading loop; None where it throws. */
  method Load(text: string) returns (index: Option<Index>)
    ensures index == Parse(text)
  {
    var rest, current := text, EMPTY;
    ghost var done: seq<string> := [];
    while rest != ""
      invariant Lines(text) == done + Lines(rest)
      invariant ReadLines(done) == Some(current)
      decreases |rest|
    {
      hide Lines, ReadLine, ReadLines, ParseLine, AddRow, Parse;
      LoadsLine(text, done, rest);
      var (line, next) := ReadLine(rest);
      var ok;
      ok, current := LoadLine(line, current);
      if !ok {
        return None;
      }
      rest, done := next, done + [line];
    }
    LoadsAll(text, done);
    return Some(current);
  }

  /** One turn of the reading loop. */
  lemma LoadsLine(text: string, done: seq<string>, rest: string)
    requires rest != "" && Lines(text) == done + Lines(rest) && ReadLines(done).Some?
    ensures var (line, next) := ReadLine(rest);
            && Lines(text) == (done + [line]) + Lines(next)
            && (ParseLine(line).None? ==> Parse(text) == None)
            && (ParseLine(line).Some? ==>
                  ReadLines(done + [line]) == Some(AddRow(ReadLines(done).value, ParseLine(line).value)))
  {
    hide Lines, ReadLine, ReadLines, ParseLine, AddRow;
    var (line, next) := ReadLine(rest);
    LinesUnfold(rest);
    assert Lines(text) == (done + [line]) + Lines(next) by { AppendAssociates(done, line, Lines(next)); }
    if ParseLine(line).None? {
      ReadFails(done, line, Lines(next));
    } else {
      ReadSnoc(done, line);
    }
  }

  lemma LinesUnfold(rest: string)
    requires rest != ""
    ensures Lines(rest) == [ReadLine(rest).0] + Lines(ReadLine(rest).1)
  {
    hide ReadLine;
  }

  lemma AppendAssociates(done: seq<string>, line: string, more: seq<string>)
    ensures done + ([line] + more) == (done + [line]) + more
  {
  }

  lemma LoadsAll(text: string, done: seq<string>)
    requires Lines(text) == done + Lines("")
    ensures Parse(text) == ReadLines(done)
  {
    assert Lines("") == [] && done + [] == done;
    hide ReadLines;
  }

  /** The listing of the entries already taken out of the maps. */
  ghost predicate Listed(rows: seq<Row>, index: Index, chunksLeft: map<string, (int, int, int)>,
                         filesLeft: map<string, seq<string>>) {
    && chunksLeft.Items <= index.chunks.Items && filesLeft.Items <= index.files.Items
    && Lists(rows, Index(index.chunks - chunksLeft.Keys, index.files - filesLeft.Keys))
  }

  lemma ListedAll(rows: seq<Row>, index: Index)
    requires Listed(rows, index, map[], map[])
    ensures Lists(rows, index)
    ensures rows == [] <==> index == EMPTY
  {
    var noChunks: map<string, (int, int, int)>, noFiles: map<string, seq<string>> := map[], map[];
    assert index.chunks - noChunks.Keys == index.chunks && index.files - noFiles.Keys == index.files;
    if rows != [] {
      assert InIndex(rows[0], index);
    }
  }

  lemma ListedChunk(rows: seq<Row>, index: Index, chunksLeft: map<string, (int, int, int)>, filesLeft: map<string,
                    seq<string>>, checksum: string)
    requires Listed(rows, index, chunksLeft, filesLeft) && checksum in chunksLeft
    ensures checksum in index.chunks && chunksLeft[checksum] == index.chunks[checksum]
    ensures Listed(rows + [RowOfChunk(index, checksum)], index, chunksLeft - {checksum}, filesLeft)
  {
    assert (checksum, chunksLeft[checksum]) in index.chunks.Items;
    var row := RowOfChunk(index, checksum);
    assert (rows + [row])[|rows|] == row;
    var done := Index(index.chunks - (chunksLeft - {checksum}).Keys, index.files - filesLeft.Keys);
    forall c | c in done.chunks ensures RowOfChunk(done, c) in rows + [row] {
      if c != checksum {
        assert RowOfChunk(done, c) == RowOfChunk(Index(index.chunks - chunksLeft.Keys, done.files), c);
      }
    }
  }

  lemma ListedFile(rows: seq<Row>, index: Index, chunksLeft: map<string, (int, int, int)>, filesLeft: map<string,
                   seq<string>>, path: string)
    requires Listed(rows, index, chunksLeft, filesLeft) && path in filesLeft
    ensures path in index.files && filesLeft[path] == index.files[path]
    ensures Listed(rows + [FileRow(path, index.files[path])], index, chunksLeft, filesLeft - {path})
  {
    assert (path, filesLeft[path]) in index.files.Items;
    var row := FileRow(path, index.files[path]);
    assert (rows + [row])[|rows|] == row;
    var done := Index(index.chunks - chunksLeft.Keys, index.files - (filesLeft - {path}).Keys);
    forall p | p in done.files ensures FileRow(p, done.files[p]) in rows + [row] {
      if p != path {
        assert FileRow(p, (index.files - filesLeft.Keys)[p]) in rows;
      }
    }
  }

  lemma ChunkLine(checksum: string, n1: string, n2: string, n3: string)
    ensures Join(' ', ["c", checksum, n1, n2, n3]) == "c " + checksum + " " + n1 + " " + n2 + " " + n3
  {
    var l4, l3, l2, l1, l0 := [n3], [n2, n3], [n1, n2, n3], [checksum, n1, n2, n3], ["c", checksum, n1, n2, n3];
    assert l3[1..] == l4 && l2[1..] == l3 && l1[1..] == l2 && l0[1..] == l1;
    var j4, j3, j2, j1 := Join(' ', l4), Join(' ', l3), Join(' ', l2), Join(' ', l1);
    assert j4 == n3 && j3 == n2 + ([' '] + j4) && j2 == n1 + ([' '] + j3) && j1 == checksum + ([' '] + j2);
    assert Join(' ', l0) == "c" + ([' '] + j1);
    hide *;
  }

  lemma FileLine(path: string, joined: string)
    ensures Join(' ', ["f", path, joined]) == "f " + path + " " + joined
  {
    assert ["f", path, joined][1..] == [path, joined] && [path, joined][1..] == [joined];
    assert Join(' ', [path, joined]) == path + ([' '] + joined);
  }

  lemma {:induction false} JoinLast(list: seq<string>, last: string)
    requires list != []
    ensures Join(',', list + [last]) == Join(',', list) + "," + last
    decreases |list|
  {
    var all := list + [last];
    assert all[1..] == list[1..] + [last];
    if |list| == 1 {
      assert Join(',', all) == list[0] + ([','] + last);
    } else {
      JoinLast(list[1..], last);
      var j := Join(',', list[1..]);
      assert Join(',', all) == list[0] + ([','] + (j + "," + last));
      hide *;
      assert list[0] + ([','] + (j + "," + last)) == list[0] + ([','] + j) + "," + last;
    }
  }

  ghost predicate AllChunks(rows: seq<Row>) {
    forall i :: 0 <= i < |rows| ==> rows[i].ChunkRow?
  }

  /** No chunk line stands behind a file line. */
  ghost predicate ChunksFirst(rows: seq<Row>) {
    forall i, j :: 0 <= i < j < |rows| && rows[i].FileRow? ==> rows[j].FileRow?
  }

  lemma ChunkComesNext(rows: seq<Row>, checksum: string, size: int, refCount: int, backend: int)
    requires AllChunks(rows)
    ensures AllChunks(rows + [ChunkRow(checksum, size, refCount, backend)])
  {
  }

  lemma FileComesNext(rows: seq<Row>, path: string, list: seq<string>)
    requires ChunksFirst(rows)
    ensures ChunksFirst(rows + [FileRow(path, list)])
  {
  }

  /** The inner loop of Update: the checksums of one file, separated by commas. */
  method WriteList(text: string, list: seq<string>) returns (out: string)
    ensures out == text + Join(',', list)
  {
    out := text;
    for i := 0 to |list|
      invariant out == text + Join(',', list[..i]) + (if 0 < i < |list| then "," else "")
    {
      assert list[..i + 1] == list[..i] + [list[i]];
      if i > 0 {
        JoinLast(list[..i], list[i]);
      }
      hide *;
      out := out + list[i];
      if i != |list| - 1 {
        out := out + ",";
      }
    }
    assert list[..|list|] == list;
  }

  /** The first loop of Update: the chunks, in any order. */
  method WriteChunks(index: Index) returns (text: string, isUpdated: bool, ghost rows: seq<Row>)
    ensures text == Written(rows) && Listed(rows, index, map[], index.files) && AllChunks(rows)
    ensures isUpdated <==> rows != []
  {
    text, isUpdated, rows := "", false, [];
    var chunksLeft := index.chunks;
    while chunksLeft != map[]
      invariant text == Written(rows)
      invariant Listed(rows, index, chunksLeft, index.files)
      invariant AllChunks(rows)
      invariant isUpdated <==> rows != []
      decreases |chunksLeft|
    {
      var checksum :| checksum in chunksLeft;
      var v := chunksLeft[checksum];
      ListedChunk(rows, index, chunksLeft, index.files, checksum);
      WrittenLast(rows, ChunkRow(checksum, v.0, v.1, v.2));
      ChunkLine(checksum, PrintLong(v.0), PrintLong(v.1), PrintLong(v.2));
      Smaller(chunksLeft, checksum);
      ChunkComesNext(rows, checksum, v.0, v.1, v.2);
      hide Written, Listed, PrintLong, Join, AllChunks;
      text := text + ("c " + checksum + " " + PrintLong(v.0) + " " + PrintLong(v.1) + " " + PrintLong(v.2));
      text := text + "\n";
      rows := rows + [ChunkRow(checksum, v.0, v.1, v.2)];
      chunksLeft := chunksLeft - {checksum};
      isUpdated := true;
    }
  }

  /** Update: the whole metadata text, chunks first, each map in any order. */
  method Update(index: Index) returns (text: string, isUpdated: bool, ghost rows: seq<Row>)
    ensures Lists(rows, index) && text == Written(rows)
    ensures ChunksFirst(rows)
    ensures isUpdated <==> index != EMPTY
    ensures Fits(index) ==> (Parse(text) == Some(index) <==> Clean(index))
  {
    text, isUpdated, rows := WriteChunks(index);
    var filesLeft := index.files;
    assert ChunksFirst(rows);
    while filesLeft != map[]
      invariant text == Written(rows)
      invariant Listed(rows, index, map[], filesLeft)
      invariant ChunksFirst(rows)
      invariant isUpdated <==> rows != []
      decreases |filesLeft|
    {
      var path :| path in filesLeft;
      var list := filesLeft[path];
      ListedFile(rows, index, map[], filesLeft, path);
      WrittenLast(rows, FileRow(path, list));
      FileLine(path, Join(',', list));
      Smaller(filesLeft, path);
      FileComesNext(rows, path, list);
      hide Written, Listed, Join, ChunksFirst;
      var line := "f " + path + " ";
      line := WriteList(line, list);
      text := text + line;
      text := text + "\n";
      rows := rows + [FileRow(path, list)];
      filesLeft := filesLeft - {path};
      isUpdated := true;
    }
    ListedAll(rows, index);
    hide Parse, Written, Clean, Listed;
    if Fits(index) {
      RoundTrip(rows, index);
    }
  }

  lemma Smaller<K, V>(m: map<K, V>, k: K)
    requires k in m
    ensures |m - {k}| < |m| && m - {k} != m
  {
    assert (m - {k}).Keys == m.Keys - {k};
    assert |m - {k}| == |(m - {k}).Keys|;
  }
}

/** Substring edits on a header text, and what they do to its lines. */
module HeaderLines {
  import opened Wrappers

  const CRLF := "\r\n"

  // ---- strstr

  predicate Occurs(s: string, pat: string, p: int) {
    0 <= p && p + |pat| <= |s| && s[p..p + |pat|] == pat
  }

  /** The first occurrence at or after `from`, or the length. */
  function FindFrom(s: string, pat: string, from: nat): (p: nat)
    requires from <= |s|
    ensures from <= p <= |s|
    ensures p < |s| ==> Occurs(s, pat, p)
    ensures forall q :: from <= q < p ==> !Occurs(s, pat, q)
    decreases |s| - from
  {
    if from == |s| || Occurs(s, pat, from) then from else FindFrom(s, pat, from + 1)
  }

  function Find(s: string, pat: string): (p: nat)
    ensures p <= |s|
    ensures p < |s| ==> Occurs(s, pat, p)
    ensures forall q :: 0 <= q < p ==> !Occurs(s, pat, q)
  {
    FindFrom(s, pat, 0)
  }

  lemma FindIs(s: string, pat: string, p: nat)
    requires p <= |s| && pat != "" && (p < |s| ==> Occurs(s, pat, p))
    requires forall q :: 0 <= q < p ==> !Occurs(s, pat, q)
    ensures Find(s, pat) == p
  {
  }

  // ---- the edits, on texts

  function GetValue(s: string, item: string, end: string): (value: Option<string>) {
    var p := Find(s, item);
    if p + |item| > |s| || p == |s| then None
    else
      var rest := s[p + |item|..];
      var e := Find(rest, end);
      if e == |rest| || e == 0 then None else Some(rest[..e])
  }

  /** The text with the value of the first such item replaced; unchanged where modifyValue fails. */
  function ModifyValue(s: string, item: string, end: string, value: string): (s': string) {
    var p := Find(s, item);
    if p + |item| > |s| || p == |s| then s
    else
      var rest := s[p + |item|..];
      var e := Find(rest, end);
      if e == |rest| || e == 0 then s else s[..p + |item|] + value + rest[e..]
  }

  /** The text with an item put before the first blank line; everything after that line is dropped. */
  function InsertValue(s: string, item: string, value: string): (s': string) {
    var p := Find(s, CRLF + CRLF);
    if p == |s| then s else s[..p] + (CRLF + (item + value) + (CRLF + CRLF))
  }

  /** The non-persistent preparation for one field. */
  function PrepareField(s: string, name: string): (s': string) {
    if Find(s, CRLF + name) < |s| then ModifyValue(s, CRLF + name, CRLF, "close")
    else InsertValue(s, name, "close")
  }

  const CONNECTION := "Connection: "
  const PROXY := "Proxy-Connection: "

  function Prepare(s: string): (s': string) {
    PrepareField(PrepareField(s, CONNECTION), PROXY)
  }

  // ---- header blocks by lines

  /** The lines, each ended, and the blank line. */
  function Text(lines: seq<string>): (s: string) {
    if lines == [] then CRLF else lines[0] + CRLF + Text(lines[1..])
  }

  predicate NoBreaks(s: string) {
    forall k :: 0 <= k < |s| ==> s[k] != '\r' && s[k] != '\n'
  }

  /** A start line and fields: no breaks inside, no empty field line. */
  predicate WellFormed(lines: seq<string>) {
    && lines != []
    && (forall i :: 0 <= i < |lines| ==> NoBreaks(lines[i]))
    && (forall i :: 1 <= i < |lines| ==> lines[i] != "")
  }

  predicate IsField(name: string) {
    name != "" && NoBreaks(name)
  }

  /** The first field line with the name, or the number of lines. */
  function FirstField(lines: seq<string>, name: string): (i: nat)
    requires lines != []
    ensures 1 <= i <= |lines|
    ensures i < |lines| ==> name <= lines[i]
    ensures forall j :: 1 <= j < i ==> !(name <= lines[j])
  {
    if |lines| == 1 || name <= lines[1] then 1 else 1 + FirstField(lines[1..], name)
  }

  /** The value of the first field with the name, unless it is missing or empty. */
  function FieldValue(lines: seq<string>, name: string): (value: Option<string>)
    requires lines != []
  {
    var i := FirstField(lines, name);
    if i == |lines| || lines[i] == name then None else Some(lines[i][|name|..])
  }

  /** The preparation of one field, on lines. */
  function PreparedField(lines: seq<string>, name: string): (lines': seq<string>)
    requires lines != []
  {
    var i := FirstField(lines, name);
    if i == |lines| then lines + [name + "close"]
    else if lines[i] == name then lines
    else lines[i := name + "close"]
  }

  // ---- searching a block

  lemma OccursChar(s: string, pat: string, q: int, k: nat)
    requires k < |pat|
    ensures Occurs(s, pat, q) ==> s[q + k] == pat[k]
  {
    if Occurs(s, pat, q) {
      assert s[q..q + |pat|][k] == s[q + k];
    }
  }

  lemma NotHere(s: string, pat: string, q: nat)
    requires pat != "" && q < |s| && s[q] != pat[0]
    ensures !Occurs(s, pat, q)
  {
    OccursChar(s, pat, q, 0);
  }

  lemma ShiftOccurs(line: string, rest: string, pat: string, q: nat)
    ensures Occurs(line + rest, pat, |line| + q) == Occurs(rest, pat, q)
  {
    var s := line + rest;
    if q + |pat| <= |rest| {
      assert s[|line| + q..|line| + q + |pat|] == rest[q..q + |pat|];
    }
  }

  /** Where the pattern does not occur in the first part, the search moves on to the rest. */
  lemma SkipPart(part: string, rest: string, pat: string)
    requires pat != "" && forall q :: 0 <= q < |part| ==> !Occurs(part + rest, pat, q)
    ensures Find(part + rest, pat) == |part| + Find(rest, pat)
  {
    var s, p := part + rest, Find(rest, pat);
    forall q | 0 <= q < |part| + p ensures !Occurs(s, pat, q) {
      if q >= |part| {
        ShiftOccurs(part, rest, pat, q - |part|);
        assert !Occurs(rest, pat, q - |part|);
      }
    }
    ShiftOccurs(part, rest, pat, p);
    hide Occurs, Find;
    FindIs(s, pat, |part| + p);
  }

  /** A pattern that starts with a carriage return is not found inside a line. */
  lemma SkipPlain(line: string, rest: string, pat: string)
    requires pat != "" && pat[0] == '\r' && NoBreaks(line)
    ensures Find(line + rest, pat) == |line| + Find(rest, pat)
  {
    forall q | 0 <= q < |line| ensures !Occurs(line + rest, pat, q) {
      NotHere(line + rest, pat, q);
    }
    hide Occurs, Find;
    SkipPart(line, rest, pat);
  }

  lemma MatchAtBreak(rest: string, tail: string)
    ensures Occurs(CRLF + rest, CRLF + tail, 0) <==> tail <= rest
  {
    var s, pat := CRLF + rest, CRLF + tail;
    if |tail| <= |rest| {
      assert s[..|pat|] == CRLF + rest[..|tail|];
      assert s[..|pat|][2..] == rest[..|tail|] && pat[2..] == tail;
    }
  }

  /** At a line end, the pattern either matches there or is looked for after it. */
  lemma SkipBreak(rest: string, tail: string)
    ensures Find(CRLF + rest, CRLF + tail) == if tail <= rest then 0 else 2 + Find(rest, CRLF + tail)
  {
    var s, pat := CRLF + rest, CRLF + tail;
    MatchAtBreak(rest, tail);
    if tail <= rest {
      hide Occurs;
      FindIs(s, pat, 0);
    } else {
      NotHere(s, pat, 1);
      hide Occurs, Find;
      SkipPart(CRLF, rest, pat);
    }
  }

  /** A field name begins the text of the lines exactly when it begins the first of them. */
  lemma NameBegins(line: string, rest: string, name: string)
    requires NoBreaks(name)
    ensures name <= line + (CRLF + rest) <==> name <= line
  {
    var s := line + (CRLF + rest);
    if |name| <= |line| {
      assert s[..|name|] == line[..|name|];
    } else {
      assert s[|line|] == '\r' && name[|line|] != '\r';
    }
  }

  // ---- the edits of a block, by lines

  lemma TextFirst(lines: seq<string>)
    requires lines != []
    ensures Text(lines) == lines[0] + (CRLF + Text(lines[1..]))
  {
    assert lines[0] + CRLF + Text(lines[1..]) == lines[0] + (CRLF + Text(lines[1..]));
  }

  /** Where a field pattern is found: at the end of the first line, or further on. */
  lemma FindInBlock(lines: seq<string>, tail: string)
    requires lines != [] && NoBreaks(lines[0])
    ensures Find(Text(lines), CRLF + tail)
         == |lines[0]| + if tail <= Text(lines[1..]) then 0 else 2 + Find(Text(lines[1..]), CRLF + tail)
  {
    TextFirst(lines);
    hide Text, Find;
    SkipPlain(lines[0], CRLF + Text(lines[1..]), CRLF + tail);
    SkipBreak(Text(lines[1..]), tail);
  }

  /** The name begins what follows the first line exactly when it begins the second. */
  lemma NameFollows(lines: seq<string>, name: string)
    requires lines != [] && IsField(name)
    ensures name <= Text(lines[1..]) <==> |lines| > 1 && name <= lines[1]
  {
    if |lines| == 1 {
      assert Text([]) == CRLF;
      assert name[0] != CRLF[0];
    } else {
      TextFirst(lines[1..]);
      hide Text;
      NameBegins(lines[1], Text(lines[2..]), name);
      assert lines[1..][1..] == lines[2..];
    }
  }

  lemma NotInBlank(name: string)
    requires IsField(name)
    ensures Find(CRLF, CRLF + name) == 2
  {
    FindIs(CRLF, CRLF + name, 2);
  }

  /** What the edits do to a text in which the item is found at `p`, between `before` and `rest`. */
  lemma EditsAt(before: string, item: string, v: string, rest: string)
    requires item != "" && NoBreaks(v) && Find(before + (item + (v + (CRLF + rest))), item) == |before|
    ensures var s := before + (item + (v + (CRLF + rest)));
            && GetValue(s, item, CRLF) == (if v == "" then None else Some(v))
            && ModifyValue(s, item, CRLF, "close") ==
                 before + (item + ((if v == "" then v else "close") + (CRLF + rest)))
  {
    var s, after := before + (item + (v + (CRLF + rest))), v + (CRLF + rest);
    assert s[|before| + |item|..] == after;
    SkipPlain(v, CRLF + rest, CRLF);
    assert Find(CRLF + rest, CRLF) == 0 by {
      SkipBreak(rest, "");
      assert CRLF + "" == CRLF;
    }
    assert after[..|v|] == v && after[|v|..] == CRLF + rest;
    assert s[..|before| + |item|] == before + item;
    hide Find;
    assert before + item + "close" + (CRLF + rest) == before + (item + ("close" + (CRLF + rest)));
  }

  /** What they do when the item is only found in the second part. */
  lemma EditsShift(x: string, t: string, item: string)
    requires item != "" && Find(x + t, item) == |x| + Find(t, item)
    ensures GetValue(x + t, item, CRLF) == GetValue(t, item, CRLF)
    ensures ModifyValue(x + t, item, CRLF, "close") == x + ModifyValue(t, item, CRLF, "close")
  {
    var p := Find(t, item);
    if p < |t| {
      assert Occurs(t, item, p);
      var rest := t[p + |item|..];
      var e := Find(rest, CRLF);
      ShiftSlices(x, t, p + |item|, rest[e..]);
    }
    hide Find;
  }

  lemma ShiftSlices(x: string, t: string, n: nat, end: string)
    requires n <= |t|
    ensures (x + t)[|x| + n..] == t[n..]
    ensures (x + t)[..|x| + n] + "close" + end == x + (t[..n] + "close" + end)
  {
    assert (x + t)[..|x| + n] == x + t[..n];
  }

  /** The edit of one field, on lines. */
  function ModifiedField(lines: seq<string>, name: string): (lines': seq<string>)
    requires lines != []
  {
    var i := FirstField(lines, name);
    if i == |lines| || lines[i] == name then lines else lines[i := name + "close"]
  }

  /** What the text edits mean on the lines of a block. */
  ghost predicate EditsMean(lines: seq<string>, name: string)
    requires lines != []
  {
    var s, item := Text(lines), CRLF + name;
    && (Find(s, item) < |s| <==> FirstField(lines, name) < |lines|)
    && GetValue(s, item, CRLF) == FieldValue(lines, name)
    && ModifyValue(s, item, CRLF, "close") == Text(ModifiedField(lines, name))
  }

  lemma {:induction false} SecondLine(lines: seq<string>, name: string, v: string)
    requires |lines| > 1 && lines[1] == name + v
    ensures Text(lines) == lines[0] + ((CRLF + name) + (v + (CRLF + Text(lines[2..]))))
  {
    TextFirst(lines);
    TextFirst(lines[1..]);
    assert lines[1..][1..] == lines[2..] && lines[1..][0] == lines[1];
    var rest := Text(lines[2..]);
    hide Text;
    assert CRLF + (name + v + (CRLF + rest)) == (CRLF + name) + (v + (CRLF + rest));
  }

  lemma EditsAtSecond(lines: seq<string>, name: string)
    requires WellFormed(lines) && IsField(name) && |lines| > 1 && name <= lines[1]
    ensures EditsMean(lines, name)
  {
    var v, lines' := lines[1][|name|..], lines[1 := name + "close"];
    assert FirstField(lines, name) == 1 && lines[1] == name + v && NoBreaks(v);
    assert v == "" <==> lines[1] == name;
    assert lines'[2..] == lines[2..] && lines'[0] == lines[0];
    hide Text, Find, GetValue, ModifyValue, FirstField, NoBreaks;
    NameFollows(lines, name);
    FindInBlock(lines, name);
    SecondLine(lines, name, v);
    SecondLine(lines', name, "close");
    EditsAt(lines[0], CRLF + name, v, Text(lines[2..]));
  }

  lemma EditsFurtherOn(lines: seq<string>, name: string)
    requires WellFormed(lines) && IsField(name) && |lines| > 1 && !(name <= lines[1])
    requires EditsMean(lines[1..], name)
    ensures EditsMean(lines, name)
  {
    var item, x, tail := CRLF + name, lines[0] + CRLF, lines[1..];
    NameFollows(lines, name);
    FindInBlock(lines, name);
    assert Text(lines) == x + Text(tail);
    EditsShift(x, Text(tail), item);
    var i := FirstField(tail, name);
    assert FirstField(lines, name) == 1 + i;
    if i < |tail| && tail[i] != name {
      var tail', lines' := tail[i := name + "close"], lines[1 + i := name + "close"];
      assert lines'[1..] == tail' && lines'[0] == lines[0];
      assert Text(lines') == x + Text(tail');
    }
  }

  lemma {:induction false} EditsInLines(lines: seq<string>, name: string)
    requires WellFormed(lines) && IsField(name)
    ensures EditsMean(lines, name)
    decreases |lines|
  {
    if |lines| == 1 {
      NameFollows(lines, name);
      FindInBlock(lines, name);
      assert Text(lines[1..]) == CRLF;
      NotInBlank(name);
      TextFirst(lines);
      hide Find, Text;
    } else {
      var tail := lines[1..];
      assert WellFormed(tail);
      hide EditsMean;
      if name <= lines[1] {
        EditsAtSecond(lines, name);
      } else {
        EditsInLines(tail, name);
        EditsFurtherOn(lines, name);
      }
    }
  }

  // ---- insertion

  /** The first blank line is the end of the block. */
  lemma {:induction false} BlankAtEnd(lines: seq<string>)
    requires WellFormed(lines)
    ensures Find(Text(lines), CRLF + CRLF) == |Text(lines)| - 4
    decreases |lines|
  {
    TextFirst(lines);
    FindInBlock(lines, CRLF);
    if |lines| == 1 {
      assert Text(lines[1..]) == CRLF;
    } else {
      var tail := lines[1..];
      assert WellFormed(tail);
      TextFirst(tail);
      assert Text(tail)[0] == tail[0][0] != '\r';
      hide Text, Find;
      BlankAtEnd(tail);
    }
  }

  lemma {:induction false} TextLast(lines: seq<string>, line: string)
    requires lines != []
    ensures |Text(lines)| >= 4
    ensures Text(lines + [line]) == Text(lines)[..|Text(lines)| - 4] + (CRLF + line + (CRLF + CRLF))
    decreases |lines|
  {
    var all, tail := lines + [line], lines[1..];
    TextFirst(lines);
    TextFirst(all);
    assert all[1..] == tail + [line] && all[0] == lines[0];
    if |lines| == 1 {
      assert Text(tail) == CRLF && tail + [line] == [line];
      assert Text([line]) == line + (CRLF + CRLF) by {
        TextFirst([line]);
        assert Text([]) == CRLF && [line][1..] == [];
      }
      assert Text(lines)[..|lines[0]|] == lines[0];
    } else {
      hide Text;
      TextLast(tail, line);
      var t := Text(tail);
      assert (lines[0] + (CRLF + t))[..|lines[0]| + 2 + |t| - 4] == lines[0] + (CRLF + t[..|t| - 4]);
    }
  }

  lemma InsertInLines(lines: seq<string>, name: string, value: string)
    requires WellFormed(lines)
    ensures InsertValue(Text(lines), name, value) == Text(lines + [name + value])
  {
    BlankAtEnd(lines);
    TextLast(lines, name + value);
    hide Text, Find;
  }

  // ---- the preparation

  lemma PreparedIsWellFormed(lines: seq<string>, name: string)
    requires WellFormed(lines) && IsField(name)
    ensures WellFormed(PreparedField(lines, name))
  {
    assert NoBreaks(name + "close");
    hide NoBreaks, FirstField;
  }

  lemma PrepareFieldInLines(lines: seq<string>, name: string)
    requires WellFormed(lines) && IsField(name)
    ensures PrepareField(Text(lines), name) == Text(PreparedField(lines, name))
  {
    hide Text, Find, ModifyValue, InsertValue, GetValue, FirstField, NoBreaks, IsField, WellFormed;
    EditsInLines(lines, name);
    InsertInLines(lines, name, "close");
  }

  lemma FirstFieldIs(lines: seq<string>, name: string, i: nat)
    requires 1 <= i <= |lines| && (i < |lines| ==> name <= lines[i])
    requires forall j :: 1 <= j < i ==> !(name <= lines[j])
    ensures FirstField(lines, name) == i
  {
  }

  /** After its preparation a field reads "close", unless its first line was there and empty. */
  lemma PreparedFieldReads(lines: seq<string>, name: string)
    requires lines != [] && name != ""
    ensures var i := FirstField(lines, name);
            && FirstField(PreparedField(lines, name), name) == i
            && (FieldValue(PreparedField(lines, name), name) == Some("close") <==> !(i < |lines| && lines[i] == name))
  {
    var i, lines' := FirstField(lines, name), PreparedField(lines, name);
    assert name <= name + "close" && (name + "close")[|name|..] == "close";
    FirstFieldIs(lines', name, i);
  }

  /** Preparing one field leaves a field of another name alone. */
  lemma OtherFieldStays(lines: seq<string>, name: string, other: string)
    requires lines != [] && name != "" && other != "" && name[0] != other[0]
    ensures FieldValue(PreparedField(lines, name), other) == FieldValue(lines, other)
    ensures var i, j := FirstField(lines, other), FirstField(PreparedField(lines, name), other);
            if i < |lines| then j == i && PreparedField(lines, name)[i] == lines[i]
            else j == |PreparedField(lines, name)|
  {
    var i, lines' := FirstField(lines, other), PreparedField(lines, name);
    var k := FirstField(lines, name);
    assert (name + "close")[0] == name[0];
    assert !(other <= name + "close");
    assert k < |lines| ==> !(other <= lines[k]);
    FirstFieldIs(lines', other, if i < |lines| then i else |lines'|);
  }

  /** The two preparations, for any two fields whose names begin differently. */
  lemma TwoFields(lines: seq<string>, a: string, b: string)
    requires WellFormed(lines) && IsField(a) && IsField(b) && a[0] != b[0]
    ensures var s, c, p := PrepareField(PrepareField(Text(lines), a), b), FirstField(lines, a), FirstField(lines, b);
            (GetValue(s, CRLF + a, CRLF) == Some("close") && GetValue(s, CRLF + b, CRLF) == Some("close"))
            <==> !(c < |lines| && lines[c] == a) && !(p < |lines| && lines[p] == b)
  {
    assert a != "" && b != "" && lines != [];
    var once := PreparedField(lines, a);
    assert once != [];
    hide *;
    var twice := PreparedField(once, b);
    PrepareFieldInLines(lines, a);
    PreparedIsWellFormed(lines, a);
    PrepareFieldInLines(once, b);
    PreparedIsWellFormed(once, b);
    FieldReads(twice, a);
    FieldReads(twice, b);
    PreparedFieldReads(lines, a);
    PreparedFieldReads(once, b);
    OtherFieldStays(lines, a, b);
    OtherFieldStays(once, b, a);
  }

  lemma FieldReads(lines: seq<string>, name: string)
    requires WellFormed(lines) && IsField(name)
    ensures lines != [] && GetValue(Text(lines), CRLF + name, CRLF) == FieldValue(lines, name)
  {
    EditsInLines(lines, name);
    hide Text, GetValue, ModifyValue, Find;
  }

  lemma {:induction false} TwoFieldsLines(lines: seq<string>, a: string, b: string)
    requires WellFormed(lines) && IsField(a) && IsField(b) && a[0] != b[0]
    ensures var lines', c, p := PreparedField(PreparedField(lines, a), b), FirstField(lines, a), FirstField(lines, b);
            && PrepareField(PrepareField(Text(lines), a), b) == Text(lines')
            && |lines'| == |lines| + (if c == |lines| then 1 else 0) + (if p == |lines| then 1 else 0)
            && (forall i :: 0 <= i < |lines| && i != c && i != p ==> lines'[i] == lines[i])
  {
    PrepareFieldInLines(lines, a);
    PreparedIsWellFormed(lines, a);
    PrepareFieldInLines(PreparedField(lines, a), b);
    OtherFieldStays(lines, a, b);
    hide Text, PrepareField, FirstField, NoBreaks;
  }

  lemma FieldNames()
    ensures IsField(CONNECTION) && IsField(PROXY) && CONNECTION[0] != PROXY[0]
  {
    assert CONNECTION[0] == 'C' && PROXY[0] == 'P';
  }

  /**
     After the preparation of any well-formed block both fields read "close", if and only
     if neither was present with an empty value; no earlier match appears.
     */
  lemma BothFieldsClose(lines: seq<string>)
    requires WellFormed(lines)
    ensures var c, p := FirstField(lines, CONNECTION), FirstField(lines, PROXY);
            (GetValue(Prepare(Text(lines)), CRLF + CONNECTION, CRLF) == Some("close")
             && GetValue(Prepare(Text(lines)), CRLF + PROXY, CRLF) == Some("close"))
            <==> !(c < |lines| && lines[c] == CONNECTION) && !(p < |lines| && lines[p] == PROXY)
  {
    FieldNames();
    TwoFields(lines, CONNECTION, PROXY);
    hide Text, GetValue, PrepareField, FirstField;
  }

  /** Every other line of the block is unchanged, and only missing fields are added, at the end. */
  lemma OtherLinesUnchanged(lines: seq<string>)
    requires WellFormed(lines)
    ensures var lines', c, p := PreparedField(PreparedField(lines, CONNECTION), PROXY),
                                FirstField(lines, CONNECTION), FirstField(lines, PROXY);
            && Prepare(Text(lines)) == Text(lines')
            && |lines'| == |lines| + (if c == |lines| then 1 else 0) + (if p == |lines| then 1 else 0)
            && (forall i :: 0 <= i < |lines| && i != c && i != p ==> lines'[i] == lines[i])
  {
    FieldNames();
    TwoFieldsLines(lines, CONNECTION, PROXY);
    hide Text, PrepareField, PreparedField, FirstField;
  }
}

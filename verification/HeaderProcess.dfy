/** The header editor over its message buffer: a NUL-terminated text, rewritten in place. */
module HeaderProcess {
  import opened HeaderLines
  import opened Wrappers

  const NUL := '\0'

  /** Room for the text saved while a value is replaced, and for an inserted field. */
  const TEMP := 1000

  ghost predicate Clean(s: string) {
    forall k :: 0 <= k < |s| ==> s[k] != NUL
  }

  class Message {
    const buf: array<char>

    /** The buffer holds the text, terminated. */
    ghost predicate Holds(s: string)
      reads buf
    {
      |s| < buf.Length && buf[..|s|] == s && buf[|s|] == NUL && Clean(s)
    }

    constructor (size: nat, s: string)
      requires |s| < size && Clean(s)
      ensures Holds(s) && buf.Length == size && fresh(buf)
    {
      buf := new char[size](k => if 0 <= k < |s| then s[k] else NUL);
      new;
      assert buf[..|s|] == s;
    }

    /** Whether the pattern stands at `at`; stops at the terminator. */
    method Matches(ghost s: string, at: nat, pat: string) returns (yes: bool)
      requires Holds(s) && at <= |s| && Clean(pat)
      ensures yes <==> Occurs(s, pat, at)
    {
      var k := 0;
      while k < |pat| && buf[at + k] == pat[k]
        invariant 0 <= k <= |pat| && at + k <= |s|
        invariant s[at..at + k] == pat[..k]
      {
        assert pat[k] != NUL && at + k != |s|;
        assert buf[..|s|][at + k] == s[at + k];
        assert s[at..at + k + 1] == s[at..at + k] + [s[at + k]];
        k := k + 1;
      }
      yes := k == |pat|;
      if at + |pat| <= |s| && !yes {
        assert s[at..at + |pat|][k] == s[at + k] == buf[..|s|][at + k];
      }
    }

    /** strstr from an offset: the position of the first occurrence, or -1. */
    method StrStr(ghost s: string, from: nat, pat: string) returns (p: int)
      requires Holds(s) && from <= |s| && Clean(pat) && pat != ""
      ensures p == if FindFrom(s, pat, from) == |s| then -1 else FindFrom(s, pat, from)
    {
      var i := from;
      while buf[i] != NUL
        invariant from <= i <= |s|
        invariant FindFrom(s, pat, i) == FindFrom(s, pat, from)
        decreases |s| - i
      {
        var yes := Matches(s, i, pat);
        if yes {
          return i;
        }
        i := i + 1;
      }
      p := -1;
    }

    /** strcpy from an offset into a temporary: the text up to the terminator. */
    method CopyOut(ghost s: string, from: nat) returns (t: string)
      requires Holds(s) && from <= |s| && |s| - from < TEMP
      ensures t == s[from..]
    {
      t := "";
      var i := from;
      while buf[i] != NUL
        invariant from <= i <= |s| && t == s[from..i]
        decreases |s| - i
      {
        assert buf[..|s|][i] == s[i] && s[from..i + 1] == s[from..i] + [s[i]];
        t := t + [buf[i]];
        i := i + 1;
      }
    }

    /** strcpy to an offset. */
    method CopyIn(ghost s: string, at: nat, t: string)
      requires Holds(s) && at <= |s| && at + |t| < buf.Length && Clean(t)
      modifies buf
      ensures Holds(s[..at] + t)
    {
      ghost var before := buf[..at];
      assert before == s[..at];
      for i := 0 to |t|
        invariant buf[..at] == before && buf[at..at + i] == t[..i]
      {
        buf[at + i] := t[i];
        assert buf[at..at + i + 1] == buf[at..at + i] + [t[i]];
      }
      buf[at + |t|] := NUL;
      assert t[..|t|] == t;
      assert buf[..at + |t|] == buf[..at] + buf[at..at + |t|];
    }

    method IsItem(ghost s: string, item: string) returns (yes: bool)
      requires Holds(s) && Clean(item) && item != ""
      ensures yes <==> Find(s, item) < |s|
    {
      var p := StrStr(s, 0, item);
      yes := p != -1;
    }

    /** The positions that both edits compute: the start of the value, and the end mark. */
    method Locate(ghost s: string, item: string, end: string) returns (found: bool, start: nat, e: nat)
      requires Holds(s) && Clean(item) && Clean(end) && item != "" && end != ""
      ensures Located(s, item, end, found, start, e)
    {
      found, start, e := false, 0, 0;
      hide Find, FindFrom, Occurs;
      var p := StrStr(s, 0, item);
      if p == -1 {
        return;
      }
      start := p + |item|;
      var q := StrStr(s, start, end);
      FindSuffix(s, end, start);
      if q == -1 || q == start {
        return;
      }
      found, e := true, q;
    }

    /** The value between an item and the next end mark. */
    method ReadValue(ghost s: string, item: string, end: string) returns (value: Option<string>)
      requires Holds(s) && Clean(item) && Clean(end) && item != "" && end != ""
      ensures value == GetValue(s, item, end)
    {
      var found, start, e := Locate(s, item, end);
      LocatedIs(s, item, end, "", found, start, e);
      hide Find, GetValue;
      if !found {
        return None;
      }
      var text := buf[..e];
      assert text == buf[..|s|][..e] == s[..e];
      value := Some(text[start..]);
      assert s[..e][start..] == s[start..e];
    }

    /** modifyValue, for a text that still fits and a tail that fits its temporary. */
    method Modify(ghost s: string, item: string, end: string, value: string) returns (ok: bool)
      requires Holds(s) && Clean(item) && Clean(end) && Clean(value) && item != "" && end != ""
      requires TailFits(s, item, end) && |ModifyValue(s, item, end, value)| < buf.Length
      modifies buf
      ensures Holds(ModifyValue(s, item, end, value))
      ensures ok <==> GetValue(s, item, end) != None
    {
      var start, e;
      ok, start, e := Locate(s, item, end);
      LocatedIs(s, item, end, value, ok, start, e);
      hide Find, GetValue, ModifyValue, Located, Holds, Clean;
      if ok {
        Replace(s, start, e, value);
      }
    }

    /** The tail is saved, the value written over what was there, and the tail put back. */
    method Replace(ghost s: string, start: nat, e: nat, value: string)
      requires Holds(s) && Clean(value) && start <= e <= |s|
      requires |s| - e < TEMP && start + |value| + (|s| - e) < buf.Length
      modifies buf
      ensures Holds(s[..start] + value + s[e..])
    {
      var temp := CopyOut(s, e);
      assert Clean(temp);
      hide Holds, Clean;
      CopyIn(s, start, value);
      ghost var cut := s[..start] + value;
      CopyIn(cut, start + |value|, temp);
      assert cut[..start + |value|] == cut;
    }

    /** The text from the end mark on fits the temporary of modifyValue. */
    static ghost predicate TailFits(s: string, item: string, end: string) {
      forall start, e :: Located(s, item, end, true, start, e) ==> |s| - e < TEMP
    }

    /** Where the item's value stands, if it is there and not empty. */
    static ghost predicate Located(s: string, item: string, end: string, found: bool, start: nat, e: nat) {
      var p := Find(s, item);
      if p == |s| || p + |item| > |s| then !found
      else
        var q := Find(s[p + |item|..], end);
        && (found <==> q > 0 && p + |item| + q < |s|)
        && (found ==> start == p + |item| && e == start + q)
    }

    static lemma LocatedIs(s: string, item: string, end: string, value: string, found: bool, start: nat, e: nat)
      requires Located(s, item, end, found, start, e)
      ensures found <==> GetValue(s, item, end) != None
      ensures found ==> start <= e <= |s| && GetValue(s, item, end) == Some(s[start..e])
      ensures ModifyValue(s, item, end, value) == if found then s[..start] + value + s[e..] else s
    {
      if found {
        assert s[start..][..e - start] == s[start..e];
        assert s[start..][e - start..] == s[e..];
      }
      hide Find;
    }

    static lemma FindSuffix(s: string, pat: string, from: nat)
      requires from <= |s| && pat != ""
      ensures FindFrom(s, pat, from) == from + Find(s[from..], pat)
    {
      var rest, p := s[from..], FindFrom(s, pat, from);
      assert s[..from] + rest == s;
      forall q: nat ensures Occurs(s, pat, from + q) == Occurs(rest, pat, q) {
        ShiftOccurs(s[..from], rest, pat, q);
      }
      forall q | 0 <= q < p - from ensures !Occurs(rest, pat, q) {
        assert !Occurs(s, pat, from + q);
      }
      assert p < |s| ==> Occurs(s, pat, from + (p - from));
      hide Occurs, Find, FindFrom;
      FindIs(rest, pat, p - from);
    }

    /** insertValue; the temporary must hold the field and the blank line. */
    method Insert(ghost s: string, item: string, value: string) returns (ok: bool)
      requires Holds(s) && Clean(item) && Clean(value)
      requires |item| + |value| + 6 < TEMP && |InsertValue(s, item, value)| < buf.Length
      modifies buf
      ensures Holds(InsertValue(s, item, value))
      ensures ok <==> Find(s, CRLF + CRLF) < |s|
    {
      var temp := CRLF + (item + value) + (CRLF + CRLF);
      var p := StrStr(s, 0, CRLF + CRLF);
      if p == -1 {
        return false;
      }
      CopyIn(s, p, "");
      assert s[..p] + "" == s[..p];
      CopyIn(s[..p], p, temp);
      assert s[..p][..p] == s[..p];
      ok := true;
    }

    /** The text of the preparation of one field fits the buffer, and its tail the temporary. */
    ghost predicate Fits(s: string, name: string) {
      && (Find(s, CRLF + name) < |s| ==> TailFits(s, CRLF + name, CRLF))
      && |PrepareField(s, name)| < buf.Length
      && |name| + 11 < TEMP
    }

    /** One field of the non-persistent preparation. */
    method PrepareOne(ghost s: string, name: string)
      requires Holds(s) && Clean(name) && Fits(s, name)
      modifies buf
      ensures Holds(PrepareField(s, name))
    {
      hide Find, TailFits, ModifyValue, InsertValue, GetValue;
      var found := IsItem(s, CRLF + name);
      if found {
        var ok := Modify(s, CRLF + name, CRLF, "close");
      } else {
        var ok := Insert(s, name, "close");
      }
    }

    static lemma CleanNames()
      ensures Clean(CONNECTION) && Clean(PROXY)
    {
    }

    static lemma PreparedLines(lines: seq<string>)
      requires WellFormed(lines)
      ensures lines != [] && PreparedField(lines, CONNECTION) != []
      ensures Prepare(Text(lines)) == PrepareField(PrepareField(Text(lines), CONNECTION), PROXY)
      ensures Prepare(Text(lines)) == Text(PreparedField(PreparedField(lines, CONNECTION), PROXY))
    {
      hide Text, PrepareField, FirstField;
      OtherLinesUnchanged(lines);
    }

    /** A block with one of the two fields. */
    static lemma PreparedExample()
      ensures Prepare("GET / HTTP/1.1" + "\r\n" + "Host: a" + "\r\n" + "Connection: keep-alive" + "\r\n" + "\r\n")
              == "GET / HTTP/1.1" + "\r\n" + "Host: a" + "\r\n" + "Connection: close" + "\r\n"
                 + "Proxy-Connection: close" + "\r\n" + "\r\n"
    {
      var lines := ["GET / HTTP/1.1", "Host: a", "Connection: keep-alive"];
      assert WellFormed(lines);
      hide *;
      FirstFieldReplaced();
      SecondFieldAppended();
      PreparedLines(lines);
      TextOfThree("GET / HTTP/1.1", "Host: a", "Connection: keep-alive");
      TextOfFour("GET / HTTP/1.1", "Host: a", "Connection: close", "Proxy-Connection: close");
      assert CONNECTION == "Connection: " && PROXY == "Proxy-Connection: " by { FieldNames(); }
    }

    static lemma FieldNames()
      ensures CONNECTION == "Connection: " && PROXY == "Proxy-Connection: "
    {
    }

    static lemma FirstFieldReplaced()
      ensures PreparedField(["GET / HTTP/1.1", "Host: a", "Connection: keep-alive"], "Connection: ")
              == ["GET / HTTP/1.1", "Host: a", "Connection: close"]
    {
      var lines := ["GET / HTTP/1.1", "Host: a", "Connection: keep-alive"];
      assert lines[1..] == ["Host: a", "Connection: keep-alive"];
      assert lines[1][0] != "Connection: "[0] && "Connection: " <= lines[2];
      assert FirstField(lines, "Connection: ") == 2;
      hide FirstField;
      assert "Connection: " + "close" == "Connection: close" && |lines[2]| == 22 && |"Connection: "| == 12;
    }

    static lemma SecondFieldAppended()
      ensures PreparedField(["GET / HTTP/1.1", "Host: a", "Connection: close"], "Proxy-Connection: ")
              == ["GET / HTTP/1.1", "Host: a", "Connection: close", "Proxy-Connection: close"]
    {
      var lines := ["GET / HTTP/1.1", "Host: a", "Connection: close"];
      assert lines[1][0] != "Proxy-Connection: "[0] && lines[2][0] != "Proxy-Connection: "[0];
      assert lines[1..] == ["Host: a", "Connection: close"] && lines[1..][1..] == ["Connection: close"];
      assert FirstField(lines, "Proxy-Connection: ") == 3;
      hide FirstField;
      assert "Proxy-Connection: " + "close" == "Proxy-Connection: close";
    }

    static lemma TextOfThree(a: string, b: string, c: string)
      ensures Text([a, b, c]) == a + "\r\n" + b + "\r\n" + c + "\r\n" + "\r\n"
    {
      assert [a, b, c][1..] == [b, c] && [b, c][1..] == [c] && [c][1..] == [];
      assert Text([c]) == c + CRLF + CRLF;
      assert Text([b, c]) == b + CRLF + Text([c]);
      assert Text([a, b, c]) == a + CRLF + Text([b, c]);
    }

    static lemma TextOfFour(a: string, b: string, c: string, d: string)
      ensures Text([a, b, c, d]) == a + "\r\n" + b + "\r\n" + c + "\r\n" + d + "\r\n" + "\r\n"
    {
      assert [a, b, c, d][1..] == [b, c, d];
      TextOfThree(b, c, d);
      assert Text([a, b, c, d]) == a + CRLF + Text([b, c, d]);
    }

    /** The preparation, on a block of lines that fits the buffers at each step. */
    method PrepareBlock(ghost lines: seq<string>)
      requires WellFormed(lines) && Holds(Text(lines))
      requires Fits(Text(lines), CONNECTION) && Fits(PrepareField(Text(lines), CONNECTION), PROXY)
      modifies buf
      ensures Holds(Prepare(Text(lines)))
      ensures Holds(Text(PreparedField(PreparedField(lines, CONNECTION), PROXY)))
    {
      hide *;
      CleanNames();
      PreparedLines(lines);
      PrepareOne(Text(lines), CONNECTION);
      PrepareOne(PrepareField(Text(lines), CONNECTION), PROXY);
    }
  }
}

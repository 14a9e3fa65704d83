/**
 What the chunking loop uploads, said directly on the file, also when a refill of the
 buffer tears a chunk: which bytes are left out, which stale ones are added at the end,
 and exactly when the uploads still are the file.
 */
module TornChunks {
  import opened Fingerprint
  import opened GreedyChunks

  /** Uploaded chunks, sizes refused by the checksum, and whether a copy overflowed. */
  datatype Outcome = Outcome(uploads: seq<Bytes>, refused: seq<nat>, thrown: bool)

  /** Bytes of the chunk [h, e) before the last refill that precedes the discovery of its end. */
  function Carried(h: nat, e: nat, m: nat, stride: nat): (c: nat)
    requires stride > 0
    ensures c > 0 <==> Torn(h, e, m, stride)
    ensures c > 0 ==> h + c + m < e
    decreases e - h
  {
    var r := RefillAfter(h, stride);
    if r + m < e then r - h + Carried(r, e, m, stride) else 0
  }

  /** The carry buffer after a whole chunk went through it. */
  ghost function Overlay(chunk: Bytes, room: Bytes): (room': Bytes) {
    if |chunk| <= |room| then chunk + room[|chunk|..] else chunk
  }

  ghost function NextEnd(p: Params, file: Bytes, head: nat): (e: nat)
    requires head < |file|
    ensures head < e <= |file|
    ensures e < |file| ==> p.m <= e
  {
    head + NextCut(p, file[head..], 1)
  }

  /** A torn chunk that ends at the maximum size and at no anchor. */
  ghost predicate Overruns(p: Params, stride: nat, file: Bytes, head: nat, e: nat)
    requires stride > 0 && p.m <= e <= |file|
  {
    Torn(head, e, p.m, stride) && !IsAnchor(file[e - p.m..e], p.d, p.b)
  }

  /**
     The rest of the outcome from the chunk boundary `head` on. `room` is the carry buffer
     and `lag` the number of bytes that torn chunks have left out so far. A torn chunk loses
     its last bytes, as many as were carried; the last chunk is prolonged by `lag` stale bytes.
     */
  ghost function LoopOutcome(p: Params, stride: nat, file: Bytes, head: nat, room: Bytes, lag: nat): (o: Outcome)
    requires stride > 0 && head <= |file|
    decreases |file| - head
  {
    if head == |file| then Outcome([], [], false)
    else
      var e := NextEnd(p, file, head);
      var room' := Overlay(file[head..e], room);
      if e == |file| then
        if e - head + lag <= |room| then Outcome([room'[..e - head + lag]], [], false)
        else Outcome([], [e - head + lag], false)
      else if Overruns(p, stride, file, head, e) then Outcome([], [], true)
      else
        var c := Carried(head, e, p.m, stride);
        var o := LoopOutcome(p, stride, file, e, room', lag + c);
        o.(uploads := [file[head..e - c]] + o.uploads)
  }

  ghost function Blank(x: nat): (room: Bytes) {
    seq(x, _ => 0)
  }

  ghost function FileOutcome(p: Params, stride: nat, file: Bytes): (o: Outcome)
    requires stride > 0
  {
    LoopOutcome(p, stride, file, 0, Blank(p.x), 0)
  }

  lemma ChunkFits(p: Params, file: Bytes, head: nat)
    requires p.Usable() && head < |file|
    ensures NextEnd(p, file, head) - head <= p.x
  {
    if NextEnd(p, file, head) - head > p.x {
      assert CutAt(p, file[head..], p.x);
    }
  }

  lemma OverlayFits(p: Params, file: Bytes, head: nat, room: Bytes)
    requires p.Usable() && head < |file| && |room| == p.x
    ensures |Overlay(file[head..NextEnd(p, file, head)], room)| == p.x
  {
    ChunkFits(p, file, head);
  }

  /** The outcome at a cut that is not the end of the file. */
  lemma OutcomeCut(p: Params, stride: nat, file: Bytes, head: nat, room: Bytes, lag: nat)
    requires stride > 0 && head < |file| && NextEnd(p, file, head) < |file|
    ensures var e := NextEnd(p, file, head);
            var c, room' := Carried(head, e, p.m, stride), Overlay(file[head..e], room);
            var o, o' := LoopOutcome(p, stride, file, head, room, lag), LoopOutcome(p, stride, file, e, room', lag + c);
            o == if Overruns(p, stride, file, head, e) then Outcome([], [], true)
                 else o'.(uploads := [file[head..e - c]] + o'.uploads)
  {
    hide Overruns, Overlay, Carried, NextEnd;
  }

  lemma OutcomeLast(p: Params, stride: nat, file: Bytes, head: nat, room: Bytes, lag: nat)
    requires stride > 0 && head < |file| && NextEnd(p, file, head) == |file|
    ensures var l := |file| - head;
            LoopOutcome(p, stride, file, head, room, lag) ==
              if l + lag <= |room| then Outcome([file[head..] + room[l..l + lag]], [], false)
              else Outcome([], [l + lag], false)
  {
    hide NextEnd;
    var l := |file| - head;
    assert file[head..|file|] == file[head..];
    if l + lag <= |room| {
      assert (file[head..] + room[l..])[..l + lag] == file[head..] + room[l..l + lag];
    }
  }

  // ---- files without torn chunks

  lemma GreedyFrom(p: Params, file: Bytes, head: nat)
    requires head < |file|
    ensures var e := NextEnd(p, file, head);
            && Greedy(p, file[head..]) == [file[head..e]] + Greedy(p, file[e..])
            && (e == |file| ==> Greedy(p, file[e..]) == [])
  {
    var e := NextEnd(p, file, head);
    assert file[head..][..e - head] == file[head..e] && file[head..][e - head..] == file[e..];
  }

  lemma IntactFrom(p: Params, stride: nat, file: Bytes, head: nat)
    requires stride > 0 && head < |file|
    ensures var e := NextEnd(p, file, head);
            Intact(p, file[head..], head, stride) <==>
              e == |file| || (!Torn(head, e, p.m, stride) && Intact(p, file[e..], e, stride))
  {
    var e := NextEnd(p, file, head);
    assert file[head..][e - head..] == file[e..];
  }

  /** The uploads are the greedy chunks exactly when no chunk but the last is torn. */
  lemma {:induction false} GreedyIffIntactFrom(p: Params, stride: nat, file: Bytes, head: nat, room: Bytes)
    requires stride > 0 && head <= |file| && p.Usable() && |room| == p.x
    ensures LoopOutcome(p, stride, file, head, room, 0).uploads == Greedy(p, file[head..])
            <==> Intact(p, file[head..], head, stride)
    ensures Intact(p, file[head..], head, stride) ==>
              LoopOutcome(p, stride, file, head, room, 0) == Outcome(Greedy(p, file[head..]), [], false)
    decreases |file| - head
  {
    hide *;
    if head == |file| {
      NothingLeft(p, stride, file, room);
    } else {
      var e := NextEnd(p, file, head);
      GreedyFrom(p, file, head);
      IntactFrom(p, stride, file, head);
      OverlayFits(p, file, head, room);
      if e == |file| {
        OutcomeLast(p, stride, file, head, room, 0);
        ChunkFits(p, file, head);
        NothingStale(file, head, room);
      } else {
        OutcomeCut(p, stride, file, head, room, 0);
        OverrunsIsTorn(p, stride, file, head, e);
        var c, room' := Carried(head, e, p.m, stride), Overlay(file[head..e], room);
        var ups := LoopOutcome(p, stride, file, e, room', c).uploads;
        if c == 0 {
          GreedyIffIntactFrom(p, stride, file, e, room');
          PrependSame(file[head..e], ups, Greedy(p, file[e..]));
        } else {
          FirstDiffers(file[head..e - c], ups, file[head..e], Greedy(p, file[e..]));
        }
      }
    }
  }

  lemma NothingLeft(p: Params, stride: nat, file: Bytes, room: Bytes)
    requires stride > 0
    ensures LoopOutcome(p, stride, file, |file|, room, 0) == Outcome([], [], false)
    ensures Greedy(p, file[|file|..]) == [] && Intact(p, file[|file|..], |file|, stride)
  {
    assert file[|file|..] == [];
  }

  lemma NothingStale(file: Bytes, head: nat, room: Bytes)
    requires head <= |file| && |file| - head <= |room|
    ensures file[head..] + room[|file| - head..|file| - head + 0] == file[head..|file|]
    ensures forall g :: [file[head..|file|]] + g == [file[head..|file|]] <==> g == []
  {
    forall g | [file[head..|file|]] + g == [file[head..|file|]] ensures g == [] {
      assert |[file[head..|file|]] + g| == 1 + |g|;
    }
    assert forall g :: g == [] ==> [file[head..|file|]] + g == [file[head..|file|]];
  }

  lemma OverrunsIsTorn(p: Params, stride: nat, file: Bytes, head: nat, e: nat)
    requires stride > 0 && p.m <= e <= |file|
    ensures Overruns(p, stride, file, head, e) ==> Torn(head, e, p.m, stride)
  {
  }

  lemma FirstDiffers(a: Bytes, as': seq<Bytes>, b: Bytes, bs: seq<Bytes>)
    requires |a| != |b|
    ensures [a] + as' != [b] + bs && [] != [b] + bs
  {
    assert ([a] + as')[0] == a && ([b] + bs)[0] == b;
  }

  lemma PrependSame(chunk: Bytes, a: seq<Bytes>, b: seq<Bytes>)
    ensures [chunk] + a == [chunk] + b <==> a == b
  {
    assert ([chunk] + a)[1..] == a && ([chunk] + b)[1..] == b;
  }

  lemma GreedyIffIntact(p: Params, stride: nat, file: Bytes)
    requires stride > 0 && p.Usable()
    ensures FileOutcome(p, stride, file).uploads == Greedy(p, file) <==> Intact(p, file, 0, stride)
    ensures Intact(p, file, 0, stride) ==> FileOutcome(p, stride, file) == Outcome(Greedy(p, file), [], false)
  {
    GreedyIffIntactFrom(p, stride, file, 0, Blank(p.x));
    assert file[0..] == file;
  }

  /** Resynchronisation of what is uploaded: alike from a common cut before a common end. */
  lemma UploadsResynchronise(p: Params, stride: nat, stride': nat, f: Bytes, f': Bytes, s: Bytes, k: nat, k': nat)
    requires stride > 0 && stride' > 0 && p.Usable()
    requires Intact(p, f, 0, stride) && Intact(p, f', 0, stride')
    requires CutsBefore(p, f, s, k) && CutsBefore(p, f', s, k')
    ensures var ups, ups' := FileOutcome(p, stride, f).uploads, FileOutcome(p, stride', f').uploads;
            k <= |ups| && k' <= |ups'| && ups[k..] == ups'[k'..]
  {
    GreedyIffIntact(p, stride, f);
    GreedyIffIntact(p, stride', f');
    Resynchronises(p, f, f', s, k, k');
  }

  // ---- how many bytes are uploaded

  /** Some chunk but the last is torn and not closed by an anchor. */
  ghost predicate SomeOverrun(p: Params, stride: nat, file: Bytes, head: nat)
    requires stride > 0 && head <= |file|
    decreases |file| - head
  {
    && head < |file|
    && var e := NextEnd(p, file, head);
       e < |file| && (Overruns(p, stride, file, head, e) || SomeOverrun(p, stride, file, e))
  }

  /** Bytes carried over a refill, by all chunks but the last. */
  ghost function CarriedInAll(p: Params, stride: nat, file: Bytes, head: nat): (c: nat)
    requires stride > 0 && head <= |file|
    decreases |file| - head
  {
    if head == |file| then 0
    else
      var e := NextEnd(p, file, head);
      if e == |file| then 0 else Carried(head, e, p.m, stride) + CarriedInAll(p, stride, file, e)
  }

  ghost function LastLength(p: Params, file: Bytes, head: nat): (l: nat)
    requires head <= |file|
    decreases |file| - head
  {
    if head == |file| then 0
    else
      var e := NextEnd(p, file, head);
      if e == |file| then e - head else LastLength(p, file, e)
  }

  /** The size of the last upload. */
  ghost function LastUpload(p: Params, stride: nat, file: Bytes): (l: nat)
    requires stride > 0
  {
    CarriedInAll(p, stride, file, 0) + LastLength(p, file, 0)
  }

  lemma ConcatFirst(chunk: Bytes, rest: seq<Bytes>)
    ensures Concat([chunk] + rest) == chunk + Concat(rest)
  {
    assert ([chunk] + rest)[1..] == rest;
  }

  lemma PrependLength(chunk: Bytes, rest: seq<Bytes>)
    ensures |Concat([chunk] + rest)| == |chunk| + |Concat(rest)|
  {
    ConcatFirst(chunk, rest);
  }

  lemma ConcatOne(chunk: Bytes)
    ensures Concat([chunk]) == chunk
  {
    assert chunk + Concat([]) == chunk;
  }

  lemma CarriedCut(p: Params, stride: nat, file: Bytes, head: nat)
    requires stride > 0 && head < |file| && NextEnd(p, file, head) < |file|
    ensures var e := NextEnd(p, file, head);
            && (SomeOverrun(p, stride, file, head)
                <==> Overruns(p, stride, file, head, e) || SomeOverrun(p, stride, file, e))
            && CarriedInAll(p, stride, file, head) == Carried(head, e, p.m, stride) + CarriedInAll(p, stride, file, e)
            && LastLength(p, file, head) == LastLength(p, file, e)
  {
    hide Overruns, Carried, NextEnd;
  }

  lemma CarriedLast(p: Params, stride: nat, file: Bytes, head: nat)
    requires stride > 0 && head < |file| && NextEnd(p, file, head) == |file|
    ensures CarriedInAll(p, stride, file, head) == 0 && LastLength(p, file, head) == |file| - head
    ensures !SomeOverrun(p, stride, file, head)
  {
    hide NextEnd;
  }

  /** Nothing is thrown, and the last upload fits: exactly then as many bytes are uploaded as there are. */
  lemma {:induction false} UploadedLength(p: Params, stride: nat, file: Bytes, head: nat, room: Bytes, lag: nat)
    requires stride > 0 && lag <= head < |file| && p.Usable() && |room| == p.x
    ensures var o := LoopOutcome(p, stride, file, head, room, lag);
            var last := lag + CarriedInAll(p, stride, file, head) + LastLength(p, file, head);
            && (o.thrown <==> SomeOverrun(p, stride, file, head))
            && o.refused == (if !o.thrown && last > p.x then [last] else [])
            && (o.thrown ==> |Concat(o.uploads)| < lag + |file| - head)
            && (!o.thrown ==> |Concat(o.uploads)| == lag + |file| - head - if last > p.x then last else 0)
    decreases |file| - head
  {
    hide *;
    var e := NextEnd(p, file, head);
    if e == |file| {
      OutcomeLast(p, stride, file, head, room, lag);
      CarriedLast(p, stride, file, head);
      EmptyConcat();
      var l := |file| - head;
      if l + lag <= |room| {
        ConcatOne(file[head..] + room[l..l + lag]);
      }
    } else {
      var c, room' := Carried(head, e, p.m, stride), Overlay(file[head..e], room);
      OutcomeCut(p, stride, file, head, room, lag);
      CarriedCut(p, stride, file, head);
      OverlayFits(p, file, head, room);
      if Overruns(p, stride, file, head, e) {
        EmptyConcat();
      } else {
        UploadedLength(p, stride, file, e, room', lag + c);
        PrependLength(file[head..e - c], LoopOutcome(p, stride, file, e, room', lag + c).uploads);
      }
    }
  }

  lemma EmptyConcat()
    ensures Concat([]) == []
  {
  }

  /**
     No byte count is lost exactly when no carried chunk overruns the maximum and the last
     upload, which includes everything ever carried, fits. The sizes given to uploadChunk
     add up to the file size whenever nothing is thrown, even if the last chunk was refused.
     */
  lemma {:induction false} LengthKeptIff(p: Params, stride: nat, file: Bytes)
    requires stride > 0 && p.Usable()
    ensures var o := FileOutcome(p, stride, file);
            && (|Concat(o.uploads)| == |file| <==>
                !SomeOverrun(p, stride, file, 0) && LastUpload(p, stride, file) <= p.x)
            && |Concat(o.uploads)| <= |file|
            && (o.thrown <==> SomeOverrun(p, stride, file, 0))
            && o.refused == (if !o.thrown && LastUpload(p, stride, file) > p.x then
                             [LastUpload(p, stride, file)] else [])
            && (!o.thrown ==> |Concat(o.uploads)| + Total(o.refused) == |file|)
  {
    if file != [] {
      UploadedLength(p, stride, file, 0, Blank(p.x), 0);
    }
  }

  function Total(sizes: seq<nat>): (t: nat) {
    if sizes == [] then 0 else Total(sizes[..|sizes| - 1]) + sizes[|sizes| - 1]
  }

  // ---- when the uploaded bytes are the file

  /**
     From each chunk on, the file repeats itself at the distance of the bytes left out so
     far, and the stale bytes behind the last chunk are the last bytes of the file.
     */
  ghost predicate Repeats(p: Params, stride: nat, file: Bytes, head: nat, room: Bytes, lag: nat)
    requires stride > 0 && lag <= head <= |file|
    decreases |file| - head
  {
    head == |file| ||
    var e := NextEnd(p, file, head);
    if e == |file| then
      && e - head + lag <= |room|
      && file[head..] == file[head - lag..e - lag]
      && room[e - head..e - head + lag] == file[e - lag..]
    else
      var c := Carried(head, e, p.m, stride);
      && file[head..e - c] == file[head - lag..e - c - lag]
      && Repeats(p, stride, file, e, Overlay(file[head..e], room), lag + c)
  }

  ghost predicate Survives(p: Params, stride: nat, file: Bytes)
    requires stride > 0
  {
    !SomeOverrun(p, stride, file, 0) && Repeats(p, stride, file, 0, Blank(p.x), 0)
  }

  lemma SurvivesMeans(p: Params, stride: nat, file: Bytes)
    requires stride > 0
    ensures Survives(p, stride, file)
            <==> !SomeOverrun(p, stride, file, 0) && Repeats(p, stride, file, 0, Blank(p.x), 0)
  {
  }

  /** A front of known length and the rest can be compared separately. */
  lemma SplitEqual(a: Bytes, b: Bytes, whole: Bytes, i: nat, j: nat)
    requires i <= j <= |whole| && |a| == j - i
    ensures a + b == whole[i..] <==> a == whole[i..j] && b == whole[j..]
  {
    assert whole[i..] == whole[i..j] + whole[j..];
    assert (a + b)[..|a|] == a && (a + b)[|a|..] == b;
    assert whole[i..][..|a|] == whole[i..j] && whole[i..][|a|..] == whole[j..];
  }

  lemma RepeatsCut(p: Params, stride: nat, file: Bytes, head: nat, room: Bytes, lag: nat)
    requires stride > 0 && lag <= head < |file| && NextEnd(p, file, head) < |file|
    ensures var e := NextEnd(p, file, head);
            var c := Carried(head, e, p.m, stride);
            Repeats(p, stride, file, head, room, lag) <==>
              && file[head..e - c] == file[head - lag..e - c - lag]
              && Repeats(p, stride, file, e, Overlay(file[head..e], room), lag + c)
  {
    hide Overlay, Carried, NextEnd;
  }

  lemma RepeatsLast(p: Params, stride: nat, file: Bytes, head: nat, room: Bytes, lag: nat)
    requires stride > 0 && lag <= head < |file| && NextEnd(p, file, head) == |file|
    ensures var l := |file| - head;
            Repeats(p, stride, file, head, room, lag) <==>
              && l + lag <= |room|
              && file[head..] == file[head - lag..|file| - lag]
              && room[l..l + lag] == file[|file| - lag..]
  {
    hide Overlay, Carried, NextEnd;
  }

  lemma ContentLast(p: Params, stride: nat, file: Bytes, head: nat, room: Bytes, lag: nat)
    requires stride > 0 && lag <= head < |file| && NextEnd(p, file, head) == |file|
    ensures Concat(LoopOutcome(p, stride, file, head, room, lag).uploads) == file[head - lag..]
            <==> !SomeOverrun(p, stride, file, head) && Repeats(p, stride, file, head, room, lag)
  {
    hide *;
    OutcomeLast(p, stride, file, head, room, lag);
    CarriedLast(p, stride, file, head);
    RepeatsLast(p, stride, file, head, room, lag);
    EmptyConcat();
    var l := |file| - head;
    if l + lag <= |room| {
      ConcatOne(file[head..] + room[l..l + lag]);
      SplitEqual(file[head..], room[l..l + lag], file, head - lag, |file| - lag);
    }
  }

  lemma {:induction false} ContentFrom(p: Params, stride: nat, file: Bytes, head: nat, room: Bytes, lag: nat)
    requires stride > 0 && lag <= head < |file|
    ensures Concat(LoopOutcome(p, stride, file, head, room, lag).uploads) == file[head - lag..]
            <==> !SomeOverrun(p, stride, file, head) && Repeats(p, stride, file, head, room, lag)
    decreases |file| - head
  {
    hide *;
    var e := NextEnd(p, file, head);
    if e == |file| {
      ContentLast(p, stride, file, head, room, lag);
    } else {
      var c, room' := Carried(head, e, p.m, stride), Overlay(file[head..e], room);
      OutcomeCut(p, stride, file, head, room, lag);
      CarriedCut(p, stride, file, head);
      RepeatsCut(p, stride, file, head, room, lag);
      if Overruns(p, stride, file, head, e) {
        EmptyConcat();
      } else {
        var rest := LoopOutcome(p, stride, file, e, room', lag + c).uploads;
        ContentFrom(p, stride, file, e, room', lag + c);
        ConcatFirst(file[head..e - c], rest);
        SplitEqual(file[head..e - c], Concat(rest), file, head - lag, e - c - lag);
      }
    }
  }

  /** The uploads are the file, byte for byte, exactly in this case. */
  lemma ContentKeptIff(p: Params, stride: nat, file: Bytes)
    requires stride > 0
    ensures Concat(FileOutcome(p, stride, file).uploads) == file <==> Survives(p, stride, file)
  {
    if file == [] {
      EmptyConcat();
    } else {
      ContentFrom(p, stride, file, 0, Blank(p.x), 0);
      assert file[0..] == file;
    }
  }

  lemma IntactSurvives(p: Params, stride: nat, file: Bytes)
    requires stride > 0 && p.Usable() && Intact(p, file, 0, stride)
    ensures Survives(p, stride, file)
  {
    GreedyIffIntact(p, stride, file);
    GreedyCoversFile(p, file);
    ContentKeptIff(p, stride, file);
  }

  lemma EmptyOutcome(p: Params, stride: nat)
    requires stride > 0
    ensures FileOutcome(p, stride, []) == Outcome([], [], false)
  {
  }

  /** What the outcome means for the chunks, for their bytes and for their number. */
  lemma OutcomeMeaning(p: Params, stride: nat, file: Bytes)
    requires stride > 0 && p.Usable()
    ensures var o := FileOutcome(p, stride, file);
            && (o.uploads == Greedy(p, file) <==> Intact(p, file, 0, stride))
            && (Intact(p, file, 0, stride) ==> !o.thrown && o.refused == [] && Concat(o.uploads) == file)
            && (Concat(o.uploads) == file <==> Survives(p, stride, file))
            && (|Concat(o.uploads)| == |file| <==> !o.thrown && o.refused == [])
            && (o.thrown <==> SomeOverrun(p, stride, file, 0))
            && (!o.thrown ==> |Concat(o.uploads)| + Total(o.refused) == |file|)
  {
    GreedyIffIntact(p, stride, file);
    GreedyCoversFile(p, file);
    ContentKeptIff(p, stride, file);
    LengthKeptIff(p, stride, file);
  }

  // ---- what a torn file must look like to survive

  /** The chunk at `h` is the first torn one from `head` on. */
  ghost predicate FirstTorn(p: Params, stride: nat, file: Bytes, head: nat, h: nat)
    requires stride > 0 && head <= |file|
    decreases |file| - head
  {
    && head < |file|
    && var e := NextEnd(p, file, head);
       && e < |file|
       && if Torn(head, e, p.m, stride) then head == h else FirstTorn(p, stride, file, e, h)
  }

  /** Where the next torn chunk from `head` on starts to lose bytes; the end of the file if there is none. */
  ghost function NextLoss(p: Params, stride: nat, file: Bytes, head: nat): (u: nat)
    requires stride > 0 && head <= |file|
    ensures head <= u <= |file|
    decreases |file| - head
  {
    if head == |file| then |file|
    else
      var e := NextEnd(p, file, head);
      if e == |file| then |file|
      else if Torn(head, e, p.m, stride) then e - Carried(head, e, p.m, stride)
      else NextLoss(p, stride, file, e)
  }

  lemma {:induction false} NoLossWhenIntact(p: Params, stride: nat, file: Bytes, head: nat)
    requires stride > 0 && head <= |file| && Intact(p, file[head..], head, stride)
    ensures NextLoss(p, stride, file, head) == |file|
    decreases |file| - head
  {
    if head < |file| {
      IntactFrom(p, stride, file, head);
      if NextEnd(p, file, head) < |file| {
        NoLossWhenIntact(p, stride, file, NextEnd(p, file, head));
      }
    }
  }

  lemma SlicesAgree(file: Bytes, i: nat, j: nat, lag: nat)
    requires lag <= i <= j <= |file| && file[i..j] == file[i - lag..j - lag]
    ensures forall k :: i <= k < j ==> file[k] == file[k - lag]
  {
    forall k | i <= k < j ensures file[k] == file[k - lag] {
      assert file[i..j][k - i] == file[i - lag..j - lag][k - i];
    }
  }

  lemma NextLossStep(p: Params, stride: nat, file: Bytes, head: nat)
    requires stride > 0 && head < |file|
    ensures var e := NextEnd(p, file, head);
            NextLoss(p, stride, file, head) ==
              if e == |file| then |file|
              else if Carried(head, e, p.m, stride) > 0 then e - Carried(head, e, p.m, stride)
              else NextLoss(p, stride, file, e)
  {
    hide NextEnd, Torn;
  }

  lemma {:induction false} RepeatsUntilLoss(p: Params, stride: nat, file: Bytes, head: nat, room: Bytes, lag: nat)
    requires stride > 0 && lag <= head <= |file| && Repeats(p, stride, file, head, room, lag)
    ensures forall k :: head <= k < NextLoss(p, stride, file, head) ==> file[k] == file[k - lag]
    decreases |file| - head
  {
    hide *;
    if head < |file| {
      var e := NextEnd(p, file, head);
      NextLossStep(p, stride, file, head);
      if e == |file| {
        RepeatsLast(p, stride, file, head, room, lag);
        SuffixIsSlice(file, head);
        SlicesAgree(file, head, e, lag);
      } else {
        RepeatsCut(p, stride, file, head, room, lag);
        var c := Carried(head, e, p.m, stride);
        SlicesAgree(file, head, e - c, lag);
        if c == 0 {
          RepeatsUntilLoss(p, stride, file, e, Overlay(file[head..e], room), lag);
        }
      }
    }
  }

  lemma SuffixIsSlice(file: Bytes, head: nat)
    requires head <= |file|
    ensures file[head..] == file[head..|file|]
  {
  }

  lemma {:induction false} RepeatsAtFirstTorn(p: Params, stride: nat, file: Bytes, head: nat, h: nat, room: Bytes)
      returns (room': Bytes)
    requires stride > 0 && head <= |file|
    requires Repeats(p, stride, file, head, room, 0) && FirstTorn(p, stride, file, head, h)
    ensures h < |file| && NextEnd(p, file, h) < |file|
    ensures var e := NextEnd(p, file, h);
            var c := Carried(h, e, p.m, stride);
            c > 0 && Repeats(p, stride, file, e, room', c)
    decreases |file| - head
  {
    var e := NextEnd(p, file, head);
    hide NextEnd;
    if head == h && Torn(head, e, p.m, stride) {
      room' := Overlay(file[head..e], room);
    } else {
      room' := RepeatsAtFirstTorn(p, stride, file, e, h, Overlay(file[head..e], room));
    }
  }

  /**
     A torn file that survives goes on, behind its first torn chunk [h, e), by repeating the last c
     bytes of that chunk, c being the number of bytes carried: it has period c from e - c on, up to
     the loss at the next torn chunk, or to its end when there is no other.
     */
  lemma SurvivorHasPeriod(p: Params, stride: nat, file: Bytes, h: nat)
    requires stride > 0 && Survives(p, stride, file) && FirstTorn(p, stride, file, 0, h)
    ensures h < |file| && NextEnd(p, file, h) < |file|
    ensures var e := NextEnd(p, file, h);
            var c := Carried(h, e, p.m, stride);
            && 0 < c < e
            && (forall k :: e <= k < NextLoss(p, stride, file, e) ==> file[k] == file[k - c])
            && (Intact(p, file[e..], e, stride) ==> forall k :: e <= k < |file| ==> file[k] == file[k - c])
  {
    hide NextEnd, Repeats, NextLoss, Intact, Torn;
    var room := RepeatsAtFirstTorn(p, stride, file, 0, h, Blank(p.x));
    var e := NextEnd(p, file, h);
    RepeatsUntilLoss(p, stride, file, e, room, Carried(h, e, p.m, stride));
    if Intact(p, file[e..], e, stride) {
      NoLossWhenIntact(p, stride, file, e);
    }
  }

  // ---- torn files, for every maximum size from 4 on and every buffer

  /** One-byte windows, even bytes are anchors. */
  function Example(x: nat): (p: Params) {
    Params(1, x, 0, 1)
  }

  /** Zeros up to two bytes before the first refill of the buffer, then `tail`. */
  ghost function Padded(stride: nat, tail: Bytes): (file: Bytes)
    requires stride >= 2
  {
    Blank(stride - 2) + tail
  }

  lemma EvenIsAnchor(b: Byte)
    ensures IsAnchor([b], 0, 1) <==> Unsigned(b) % 2 == 0
  {
    assert [b][..0] == [];
    assert Poly([b], 0) == Unsigned(b) && Pow2(1) == 2;
  }

  lemma ExampleEnd(x: nat, file: Bytes, head: nat, e: nat)
    requires x >= 4 && head < e <= |file| && e - head <= x
    requires forall k :: head <= k < e - 1 ==> file[k] == 1
    requires e == |file| || e - head == x || file[e - 1] == 0
    ensures NextEnd(Example(x), file, head) == e
  {
    var p, f := Example(x), file[head..];
    forall l | 1 <= l <= e - head ensures CutAt(p, f, l) <==> l == e - head {
      assert f[l - 1..l] == [file[head + l - 1]];
      EvenIsAnchor(file[head + l - 1]);
    }
    GreedyCutsAt(p, f, e - head);
  }

  /** The zeros are one-byte chunks that nothing depends on. */
  lemma {:induction false} ZerosPass(x: nat, stride: nat, tail: Bytes, head: nat)
    requires x >= 4 && head + 2 <= stride && tail != []
    ensures var p, file, n, room := Example(x), Padded(stride, tail), stride - 2, Blank(x);
            && (SomeOverrun(p, stride, file, head) <==> SomeOverrun(p, stride, file, n))
            && CarriedInAll(p, stride, file, head) == CarriedInAll(p, stride, file, n)
            && LastLength(p, file, head) == LastLength(p, file, n)
            && (Repeats(p, stride, file, head, room, 0) <==> Repeats(p, stride, file, n, room, 0))
            && (Intact(p, file[head..], head, stride) <==> Intact(p, file[n..], n, stride))
    decreases stride - head
  {
    if head < stride - 2 {
      var p, file, room := Example(x), Padded(stride, tail), Blank(x);
      ExampleEnd(x, file, head, head + 1);
      assert Overlay(file[head..head + 1], room) == room;
      assert Carried(head, head + 1, 1, stride) == 0;
      hide Overlay, Carried, NextEnd, Blank, Padded, Torn;
      CarriedCut(p, stride, file, head);
      RepeatsCut(p, stride, file, head, room, 0);
      IntactFrom(p, stride, file, head);
      ZerosPass(x, stride, tail, head + 1);
    }
  }

  lemma PaddedTears(stride: nat, e: nat)
    requires stride >= 2 && e > stride + 1
    ensures Torn(stride - 2, e, 1, stride)
    ensures e == stride + 2 ==> Carried(stride - 2, e, 1, stride) == 2
  {
    assert RefillAfter(stride - 2, stride) == stride;
    assert RefillAfter(stride, stride) == stride + stride;
  }

  lemma OnesOverrun(x: nat, stride: nat)
    requires x >= 4 && stride >= 2
    ensures Example(x).Usable() && SomeOverrun(Example(x), stride, Padded(stride, seq(x + 1, _ => 1)), stride - 2)
  {
    var file, n := Padded(stride, seq(x + 1, _ => 1)), stride - 2;
    ExampleEnd(x, file, n, n + x);
    assert file[n + x - 1..n + x] == [1];
    hide IsAnchor, NextEnd, Torn;
    EvenIsAnchor(1);
    PaddedTears(stride, n + x);
    assert Overruns(Example(x), stride, file, n, n + x);
  }

  /** A torn chunk of the maximum size: the copy overflows and the rest of the file is lost. */
  lemma TornFileIsCutShort(x: nat, stride: nat)
    requires x >= 4 && stride >= 2
    ensures var file := Padded(stride, seq(x + 1, _ => 1));
            var o := FileOutcome(Example(x), stride, file);
            o.thrown && |Concat(o.uploads)| < |file|
  {
    var p, file := Example(x), Padded(stride, seq(x + 1, _ => 1));
    OnesOverrun(x, stride);
    hide *;
    ZerosPass(x, stride, seq(x + 1, _ => 1), 0);
    LengthKeptIff(p, stride, file);
  }

  /** The four bytes 1, 1, 1, 0 become a torn chunk that ends at an anchor. */
  lemma AnchoredTear(x: nat, stride: nat, rest: Bytes)
    requires x >= 4 && stride >= 2 && 1 <= |rest| <= 2 && rest[0] == 1
    ensures var p, file := Example(x), Padded(stride, [1, 1, 1, 0] + rest);
            && |file| == stride + 2 + |rest|
            && !SomeOverrun(p, stride, file, 0) && LastUpload(p, stride, file) == 2 + |rest|
            && (Repeats(p, stride, file, 0, Blank(x), 0)
                <==> Repeats(p, stride, file, stride + 2, Overlay([1, 1, 1, 0], Blank(x)), 2))
            && !Intact(p, file, 0, stride)
  {
    var tail: Bytes := [1, 1, 1, 0] + rest;
    var p, file, n, room := Example(x), Padded(stride, tail), stride - 2, Blank(x);
    ExampleEnd(x, file, n, n + 4);
    ExampleEnd(x, file, n + 4, |file|);
    PaddedTears(stride, n + 4);
    assert file[n + 3..n + 4] == [0] && file[n..n + 4] == [1, 1, 1, 0] && file[0..] == file;
    assert file[n..n + 2] == file[n - 0..n + 2 - 0];
    EvenIsAnchor(0);
    assert !Overruns(p, stride, file, n, n + 4);
    hide *;
    ZerosPass(x, stride, tail, 0);
    CarriedCut(p, stride, file, n);
    CarriedLast(p, stride, file, n + 4);
    RepeatsCut(p, stride, file, n, room, 0);
    IntactFrom(p, stride, file, n);
  }

  /** A torn chunk that ends at an anchor: as many bytes as in the file, but not the same ones. */
  lemma TornFileIsScrambled(x: nat, stride: nat)
    requires x >= 4 && stride >= 2
    ensures var file := Padded(stride, [1, 1, 1, 0] + [1]);
            var o := FileOutcome(Example(x), stride, file);
            !o.thrown && o.refused == [] && |Concat(o.uploads)| == |file| && Concat(o.uploads) != file
  {
    var p, file := Example(x), Padded(stride, [1, 1, 1, 0] + [1]);
    var room, h := Overlay([1, 1, 1, 0], Blank(x)), stride + 2;
    assert room[1..3][0] == 1 && file[h - 1..][0] == 0;
    ExampleEnd(x, file, h, h + 1);
    hide *;
    AnchoredTear(x, stride, [1]);
    LengthKeptIff(p, stride, file);
    RepeatsLast(p, stride, file, h, room, 2);
    ContentKeptIff(p, stride, file);
    SurvivesMeans(p, stride, file);
  }

  /** A torn file that survives, because its end repeats what was left out. */
  lemma TornFileSurvives(x: nat, stride: nat)
    requires x >= 4 && stride >= 2
    ensures var file := Padded(stride, [1, 1, 1, 0] + [1, 0]);
            !Intact(Example(x), file, 0, stride) && Concat(FileOutcome(Example(x), stride, file).uploads) == file
  {
    var p, file := Example(x), Padded(stride, [1, 1, 1, 0] + [1, 0]);
    var room, h := Overlay([1, 1, 1, 0], Blank(x)), stride + 2;
    assert room[2..4] == [1, 0] == file[h..] == file[h - 2..h];
    ExampleEnd(x, file, h, h + 2);
    hide *;
    AnchoredTear(x, stride, [1, 0]);
    RepeatsLast(p, stride, file, h, room, 2);
    ContentKeptIff(p, stride, file);
    SurvivesMeans(p, stride, file);
  }
}

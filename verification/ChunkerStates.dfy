/** How the bookkeeping of the chunking loop relates to the outcome defined on the file. */
module ChunkerStates {
  import opened Fingerprint
  import opened GreedyChunks
  import opened TornChunks

  /** Offsets of the loop, the contents of the carry buffer, and the chunks uploaded so far. */
  datatype Carrying = Carrying(rfpHead: int, chunkHead: int, backup: int, carry: Bytes, uploads: seq<Bytes>)
  {
    /** The copy of `len` bytes of the block to the end of the carry is within both arrays. */
    ghost predicate CanCopy(len: int, block: Bytes) {
      && 0 <= len && 0 <= rfpHead && rfpHead + len <= |block|
      && 0 <= chunkHead && chunkHead + len <= |carry|
    }

    ghost function Copied(len: int, block: Bytes): (room: Bytes)
      requires CanCopy(len, block)
      ensures |room| == |carry|
    {
      carry[..chunkHead] + block[rfpHead..rfpHead + len] + carry[chunkHead + len..]
    }

    /** Only `len` bytes are uploaded, although the carry may hold more. */
    ghost function AfterCut(len: int, block: Bytes): (c: Carrying)
      requires CanCopy(len, block)
    {
      var room := Copied(len, block);
      this.(rfpHead := rfpHead + len, chunkHead := 0, carry := room, uploads := uploads + [room[..len]])
    }
  }

  // ---- progress through the file

  ghost function Prepend(ups: seq<Bytes>, o: Outcome): (o': Outcome) {
    o.(uploads := ups + o.uploads)
  }

  /**
     `ups` are the uploads of the chunks before the boundary `head`, `room` and `lag` what
     they leave behind, and no cut of the next chunk lies at or before `tested`.
     */
  ghost predicate Progress(p: Params, stride: nat, file: Bytes, ups: seq<Bytes>, room: Bytes, lag: nat,
                           head: nat, tested: nat)
  {
    && stride > 0
    && head <= tested < |file|
    && |room| == p.x
    && Prepend(ups, LoopOutcome(p, stride, file, head, room, lag)) == FileOutcome(p, stride, file)
    && (forall l :: 1 <= l <= tested - head ==> !CutAt(p, file[head..], l))
  }

  lemma PrependNothing(o: Outcome)
    ensures Prepend([], o) == o
  {
    assert [] + o.uploads == o.uploads;
  }

  lemma PrependChunk(ups: seq<Bytes>, chunk: Bytes, o: Outcome)
    ensures Prepend(ups, Prepend([chunk], o)) == Prepend(ups + [chunk], o)
  {
    assert ups + ([chunk] + o.uploads) == (ups + [chunk]) + o.uploads;
  }

  lemma ProgressBegins(p: Params, stride: nat, file: Bytes)
    requires stride > 0 && p.Usable() && p.m < |file|
    ensures Progress(p, stride, file, [], Blank(p.x), 0, 0, p.m - 1)
  {
    PrependNothing(FileOutcome(p, stride, file));
    assert file[0..] == file;
    hide LoopOutcome, Prepend;
  }

  lemma ProgressNoCut(p: Params, stride: nat, file: Bytes, ups: seq<Bytes>, room: Bytes, lag: nat, head: nat,
                      tested: nat)
    requires Progress(p, stride, file, ups, room, lag, head, tested) && tested + 1 < |file|
    requires !CutAt(p, file[head..], tested + 1 - head)
    ensures Progress(p, stride, file, ups, room, lag, head, tested + 1)
  {
    hide LoopOutcome, FileOutcome, Prepend, CutAt;
  }

  /** The next boundary is the first cut. */
  lemma FirstCutIsEnd(p: Params, file: Bytes, head: nat, e: nat)
    requires head < e <= |file| && CutAt(p, file[head..], e - head)
    requires forall l :: 1 <= l < e - head ==> !CutAt(p, file[head..], l)
    ensures NextEnd(p, file, head) == e
  {
    hide Greedy;
    GreedyCutsAt(p, file[head..], e - head);
  }

  /** The bytes of the carry that the chunk in progress overwrites anyway do not matter. */
  lemma RoomIsOverlaid(p: Params, stride: nat, file: Bytes, ups: seq<Bytes>, room: Bytes, room': Bytes, lag: nat,
                       head: nat, tested: nat, k: nat)
    requires Progress(p, stride, file, ups, room, lag, head, tested)
    requires |room'| == |room| && k <= |room| && k <= tested - head && room'[k..] == room[k..]
    ensures Progress(p, stride, file, ups, room', lag, head, tested)
  {
    var e := NextEnd(p, file, head);
    assert e - head > k;
    var chunk := file[head..e];
    assert Overlay(chunk, room') == Overlay(chunk, room) by {
      if |chunk| <= |room| {
        assert room[|chunk|..] == room[k..][|chunk| - k..] && room'[|chunk|..] == room'[k..][|chunk| - k..];
      }
    }
    hide Overlay, NextEnd, Carried, Overruns, CutAt, FileOutcome, Prepend;
  }

  /** A cut whose chunk does not overflow the carry. */
  lemma ProgressCut(p: Params, stride: nat, file: Bytes, ups: seq<Bytes>, room: Bytes, lag: nat, head: nat, tested: nat)
    requires p.Usable() && Progress(p, stride, file, ups, room, lag, head, tested) && tested + 1 < |file|
    requires p.m <= tested + 1 && CutAt(p, file[head..], tested + 1 - head)
    requires !Overruns(p, stride, file, head, tested + 1)
    ensures var e := tested + 1;
            var c := Carried(head, e, p.m, stride);
            && |Overlay(file[head..e], room)| == p.x
            && Progress(p, stride, file, ups + [file[head..e - c]], Overlay(file[head..e], room), lag + c, e, e)
  {
    hide *;
    var e := tested + 1;
    ProgressMeans(p, stride, file, ups, room, lag, head, tested);
    FirstCutIsEnd(p, file, head, e);
    var c, room' := Carried(head, e, p.m, stride), Overlay(file[head..e], room);
    OverlayFits(p, file, head, room);
    OutcomeCut(p, stride, file, head, room, lag);
    var o := LoopOutcome(p, stride, file, e, room', lag + c);
    PrependIsUpdate(file[head..e - c], o);
    PrependChunk(ups, file[head..e - c], o);
    ProgressAtHead(p, stride, file, ups + [file[head..e - c]], room', lag + c, e);
  }

  lemma PrependIsUpdate(chunk: Bytes, o: Outcome)
    ensures Prepend([chunk], o) == o.(uploads := [chunk] + o.uploads)
  {
  }

  lemma ProgressMeans(p: Params, stride: nat, file: Bytes, ups: seq<Bytes>, room: Bytes, lag: nat, head: nat,
                      tested: nat)
    requires Progress(p, stride, file, ups, room, lag, head, tested)
    ensures stride > 0 && head <= tested < |file| && |room| == p.x
    ensures Prepend(ups, LoopOutcome(p, stride, file, head, room, lag)) == FileOutcome(p, stride, file)
    ensures forall l :: 1 <= l <= tested - head ==> !CutAt(p, file[head..], l)
  {
  }

  lemma ProgressAtHead(p: Params, stride: nat, file: Bytes, ups: seq<Bytes>, room: Bytes, lag: nat, head: nat)
    requires stride > 0 && head < |file| && |room| == p.x
    requires Prepend(ups, LoopOutcome(p, stride, file, head, room, lag)) == FileOutcome(p, stride, file)
    ensures Progress(p, stride, file, ups, room, lag, head, head)
  {
    hide LoopOutcome, FileOutcome, Prepend, CutAt;
  }

  lemma PrependEmpty(ups: seq<Bytes>, refused: seq<nat>, thrown: bool)
    ensures Prepend(ups, Outcome([], refused, thrown)) == Outcome(ups, refused, thrown)
  {
    assert ups + [] == ups;
  }

  /** A cut that overflows the carry: nothing more is uploaded. */
  lemma ProgressOverruns(p: Params, stride: nat, file: Bytes, ups: seq<Bytes>, room: Bytes, lag: nat, head: nat,
                         tested: nat)
    requires Progress(p, stride, file, ups, room, lag, head, tested) && tested + 1 < |file|
    requires p.m <= tested + 1 && CutAt(p, file[head..], tested + 1 - head)
    requires Overruns(p, stride, file, head, tested + 1)
    ensures FileOutcome(p, stride, file) == Outcome(ups, [], true)
  {
    hide *;
    ProgressMeans(p, stride, file, ups, room, lag, head, tested);
    FirstCutIsEnd(p, file, head, tested + 1);
    OutcomeCut(p, stride, file, head, room, lag);
    PrependEmpty(ups, [], true);
  }

  /** Only the end of the file is left. */
  lemma ProgressEnds(p: Params, stride: nat, file: Bytes, ups: seq<Bytes>, room: Bytes, lag: nat, head: nat,
                     tested: nat)
    requires Progress(p, stride, file, ups, room, lag, head, tested) && tested + 1 == |file|
    ensures var l := |file| - head;
            FileOutcome(p, stride, file) ==
              if l + lag <= |room| then Outcome(ups + [file[head..] + room[l..l + lag]], [], false)
              else Outcome(ups, [l + lag], false)
  {
    hide *;
    ProgressMeans(p, stride, file, ups, room, lag, head, tested);
    EndIsCut(p, file[head..]);
    FirstCutIsEnd(p, file, head, |file|);
    OutcomeLast(p, stride, file, head, room, lag);
    var l := |file| - head;
    PrependEmpty(ups, [l + lag], false);
    if l + lag <= |room| {
      PrependOnly(ups, file[head..] + room[l..l + lag]);
    }
  }

  lemma PrependOnly(ups: seq<Bytes>, chunk: Bytes)
    ensures Prepend(ups, Outcome([chunk], [], false)) == Outcome(ups + [chunk], [], false)
  {
  }

  lemma EndIsCut(p: Params, f: Bytes)
    requires f != []
    ensures CutAt(p, f, |f|)
  {
  }

  /** A chunk in progress is shorter than the maximum. */
  lemma ProgressIsShort(p: Params, stride: nat, file: Bytes, ups: seq<Bytes>, room: Bytes, lag: nat, head: nat,
                        tested: nat)
    requires p.Usable() && Progress(p, stride, file, ups, room, lag, head, tested)
    ensures tested - head < p.x
  {
    hide LoopOutcome, FileOutcome, Prepend;
    assert tested - head >= p.x ==> CutAt(p, file[head..], p.x);
  }

  // ---- the state of the loop

  /** The chunk in progress starts at file offset `head`; its first bytes may be in the carry. */
  ghost predicate Carries(p: Params, file: Bytes, c: Carrying, base: nat, head: nat) {
    && 0 <= c.chunkHead <= p.x == |c.carry| && 0 <= c.rfpHead
    && c.chunkHead <= c.backup
    && head + c.chunkHead == base + c.rfpHead
    && (c.chunkHead > 0 ==> c.rfpHead == 0)
    && head + c.chunkHead <= |file|
    && c.carry[..c.chunkHead] == file[head..head + c.chunkHead]
  }

  /** The uploads are those of the file up to the chunk in progress. */
  ghost predicate Clean(p: Params, stride: nat, file: Bytes, c: Carrying, base: nat, head: nat, tested: nat) {
    && Carries(p, file, c, base, head)
    && Progress(p, stride, file, c.uploads, c.carry, c.backup - c.chunkHead, head, tested)
  }

  /** The outcome is decided: the copy of the carried chunk will overflow. */
  ghost predicate Lost(p: Params, stride: nat, file: Bytes, uploads: seq<Bytes>) {
    stride > 0 && FileOutcome(p, stride, file) == Outcome(uploads, [], true)
  }

  /** A cut forced by the maximum size went unnoticed; nothing more can be uploaded. */
  ghost predicate Missed(p: Params, stride: nat, file: Bytes, c: Carrying, base: nat, tested: nat) {
    && Lost(p, stride, file, c.uploads)
    && 0 <= c.chunkHead && c.rfpHead == 0 && |c.carry| == p.x
    && c.chunkHead + tested - base >= p.x
  }

  ghost predicate State(p: Params, stride: nat, file: Bytes, c: Carrying, base: nat, head: nat, tested: nat) {
    stride > 0 &&
    (Clean(p, stride, file, c, base, head, tested) || Missed(p, stride, file, c, base, tested))
  }

  /** The cut test at file offset `e`. */
  lemma CutTest(p: Params, file: Bytes, head: nat, e: nat)
    requires p.Usable() && head <= e < |file| && p.m <= e
    ensures CutAt(p, file[head..], e - head)
            <==> e - head >= p.m && (e - head == p.x || IsAnchor(file[e - p.m..e], p.d, p.b))
  {
    if e - head >= p.m {
      assert file[head..][e - head - p.m..e - head] == file[e - p.m..e];
    }
  }

  ghost predicate CutsBlock(p: Params, len: int, interested: bool) {
    (interested || len == p.x) && len >= p.m
  }

  /** What the cut step must leave behind, whether it cuts or not. */
  ghost predicate CutStepOk(p: Params, stride: nat, file: Bytes, c: Carrying, base: nat, head': nat, e: nat,
                            block: Bytes, interested: bool)
  {
    var len := e - base - c.rfpHead;
    if !CutsBlock(p, len, interested) then State(p, stride, file, c, base, head', e)
    else if c.CanCopy(len, block) then State(p, stride, file, c.AfterCut(len, block), base, head', e)
    else Lost(p, stride, file, c.uploads)
  }

  ghost predicate InBlock(p: Params, stride: nat, file: Bytes, base: nat, e: nat, block: Bytes, n: nat) {
    && p.Usable() && stride > 0 && IsRefill(base, stride)
    && n <= |block| && n <= stride + p.m + 1 && base + n <= |file| && block[..n] == file[base..base + n]
    && base + p.m < e < base + n
  }

  lemma BlockSlice(file: Bytes, base: nat, block: Bytes, n: nat, i: nat, j: nat)
    requires n <= |block| && base + n <= |file| && block[..n] == file[base..base + n] && i <= j <= n
    ensures block[i..j] == file[base + i..base + j]
  {
    forall k | 0 <= k < j - i ensures block[i..j][k] == file[base + i..base + j][k] {
      assert block[..n][i + k] == file[base..base + n][i + k];
    }
  }

  lemma CarriesMeans(p: Params, file: Bytes, c: Carrying, base: nat, head: nat)
    requires Carries(p, file, c, base, head)
    ensures 0 <= c.chunkHead <= c.backup && c.chunkHead <= p.x == |c.carry| && 0 <= c.rfpHead
    ensures head + c.chunkHead == base + c.rfpHead <= |file|
    ensures c.chunkHead > 0 ==> c.rfpHead == 0
    ensures c.carry[..c.chunkHead] == file[head..head + c.chunkHead]
  {
  }

  /** The carried bytes and the bytes of the block up to `j` are contiguous in the file. */
  lemma CarryJoins(p: Params, file: Bytes, c: Carrying, base: nat, head: nat, block: Bytes, n: nat, j: nat)
    requires Carries(p, file, c, base, head)
    requires n <= |block| && base + n <= |file| && block[..n] == file[base..base + n] && c.rfpHead <= j <= n
    requires c.chunkHead + j - c.rfpHead <= |c.carry|
    ensures var len := j - c.rfpHead;
            c.Copied(len, block) == file[head..base + j] + c.carry[c.chunkHead + len..]
  {
    BlockSlice(file, base, block, n, c.rfpHead, j);
    SlicesJoin(file, head, head + c.chunkHead, base + j);
    CarriesMeans(p, file, c, base, head);
  }

  lemma SlicesJoin(file: Bytes, i: nat, j: nat, k: nat)
    requires i <= j <= k <= |file|
    ensures file[i..k] == file[i..j] + file[j..k]
  {
  }

  /** How much of the chunk in progress is carried, seen from the block that starts at `base`. */
  lemma {:induction false} CarriedAt(head: nat, base: nat, e: nat, m: nat, stride: nat)
    requires stride > 0 && IsRefill(base, stride) && base + m < e <= base + stride + m
    ensures Carried(head, e, m, stride) == if head < base then base - head else 0
    decreases e - head
  {
    NextRefill(head, base, stride);
    var r := RefillAfter(head, stride);
    if head < base {
      CarriedAt(r, base, e, m, stride);
    }
  }

  /** What the test of the loop means for the chunk in progress. */
  lemma {:induction false} CutIsKnown(p: Params, stride: nat, file: Bytes, c: Carrying, base: nat, head: nat, e: nat,
                                      interested: bool)
    requires p.Usable() && stride > 0 && IsRefill(base, stride) && base + p.m < e <= base + stride + p.m && e < |file|
    requires interested <==> IsAnchor(file[e - p.m..e], p.d, p.b)
    requires Clean(p, stride, file, c, base, head, e - 1)
    requires CutsBlock(p, e - base - c.rfpHead, interested) && (c.chunkHead > 0 ==> interested)
    ensures head <= e - 1 && head + c.chunkHead <= e <= head + p.x
    ensures CutAt(p, file[head..], e - head)
    ensures Carried(head, e, p.m, stride) == c.chunkHead && !Overruns(p, stride, file, head, e)
  {
    hide Progress, IsAnchor, CutAt, Carried;
    ProgressIsShort(p, stride, file, c.uploads, c.carry, c.backup - c.chunkHead, head, e - 1);
    ProgressMeans(p, stride, file, c.uploads, c.carry, c.backup - c.chunkHead, head, e - 1);
    CarriedAt(head, base, e, p.m, stride);
    CutTest(p, file, head, e);
  }

  lemma CutProgress(p: Params, stride: nat, file: Bytes, c: Carrying, base: nat, head: nat, e: nat, interested: bool)
    requires p.Usable() && stride > 0 && IsRefill(base, stride) && base + p.m < e <= base + stride + p.m && e < |file|
    requires interested <==> IsAnchor(file[e - p.m..e], p.d, p.b)
    requires Clean(p, stride, file, c, base, head, e - 1)
    requires CutsBlock(p, e - base - c.rfpHead, interested) && (c.chunkHead > 0 ==> interested)
    ensures head <= e - c.chunkHead <= e <= head + p.x
    ensures Progress(p, stride, file, c.uploads + [file[head..e - c.chunkHead]], Overlay(file[head..e], c.carry),
                     c.backup, e, e)
    ensures 0 <= c.chunkHead <= c.backup
  {
    hide *;
    CutIsKnown(p, stride, file, c, base, head, e, interested);
    CleanMeans(p, stride, file, c, base, head, e - 1);
    ProgressCut(p, stride, file, c.uploads, c.carry, c.backup - c.chunkHead, head, e - 1);
  }

  lemma CleanMeans(p: Params, stride: nat, file: Bytes, c: Carrying, base: nat, head: nat, tested: nat)
    requires Clean(p, stride, file, c, base, head, tested)
    ensures stride > 0 && Carries(p, file, c, base, head)
    ensures 0 <= c.chunkHead <= c.backup && c.chunkHead <= p.x == |c.carry| && head <= tested < |file|
    ensures Progress(p, stride, file, c.uploads, c.carry, c.backup - c.chunkHead, head, tested)
  {
  }

  lemma CutCopies(p: Params, file: Bytes, c: Carrying, base: nat, head: nat, e: nat, block: Bytes, n: nat)
    requires Carries(p, file, c, base, head) && head + c.chunkHead <= e <= head + p.x && e < base + n
    requires n <= |block| && base + n <= |file| && block[..n] == file[base..base + n]
    ensures var len := e - base - c.rfpHead;
            && c.CanCopy(len, block)
            && c.AfterCut(len, block) == Carrying(c.rfpHead + len, 0, c.backup, Overlay(file[head..e], c.carry),
                                                  c.uploads + [file[head..e - c.chunkHead]])
            && Carries(p, file, c.AfterCut(len, block), base, e)
  {
    hide *;
    var len := e - base - c.rfpHead;
    CarriesMeans(p, file, c, base, head);
    CopyFits(c, len, block);
    CarryJoins(p, file, c, base, head, block, n, e - base);
    OverlayParts(file, head, head + len, e, c.carry);
    AfterCutParts(c, len, block);
    NothingCarried(p, file, c.AfterCut(len, block), base, e);
  }

  lemma CopyFits(c: Carrying, len: int, block: Bytes)
    ensures c.CanCopy(len, block) <==>
              && 0 <= len && 0 <= c.rfpHead && c.rfpHead + len <= |block|
              && 0 <= c.chunkHead && c.chunkHead + len <= |c.carry|
  {
  }

  lemma AfterCutParts(c: Carrying, len: nat, block: Bytes)
    requires c.CanCopy(len, block)
    ensures var room := c.Copied(len, block);
            && |room| == |c.carry| && len <= |room|
            && c.AfterCut(len, block) == Carrying(c.rfpHead + len, 0, c.backup, room, c.uploads + [room[..len]])
  {
    hide Carrying.Copied;
  }

  lemma NothingCarried(p: Params, file: Bytes, c: Carrying, base: nat, head: nat)
    requires c.chunkHead == 0 <= c.backup && p.x == |c.carry| && 0 <= c.rfpHead && head == base + c.rfpHead <= |file|
    ensures Carries(p, file, c, base, head)
  {
    assert c.carry[..0] == file[head..head];
  }

  lemma OverlayParts(file: Bytes, head: nat, i: nat, e: nat, carry: Bytes)
    requires head <= i <= e <= |file| && e - head <= |carry|
    ensures var room := Overlay(file[head..e], carry);
            && room == file[head..e] + carry[e - head..]
            && |room| == |carry|
            && room[..i - head] == file[head..i]
  {
  }

  /** The loop cuts, and so does the chunk's definition. */
  lemma CutClean(p: Params, stride: nat, file: Bytes, c: Carrying, base: nat, head: nat, e: nat, block: Bytes, n: nat,
                 interested: bool)
    requires InBlock(p, stride, file, base, e, block, n)
    requires interested <==> IsAnchor(file[e - p.m..e], p.d, p.b)
    requires Clean(p, stride, file, c, base, head, e - 1)
    requires CutsBlock(p, e - base - c.rfpHead, interested) && (c.chunkHead > 0 ==> interested)
    ensures var len := e - base - c.rfpHead;
            c.CanCopy(len, block) && Clean(p, stride, file, c.AfterCut(len, block), base, e, e)
  {
    hide Progress, IsAnchor, CutsBlock, Carries, Carrying.AfterCut, Carrying.CanCopy, Overlay;
    CutProgress(p, stride, file, c, base, head, e, interested);
    CutCopies(p, file, c, base, head, e, block, n);
  }

  /** Neither the loop nor the definition cuts. */
  lemma NoCut(p: Params, stride: nat, file: Bytes, c: Carrying, base: nat, head: nat, e: nat, interested: bool)
    requires p.Usable() && p.m <= e && e < |file|
    requires interested <==> IsAnchor(file[e - p.m..e], p.d, p.b)
    requires Clean(p, stride, file, c, base, head, e - 1)
    requires !((interested || e - head == p.x) && e - head >= p.m)
    ensures Clean(p, stride, file, c, base, head, e)
  {
    hide Progress, IsAnchor;
    assert head <= e by { ProgressMeans(p, stride, file, c.uploads, c.carry, c.backup - c.chunkHead, head, e - 1); }
    CutTest(p, file, head, e);
    ProgressNoCut(p, stride, file, c.uploads, c.carry, c.backup - c.chunkHead, head, e - 1);
  }

  /** The maximum is reached with bytes in the carry: the loop, counting only the block, misses it. */
  lemma CutMissed(p: Params, stride: nat, file: Bytes, c: Carrying, base: nat, head: nat, e: nat, block: Bytes, n: nat)
    requires InBlock(p, stride, file, base, e, block, n)
    requires !IsAnchor(file[e - p.m..e], p.d, p.b)
    requires Clean(p, stride, file, c, base, head, e - 1) && c.chunkHead > 0 && e - head == p.x
    ensures Missed(p, stride, file, c, base, e)
  {
    hide Clean, Progress, Carries, Missed, IsAnchor, CutAt, Overruns, FileOutcome;
    CleanMeans(p, stride, file, c, base, head, e - 1);
    CarriesMeans(p, file, c, base, head);
    ForcedCutOverruns(p, stride, file, base, head, e, block, n);
    ProgressOverruns(p, stride, file, c.uploads, c.carry, c.backup - c.chunkHead, head, e - 1);
    MissedMeans(p, stride, file, c, base, e);
  }

  lemma ForcedCutOverruns(p: Params, stride: nat, file: Bytes, base: nat, head: nat, e: nat, block: Bytes, n: nat)
    requires InBlock(p, stride, file, base, e, block, n)
    requires !IsAnchor(file[e - p.m..e], p.d, p.b) && head < base && e - head == p.x
    ensures p.m <= e < |file| && CutAt(p, file[head..], e - head) && Overruns(p, stride, file, head, e)
  {
    hide IsAnchor, CutAt;
    CutTest(p, file, head, e);
    NextRefill(head, base, stride);
  }

  lemma MissedMeans(p: Params, stride: nat, file: Bytes, c: Carrying, base: nat, tested: nat)
    ensures Missed(p, stride, file, c, base, tested) <==>
              && stride > 0 && FileOutcome(p, stride, file) == Outcome(c.uploads, [], true)
              && 0 <= c.chunkHead && c.rfpHead == 0 && |c.carry| == p.x
              && c.chunkHead + tested - base >= p.x
  {
    hide FileOutcome;
  }

  lemma CutDecision(p: Params, stride: nat, file: Bytes, c: Carrying, base: nat, head: nat, e: nat, block: Bytes,
                    n: nat, interested: bool)
    returns (head': nat)
    requires InBlock(p, stride, file, base, e, block, n)
    requires interested <==> IsAnchor(file[e - p.m..e], p.d, p.b)
    requires State(p, stride, file, c, base, head, e - 1)
    ensures CutStepOk(p, stride, file, c, base, head', e, block, interested)
  {
    hide Progress, IsAnchor, Carrying.AfterCut, FileOutcome;
    var len := e - base - c.rfpHead;
    head' := head;
    if Clean(p, stride, file, c, base, head, e - 1) {
      assert len + c.chunkHead == e - head;
      ProgressIsShort(p, stride, file, c.uploads, c.carry, c.backup - c.chunkHead, head, e - 1);
      if !((interested || e - head == p.x) && e - head >= p.m) {
        NoCut(p, stride, file, c, base, head, e, interested);
      } else if c.chunkHead > 0 && !interested {
        CutMissed(p, stride, file, c, base, head, e, block, n);
      } else {
        head' := e;
        CutClean(p, stride, file, c, base, head, e, block, n, interested);
      }
    }
  }

  lemma FirstCutIsWhole(p: Params, stride: nat, file: Bytes)
    requires p.Usable() && stride > 0 && p.m < |file|
    ensures 0 < p.m && Carried(0, p.m, p.m, stride) == 0 && !Overruns(p, stride, file, 0, p.m)
  {
    hide IsAnchor;
  }

  /** The first window: its end is the first place where a cut is possible. */
  lemma FirstCut(p: Params, stride: nat, file: Bytes, interested: bool)
    requires p.Usable() && stride > 0 && p.m < |file|
    requires interested <==> IsAnchor(file[..p.m], p.d, p.b)
    ensures !interested ==> Progress(p, stride, file, [], Blank(p.x), 0, 0, p.m)
    ensures interested ==>
              Progress(p, stride, file, [file[..p.m]], Overlay(file[..p.m], Blank(p.x)), 0, p.m, p.m)
  {
    hide *;
    ProgressBegins(p, stride, file);
    FirstCutTest(p, file, interested);
    FirstCutIsWhole(p, stride, file);
    if interested {
      OnlyChunk(file, p.m);
      ProgressCut(p, stride, file, [], Blank(p.x), 0, 0, p.m - 1);
    } else {
      ProgressNoCut(p, stride, file, [], Blank(p.x), 0, 0, p.m - 1);
    }
  }

  /** The state after the first window, with a cut or without. */
  lemma FirstStep(p: Params, stride: nat, file: Bytes, c: Carrying, block: Bytes, n: nat, interested: bool)
    requires p.Usable() && stride > 0 && p.m + 1 <= n <= |block| && n <= |file| && block[..n] == file[0..0 + n]
    requires c == Carrying(0, 0, 0, Blank(p.x), [])
    requires interested <==> IsAnchor(file[..p.m], p.d, p.b)
    ensures c.CanCopy(p.m, block)
    ensures if interested then State(p, stride, file, c.AfterCut(p.m, block), 0, p.m, p.m)
            else State(p, stride, file, c, 0, 0, p.m)
  {
    hide *;
    FirstCut(p, stride, file, interested);
    BlankSize(p.x);
    BlockSlice(file, 0, block, n, 0, p.m);
    FirstCopy(p, file, c, block);
    if interested {
      var c' := c.AfterCut(p.m, block);
      NothingCarried(p, file, c', 0, p.m);
      CleanState(p, stride, file, c', 0, p.m, p.m);
    } else {
      NothingCarried(p, file, c, 0, 0);
      CleanState(p, stride, file, c, 0, 0, p.m);
    }
  }

  lemma BlankSize(x: nat)
    ensures |Blank(x)| == x
  {
  }

  lemma CleanState(p: Params, stride: nat, file: Bytes, c: Carrying, base: nat, head: nat, tested: nat)
    requires stride > 0 && Carries(p, file, c, base, head) && 0 <= c.chunkHead <= c.backup
    requires Progress(p, stride, file, c.uploads, c.carry, c.backup - c.chunkHead, head, tested)
    ensures State(p, stride, file, c, base, head, tested)
  {
    hide Progress, Carries;
  }

  lemma FirstCopy(p: Params, file: Bytes, c: Carrying, block: Bytes)
    requires p.Usable() && p.m <= |block| && p.m <= |file| && block[0..p.m] == file[0 + 0..0 + p.m]
    requires c == Carrying(0, 0, 0, Blank(p.x), [])
    ensures c.CanCopy(p.m, block)
    ensures var c' := c.AfterCut(p.m, block);
            && c' == Carrying(p.m, 0, 0, Overlay(file[..p.m], Blank(p.x)), [file[..p.m]])
            && |c'.carry| == p.x
  {
    assert c.carry[..0] == [] && block[0..0 + p.m] == file[..p.m];
    assert c.Copied(p.m, block) == Overlay(file[..p.m], Blank(p.x));
  }

  lemma FirstCutTest(p: Params, file: Bytes, interested: bool)
    requires p.Usable() && p.m < |file|
    requires interested <==> IsAnchor(file[..p.m], p.d, p.b)
    ensures CutAt(p, file[0..], p.m) <==> interested
  {
    hide IsAnchor;
    assert file[0..] == file && file[0..p.m] == file[..p.m];
  }

  lemma OnlyChunk(file: Bytes, m: nat)
    requires m <= |file|
    ensures [] + [file[0..m]] == [file[..m]] && file[0..m] == file[..m]
  {
  }

  /** At the end of a block the unfinished chunk is carried over. */
  ghost function AfterFlush(c: Carrying, i: nat, block: Bytes): (c': Carrying)
    requires i > c.rfpHead ==> c.CanCopy(i - c.rfpHead, block)
  {
    var len := i - c.rfpHead;
    if len > 0 then
      c.(carry := c.Copied(len, block), chunkHead := c.chunkHead + len, backup := c.backup + len, rfpHead := 0)
    else
      c.(rfpHead := c.rfpHead - i)
  }

  lemma FlushCopies(p: Params, file: Bytes, c: Carrying, base: nat, at: nat, head: nat, i: nat, block: Bytes, n: nat)
    requires at == base + i && 1 <= i && i + p.m + 1 == n <= |block| && base + n <= |file|
    requires block[..n] == file[base..base + n]
    requires Carries(p, file, c, base, head) && at + p.m - head < p.x
    ensures i > c.rfpHead ==> c.CanCopy(i - c.rfpHead, block) && head <= at
    ensures var c' := AfterFlush(c, i, block);
            && Carries(p, file, c', at, head)
            && c'.uploads == c.uploads && c'.backup - c'.chunkHead == c.backup - c.chunkHead
            && (i > c.rfpHead ==> c'.carry[at - head..] == c.carry[at - head..])
            && (i <= c.rfpHead ==> c'.carry == c.carry)
  {
    var len := i - c.rfpHead;
    if len > 0 {
      CarryJoins(p, file, c, base, head, block, n, i);
      hide Carrying.Copied;
      var room := c.Copied(len, block);
      assert room[c.chunkHead + len..] == c.carry[c.chunkHead + len..];
      assert room[..c.chunkHead + len] == file[head..at];
    }
  }

  lemma FlushClean(p: Params, stride: nat, file: Bytes, c: Carrying, base: nat, at: nat, head: nat, i: nat,
                   block: Bytes, n: nat)
    requires p.Usable() && at == base + i && 1 <= i && i + p.m + 1 == n <= |block| && base + n <= |file|
    requires block[..n] == file[base..base + n]
    requires Clean(p, stride, file, c, base, head, at + p.m)
    ensures i > c.rfpHead ==> c.CanCopy(i - c.rfpHead, block)
    ensures Clean(p, stride, file, AfterFlush(c, i, block), at, head, at + p.m)
  {
    hide Progress, Carries, AfterFlush, Carrying.CanCopy;
    CleanMeans(p, stride, file, c, base, head, at + p.m);
    var lag := c.backup - c.chunkHead;
    ProgressIsShort(p, stride, file, c.uploads, c.carry, lag, head, at + p.m);
    FlushCopies(p, file, c, base, at, head, i, block, n);
    var c' := AfterFlush(c, i, block);
    CarriesMeans(p, file, c', at, head);
    if i > c.rfpHead {
      RoomIsOverlaid(p, stride, file, c.uploads, c.carry, c'.carry, lag, head, at + p.m, at - head);
    }
  }

  lemma FlushStep(p: Params, stride: nat, file: Bytes, c: Carrying, base: nat, at: nat, head: nat, i: nat,
                  block: Bytes, n: nat)
    requires p.Usable() && at == base + i && 1 <= i && i + p.m + 1 == n <= |block| && base + n <= |file|
    requires block[..n] == file[base..base + n]
    requires State(p, stride, file, c, base, head, at + p.m)
    ensures if i > c.rfpHead && !c.CanCopy(i - c.rfpHead, block) then Lost(p, stride, file, c.uploads)
            else State(p, stride, file, AfterFlush(c, i, block), at, head, at + p.m)
  {
    hide Progress, FileOutcome;
    if Clean(p, stride, file, c, base, head, at + p.m) {
      FlushClean(p, stride, file, c, base, at, head, i, block, n);
    }
  }

  /** What the last call of uploadChunk adds; an illegal size is refused inside it. */
  ghost function AfterLast(p: Params, c: Carrying, block: Bytes): (o: Outcome)
    requires 0 <= c.chunkHead <= c.backup && c.CanCopy(p.m - c.rfpHead + 1, block)
  {
    var len := p.m - c.rfpHead + 1;
    var room := c.Copied(len, block);
    if len + c.backup <= |room| then Outcome(c.uploads + [room[..len + c.backup]], [], false)
    else Outcome(c.uploads, [len + c.backup], false)
  }

  /** The chunk that the end of the file closes. */
  lemma LastStep(p: Params, stride: nat, file: Bytes, c: Carrying, base: nat, head: nat, block: Bytes)
    requires p.Usable() && p.m + 1 <= |block| && base + p.m + 1 == |file|
    requires block[..p.m + 1] == file[base..base + (p.m + 1)]
    requires State(p, stride, file, c, base, head, base + p.m)
    ensures if c.CanCopy(p.m - c.rfpHead + 1, block) then
              0 <= c.chunkHead <= c.backup && FileOutcome(p, stride, file) == AfterLast(p, c, block)
            else
              Lost(p, stride, file, c.uploads)
  {
    hide Progress, FileOutcome;
    if Clean(p, stride, file, c, base, head, base + p.m) {
      var lag, l := c.backup - c.chunkHead, |file| - head;
      ProgressIsShort(p, stride, file, c.uploads, c.carry, lag, head, base + p.m);
      ProgressEnds(p, stride, file, c.uploads, c.carry, lag, head, base + p.m);
      CarryJoins(p, file, c, base, head, block, p.m + 1, p.m + 1);
      assert file[head..|file|] == file[head..];
      if l + lag <= p.x {
        assert (file[head..] + c.carry[l..])[..l + lag] == file[head..] + c.carry[l..l + lag];
      }
    }
  }

  /** A file no longer than a window is one chunk. */
  lemma SmallFile(p: Params, stride: nat, file: Bytes)
    requires p.Usable() && stride > 0 && 0 < |file| <= p.m
    ensures FileOutcome(p, stride, file) == Outcome([file], [], false)
  {
    FirstCutIsEnd(p, file, 0, |file|);
    OutcomeLast(p, stride, file, 0, Blank(p.x), 0);
    assert file[0..] + Blank(p.x)[|file|..|file| + 0] == file;
  }
}

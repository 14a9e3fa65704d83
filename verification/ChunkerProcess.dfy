/** The chunking loop: one buffer, refilled and shifted in place, and a carry buffer. */
module ChunkerProcess {
  import opened Fingerprint
  import opened GreedyChunks
  import opened TornChunks
  import opened ChunkerStates
  import opened Wrappers

  /** System.arraycopy: an illegal range changes nothing and throws. */
  method ArrayCopy(src: array<Byte>, sp: int, dst: array<Byte>, dp: int, len: int) returns (thrown: bool)
    modifies dst
    ensures thrown <==> !(0 <= len && 0 <= sp && sp + len <= src.Length && 0 <= dp && dp + len <= dst.Length)
    ensures thrown ==> dst[..] == old(dst[..])
    ensures !thrown ==> dst[..] == old(dst[..dp]) + old(src[sp..sp + len]) + old(dst[dp + len..])
  {
    thrown := !(0 <= len && 0 <= sp && sp + len <= src.Length && 0 <= dp && dp + len <= dst.Length);
    if !thrown {
      forall k | 0 <= k < len {
        dst[dp + k] := src[sp + k];
      }
    }
  }

  /** InputStream.read, assuming that it fills the request or reaches end of file. */
  method Read(file: Bytes, pos: nat, buf: array<Byte>, off: nat, len: nat) returns (n: int)
    requires pos <= |file| && off + len <= buf.Length
    modifies buf
    ensures n == if len == 0 then 0 else if pos == |file| then -1
                 else if |file| - pos < len then |file| - pos else len
    ensures n <= 0 ==> buf[..] == old(buf[..])
    ensures n > 0 ==> buf[..] == old(buf[..off]) + file[pos..pos + n] + old(buf[off + n..])
  {
    if len == 0 {
      return 0;
    }
    if pos == |file| {
      return -1;
    }
    n := if |file| - pos < len then |file| - pos else len;
    forall k | 0 <= k < n {
      buf[off + k] := file[pos + k];
    }
  }

  class Chunker {
    const m: nat
    const d: int
    const maximumChunkSize: nat
    const bufferSize: nat
    const b: int
    const anchorMask: int
    var dPowerM: int
    var firstRFP: int

    // locals of the chunking loop
    const buf: array<Byte>
    const chunkBuf: array<Byte>
    var rfpHead: int
    var chunkHead: int
    var backup: int
    var rfpCount: nat
    var uploads: seq<Bytes>
    var refused: seq<nat>   // sizes that uploadChunk was given in vain

    ghost function P(): Params {
      Params(m, maximumChunkSize, d, b)
    }

    ghost function Stride(): (s: int) {
      bufferSize - m - 1
    }

    ghost predicate Shaped() {
      && P().Usable() && Stride() > 0
      && buf.Length == bufferSize && chunkBuf.Length == maximumChunkSize && buf != chunkBuf
    }

    ghost predicate Valid()
    {
      && Shaped()
      && anchorMask % Q == Pow2(MaskBits(b)) - 1
    }

    ghost predicate Unused()
      reads this`rfpHead, this`chunkHead, this`backup, this`uploads, this`refused, this`rfpCount, chunkBuf
    {
      && Now() == Carrying(0, 0, 0, Blank(maximumChunkSize), [])
      && refused == [] && rfpCount == 0
    }

    constructor (m: nat, d: int, b: int, x: nat, bufferSize: nat)
      requires 1 <= m < x && bufferSize >= m + 2
      ensures Valid() && P() == Params(m, x, d, b) && this.bufferSize == bufferSize
      ensures Unused() && fresh(buf) && fresh(chunkBuf)
    {
      this.m, this.d, this.b, this.maximumChunkSize, this.bufferSize := m, d, b, x, bufferSize;
      buf := new Byte[bufferSize](_ => 0);
      chunkBuf := new Byte[x](_ => 0);
      rfpHead, chunkHead, backup, rfpCount, uploads, refused := 0, 0, 0, 0, [], [];
      dPowerM, firstRFP := 0, 0;
      var mask := AnchorMask(b);
      anchorMask := mask;
    }

    /** 2^b - 1 by b left shifts of an int. */
    static method AnchorMask(b: int) returns (mask: int)
      ensures mask % Q == Pow2(MaskBits(b)) - 1
      ensures -0x8000_0000 <= mask < 0x8000_0000
    {
      mask := 1;
      var i := 0;
      while i < b
        invariant 0 <= i && (i == 0 || i <= b)
        invariant -0x8000_0000 <= mask < 0x8000_0000
        invariant mask % Q == ShiftedOne(i)
      {
        ShiftOnce(mask, i);
        mask := Wrap32(mask * 2);
        i := i + 1;
      }
      MaskOfShifted(mask, i);
      mask := Wrap32(mask - 1);
    }

    /** The bit pattern of 1 after `i` left shifts. */
    static ghost function ShiftedOne(i: nat): (v: int) {
      if i < 32 then Pow2(i) else 0
    }

    static lemma ShiftOnce(mask: int, i: nat)
      requires mask % Q == ShiftedOne(i)
      ensures Wrap32(mask * 2) % Q == ShiftedOne(i + 1)
    {
      Wrap32Low(mask * 2);
      var j := mask / Q;
      if i + 1 < 32 {
        PowBelow(i + 1);
        ModUnique(mask * 2, Q, 2 * j, ShiftedOne(i + 1));
      } else if i + 1 == 32 {
        Pow2Is32();
        assert Pow2(32) == 2 * Pow2(i);
        ModUnique(mask * 2, Q, 2 * j + 1, 0);
      } else {
        ModUnique(mask * 2, Q, 2 * j, 0);
      }
    }

    static lemma MaskOfShifted(mask: int, i: nat)
      requires mask % Q == ShiftedOne(i)
      ensures Wrap32(mask - 1) % Q == Pow2(MaskBits(i)) - 1
    {
      Wrap32Low(mask - 1);
      var j := mask / Q;
      if i < 32 {
        PowBelow(i);
        assert MaskBits(i) == i;
        ModUnique(mask - 1, Q, j, Pow2(i) - 1);
      } else {
        Pow2Is32();
        ModUnique(mask - 1, Q, j - 1, Q - 1);
      }
    }

    static lemma PowBelow(i: nat)
      requires i < 32
      ensures Pow2(i) < Q
    {
      Pow2Is32();
      Pow2Splits(i, 32 - i);
      assert Pow2(32 - i) == 2 * Pow2(31 - i);
      MulMonotone(Pow2(i), 2, Pow2(32 - i));
    }

    method SetDPowerM()
      modifies this`dPowerM
      ensures Cong(dPowerM, IntPow(d, m)) && -4294967296 < dPowerM < 4294967296
    {
      dPowerM := 1;
      var k, e := m, d;
      while k > 0
        invariant Cong(dPowerM * IntPow(e, k), IntPow(d, m)) && -4294967296 < dPowerM < 4294967296
      {
        ghost var p := dPowerM;
        if k % 2 == 1 {
          dPowerM := MulRem(dPowerM, e);
        }
        SquareStep(p, dPowerM, e, MulRem(e, e), k, IntPow(d, m));
        k := (k - k % 2) / 2;
        e := MulRem(e, e);
      }
    }

    method SetFirstRFP(terms: array<Byte>)
      requires terms.Length >= 1
      modifies this`firstRFP
      ensures firstRFP == FirstRFP(terms[..], d)
    {
      firstRFP := Unsigned(terms[0]);
      assert terms[..1] == [terms[0]];
      for i := 1 to terms.Length
        invariant firstRFP == FirstRFP(terms[..i], d)
      {
        assert terms[..i + 1][..i] == terms[..i];
        firstRFP := MulRem(firstRFP, d);
        firstRFP := Rem(firstRFP + Unsigned(terms[i]), Q);
      }
      assert terms[..terms.Length] == terms[..];
    }

    method GetRFP(head: Byte, tail: Byte) returns (rfp: int)
      modifies this`firstRFP
      ensures rfp == firstRFP == NextRFP(old(firstRFP), head, tail, d, dPowerM)
    {
      hide MulRem, Rem, Unsigned, Wrap64;
      firstRFP := MulRem(d, firstRFP);
      firstRFP := Rem(firstRFP - MulRem(Unsigned(head), dPowerM), Q);
      firstRFP := Rem(firstRFP + Unsigned(tail), Q);
      rfp := firstRFP;
    }

    /** The low bits of the fingerprint that the mask keeps are all zero. */
    method IsInterestedRFP(rfp: int) returns (interested: bool)
      requires Valid()
      ensures interested <==> rfp % Pow2(MaskBits(b)) == 0
    {
      var test := BitAnd(Wrap32(rfp) % Q, anchorMask % Q);
      MaskedBits(rfp, anchorMask, MaskBits(b));
      interested := test == 0;
    }

    /** uploadChunk as far as chunking sees it: an illegal size is caught inside and uploads nothing. */
    method UploadChunk(src: array<Byte>, size: nat)
      modifies this`uploads, this`refused
      ensures uploads == if size <= src.Length then old(uploads) + [src[..size]] else old(uploads)
      ensures refused == if size <= src.Length then old(refused) else old(refused) + [size]
    {
      if size <= src.Length {
        uploads := uploads + [src[..size]];
      } else {
        refused := refused + [size];
      }
    }

    /** The bookkeeping of the loop as a value. */
    ghost function Now(): (c: Carrying)
      reads this`rfpHead, this`chunkHead, this`backup, this`uploads, chunkBuf
    {
      Carrying(rfpHead, chunkHead, backup, chunkBuf[..], uploads)
    }

    /** The buffer holds `n` bytes of the file from offset `base` on. */
    ghost predicate Holds(file: Bytes, base: nat, n: nat)
      reads buf
    {
      n <= buf.Length && base + n <= |file| && buf[..n] == file[base..base + n]
    }

    /** The fingerprint is that of the window at file offset `at`. */
    ghost predicate Rolls(file: Bytes, at: nat)
      reads this`firstRFP, this`dPowerM
    {
      && 1 <= m && at + m <= |file|
      && Cong(dPowerM, IntPow(d, m))
      && Cong(firstRFP, Poly(file[at..at + m], d))
    }

    /** The chunks uploaded and carried so far, as seen at file offset `tested`. */
    ghost predicate Tracks(file: Bytes, base: nat, head: nat, tested: nat)
      reads this`rfpHead, this`chunkHead, this`backup, this`uploads, this`refused, this`rfpCount, chunkBuf
    {
      Stride() > 0 && refused == [] && rfpCount == |uploads| && State(P(), Stride(), file, Now(), base, head, tested)
    }

    /**
     The uploads so far, the sizes refused and whether a copy was out of bounds are the outcome of
     the file; the counter has every upload but the last one, and a cut that was thrown at.
     */
    ghost predicate Decided(file: Bytes, thrown: bool)
      reads this`uploads, this`refused, this`rfpCount
    {
      && Stride() > 0 && FileOutcome(P(), Stride(), file) == Outcome(uploads, refused, thrown)
      && if thrown then |uploads| <= rfpCount <= |uploads| + 1
         else rfpCount + (if file == [] then 0 else 1) == |uploads| + |refused|
    }

    /** Append bytes of the block to the carry, or throw. */
    method CopyToCarry(rfpLength: int) returns (thrown: bool)
      requires Shaped()
      modifies chunkBuf
      ensures thrown <==> !old(Now()).CanCopy(rfpLength, buf[..])
      ensures chunkBuf[..] == if thrown then old(chunkBuf[..]) else old(Now()).Copied(rfpLength, buf[..])
    {
      thrown := ArrayCopy(buf, rfpHead, chunkBuf, chunkHead, rfpLength);
    }

    /** Flush one chunk at its cut. */
    method CutChunk(rfpLength: int) returns (thrown: bool)
      requires Shaped()
      modifies this`rfpHead, this`chunkHead, this`rfpCount, this`uploads, this`refused, chunkBuf
      ensures refused == old(refused) && rfpCount == old(rfpCount) + 1
      ensures thrown <==> !old(Now()).CanCopy(rfpLength, buf[..])
      ensures thrown ==> Now() == old(Now())
      ensures !thrown ==> Now() == old(Now()).AfterCut(rfpLength, buf[..]) && |uploads| == |old(uploads)| + 1
    {
      rfpCount := rfpCount + 1;
      thrown := CopyToCarry(rfpLength);
      if thrown {
        return;
      }
      UploadChunk(chunkBuf, rfpLength);
      rfpHead := rfpHead + rfpLength;
      chunkHead := 0;
    }

    /** Slide the window to start at `i`, file offset `at`, and test it. */
    method SlideWindow(i: nat, n: nat, ghost file: Bytes, ghost base: nat, ghost at: nat) returns (interested: bool)
      requires Valid() && 1 <= i <= n - m && Holds(file, base, n) && at == base + i && Rolls(file, at - 1)
      modifies this`firstRFP
      ensures Rolls(file, at)
      ensures interested <==> IsAnchor(file[at..at + m], d, b)
    {
      var tail := i - 1 + m;
      ghost var window := file[at - 1..at - 1 + m];
      assert buf[i - 1] == buf[..n][i - 1] == file[base..base + n][i - 1] == window[0];
      assert buf[tail] == buf[..n][tail] == file[base..base + n][tail] == file[at - 1 + m];
      assert window[1..] + [file[at - 1 + m]] == file[at..at + m];
      NextRFPCong(firstRFP, window, file[at - 1 + m], d, dPowerM);
      var rfp := GetRFP(buf[i - 1], buf[tail]);
      interested := IsInterestedRFP(rfp);
      DivisibleIsAnchor(rfp, file[at..at + m], d, b, anchorMask);
    }

    /** Cut at the end of window `i` if it is an anchor or the chunk is full. */
    method CutIfDue(i: nat, interested: bool, n: nat, ghost file: Bytes, ghost base: nat, ghost at: nat,
                    ghost head: nat)
      returns (thrown: bool, ghost head': nat)
      requires Shaped() && 1 <= i <= n - m - 1 && Holds(file, base, n) && at == base + i
      requires interested <==> IsAnchor(file[at..at + m], d, b)
      requires IsRefill(base, Stride()) && Tracks(file, base, head, at + m - 1)
      modifies this`rfpHead, this`chunkHead, this`rfpCount, this`uploads, this`refused, chunkBuf
      ensures thrown ==> Decided(file, true)
      ensures !thrown ==> Tracks(file, base, head', at + m)
    {
      hide State, FileOutcome, IsAnchor, Carrying.AfterCut, Carrying.CanCopy;
      thrown := false;
      var tail := i - 1 + m;
      var rfpLength := tail - rfpHead + 1;
      ghost var c := Now();
      ghost var e := at + m;
      assert rfpLength == e - base - c.rfpHead;
      head' := CutDecision(P(), Stride(), file, c, base, head, e, buf[..], n, interested);
      if (interested || rfpLength == maximumChunkSize) && rfpLength >= m {
        assert CutsBlock(P(), rfpLength, interested);
        thrown := CutChunk(rfpLength);
        assert thrown <==> !c.CanCopy(rfpLength, buf[..]);
        assert !thrown ==> Now() == c.AfterCut(rfpLength, buf[..]);
      } else {
        assert !CutsBlock(P(), rfpLength, interested);
      }
    }

    /** End of the block: carry the unfinished chunk over and shift the last m + 1 bytes to the front. */
    method FlushBlock(i: nat, n: nat, ghost file: Bytes, ghost base: nat, ghost at: nat, ghost head: nat)
      returns (thrown: bool)
      requires Shaped() && 1 <= i && i + m + 1 == n && Holds(file, base, n) && at == base + i
      requires Tracks(file, base, head, at + m)
      modifies this`rfpHead, this`chunkHead, this`backup, buf, chunkBuf
      ensures thrown ==> Decided(file, true)
      ensures !thrown ==> Holds(file, at, m + 1) && Tracks(file, at, head, at + m)
    {
      hide State, FileOutcome;
      thrown := CarryOver(i, n, file, base, at, head);
      if thrown {
        return;
      }
      BlockSlice(file, base, buf[..], n, i, n);
      var _ := ArrayCopy(buf, i, buf, 0, m + 1);
      assert buf[..m + 1] == old(buf[i..n]);
    }

    method CarryOver(i: nat, n: nat, ghost file: Bytes, ghost base: nat, ghost at: nat, ghost head: nat)
      returns (thrown: bool)
      requires Shaped() && 1 <= i && i + m + 1 == n && Holds(file, base, n) && at == base + i
      requires Tracks(file, base, head, at + m)
      modifies this`rfpHead, this`chunkHead, this`backup, chunkBuf
      ensures thrown ==> Decided(file, true)
      ensures !thrown ==> Tracks(file, at, head, at + m)
    {
      hide State, FileOutcome, Carrying.Copied, Carrying.CanCopy;
      thrown := false;
      FlushStep(P(), Stride(), file, Now(), base, at, head, i, buf[..], n);
      var rfpLength := i - rfpHead;
      if rfpLength > 0 {
        thrown := AppendToCarry(rfpLength);
      } else {
        rfpHead := rfpHead - i;
      }
    }

    /** The rest of the block goes to the end of the carry. */
    method AppendToCarry(rfpLength: nat) returns (thrown: bool)
      requires Shaped()
      modifies this`rfpHead, this`chunkHead, this`backup, chunkBuf
      ensures thrown <==> !old(Now()).CanCopy(rfpLength, buf[..])
      ensures thrown ==> Now() == old(Now())
      ensures !thrown ==>
                && rfpHead == 0 && chunkHead == old(chunkHead) + rfpLength && backup == old(backup) + rfpLength
                && chunkBuf[..] == old(Now()).Copied(rfpLength, buf[..])
    {
      thrown := CopyToCarry(rfpLength);
      if !thrown {
        chunkHead := chunkHead + rfpLength;
        backup := backup + rfpLength;
        rfpHead := 0;
      }
    }

    /** All windows of one block but the last one; `at` is the file offset the next block starts at. */
    method ProcessBlock(n: nat, ghost file: Bytes, ghost base: nat, ghost head: nat)
      returns (thrown: bool, ghost at: nat, ghost head': nat)
      requires Valid() && m + 2 <= n && Holds(file, base, n) && Rolls(file, base)
      requires IsRefill(base, Stride()) && Tracks(file, base, head, base + m)
      modifies this, buf, chunkBuf
      ensures thrown ==> Decided(file, true)
      ensures !thrown ==>
                && at == base + n - m - 1 && (n == bufferSize ==> IsRefill(at, Stride()))
                && Holds(file, at, m + 1) && Rolls(file, at) && Tracks(file, at, head', at + m)
    {
      hide State, Rolls, Holds, FileOutcome;
      thrown, head', at := false, head, base;
      assert IsRefill(base + Stride(), Stride());
      var i := 1;
      while true
        invariant 1 <= i <= n - m - 1 && at == base + i - 1
        invariant Holds(file, base, n) && Rolls(file, at)
        invariant Tracks(file, base, head', at + m)
        decreases n - i
      {
        at := at + 1;
        var interested := SlideWindow(i, n, file, base, at);
        thrown, head' := CutIfDue(i, interested, n, file, base, at, head');
        if thrown {
          return;
        }
        if n - m - 1 == i {
          thrown := FlushBlock(i, n, file, base, at, head');
          return;
        }
        i := i + 1;
      }
    }

    /** The fingerprint of the first window of the file, and its test. */
    method FirstWindow(n: nat, ghost file: Bytes) returns (interested: bool)
      requires Valid() && m + 1 <= n && Holds(file, 0, n)
      modifies this`dPowerM, this`firstRFP
      ensures Rolls(file, 0)
      ensures interested <==> IsAnchor(file[..m], d, b)
    {
      hide Cong, Poly, IntPow, FirstRFP, IsAnchor, Pow2, MaskBits;
      var terms := new Byte[m];
      var _ := ArrayCopy(buf, 0, terms, 0, m);
      ghost var window := file[..m];
      BlockSlice(file, 0, buf[..], n, 0, m);
      assert terms[..] == buf[0..m] == file[0..0 + m] == window;
      SetDPowerM();
      SetFirstRFP(terms);
      FirstRFPCong(window, d);
      interested := IsInterestedRFP(firstRFP);
      DivisibleIsAnchor(firstRFP, window, d, b, anchorMask);
    }

    method FirstChunk(interested: bool, n: nat, ghost file: Bytes) returns (ghost head: nat)
      requires Shaped() && m + 1 <= n && Holds(file, 0, n)
      requires Unused()
      requires interested <==> IsAnchor(file[..m], d, b)
      modifies this`rfpHead, this`chunkHead, this`rfpCount, this`uploads, this`refused, chunkBuf
      ensures Tracks(file, 0, head, m)
    {
      FirstStep(P(), Stride(), file, Now(), buf[..], n, interested);
      hide State, IsAnchor, Carrying.AfterCut, Carrying.CanCopy, Blank;
      head := 0;
      if interested {
        var _ := CutChunk(m);
        head := m;
      }
    }

    /** Upload what is carried and what the buffer still holds of the last m + 1 bytes. */
    method LastChunk(ghost file: Bytes, ghost base: nat, ghost head: nat) returns (thrown: bool)
      requires Shaped() && base + m + 1 == |file| && Holds(file, base, m + 1)
      requires Tracks(file, base, head, base + m)
      modifies this`uploads, this`refused, chunkBuf
      ensures Decided(file, thrown)
    {
      hide State, FileOutcome, Carrying.Copied, Carrying.CanCopy;
      LastStep(P(), Stride(), file, Now(), base, head, buf[..]);
      var rfpLength := m - rfpHead + 1;
      thrown := CopyToCarry(rfpLength);
      if thrown {
        return;
      }
      CopyFits(old(Now()), rfpLength, buf[..]);
      UploadChunk(chunkBuf, rfpLength + backup);
    }

    /** More bytes behind the ones already held. */
    method Refill(file: Bytes, pos: nat, shift: nat, ghost base: nat) returns (bytesRead: int)
      requires Shaped() && pos == base + shift && pos <= |file|
      requires shift == 0 || (shift == m + 1 && Holds(file, base, shift))
      modifies buf
      ensures bytesRead <= 0 <==> pos == |file|
      ensures bytesRead <= 0 ==> Holds(file, base, shift)
      ensures bytesRead > 0 ==> Holds(file, base, shift + bytesRead)
      ensures bytesRead > 0 ==> pos + bytesRead == |file| || shift + bytesRead == buf.Length
    {
      ghost var before := buf[..shift];
      bytesRead := Read(file, pos, buf, shift, buf.Length - shift);
      if bytesRead > 0 {
        assert buf[..shift + bytesRead] == before + file[pos..pos + bytesRead];
        assert file[base..base + shift] + file[pos..pos + bytesRead] == file[base..base + (shift + bytesRead)];
      }
    }

    /** A file no longer than one window is uploaded as it is. */
    method UploadWhole(n: nat, file: Bytes)
      requires Shaped() && 0 < n == |file| <= m && Holds(file, 0, n) && uploads == [] && refused == [] && rfpCount == 0
      modifies this`uploads, this`refused
      ensures Decided(file, false)
    {
      SmallFile(P(), Stride(), file);
      assert file[0..0 + n] == file;
      UploadChunk(buf, n);
    }

    /** A block of more than m bytes; the first one starts the fingerprint. */
    method OneBlock(n: nat, isStart: bool, ghost file: Bytes, ghost base: nat, ghost head: nat)
      returns (finished: bool, thrown: bool, ghost at: nat, ghost head': nat)
      requires Valid() && m < n && Holds(file, base, n) && IsRefill(base, Stride())
      requires isStart ==>
                 && base == 0 && Unused()
                 && (n == |file| || n == bufferSize)
      requires !isStart ==> m + 2 <= n && Rolls(file, base) && Tracks(file, base, head, base + m)
      modifies this, buf, chunkBuf
      ensures finished ==> Decided(file, thrown)
      ensures !finished ==>
                && at == base + n - m - 1 && (n == bufferSize ==> IsRefill(at, Stride()))
                && Holds(file, at, m + 1) && Rolls(file, at) && Tracks(file, at, head', at + m)
    {
      hide State, Rolls;
      finished, thrown, at, head' := false, false, base, head;
      if isStart {
        var interested := FirstWindow(n, file);
        head' := FirstChunk(interested, n, file);
        if n == m + 1 {
          finished := true;
          thrown := LastChunk(file, 0, head');
          return;
        }
      }
      thrown, at, head' := ProcessBlock(n, file, base, head');
      finished := thrown;
    }

    /**
     Chunking of a whole file of any length: what is uploaded is the outcome defined on the
     file. It is the list of greedy chunks if and only if no chunk but the last is torn by a
     refill, and it keeps the bytes of the file if and only if the file survives its torn chunks.
     */
    method Chunking(file: Bytes) returns (thrown: bool)
      requires Valid() && Unused()
      modifies this, buf, chunkBuf
      ensures Outcome(uploads, refused, thrown) == FileOutcome(P(), Stride(), file)
      ensures uploads == Greedy(P(), file) <==> Intact(P(), file, 0, Stride())
      ensures Intact(P(), file, 0, Stride()) ==> !thrown && refused == [] && Concat(uploads) == file
      ensures Concat(uploads) == file <==> Survives(P(), Stride(), file)
      ensures |Concat(uploads)| == |file| <==> !thrown && refused == []
      ensures thrown <==> SomeOverrun(P(), Stride(), file, 0)
      ensures thrown ==> |uploads| <= rfpCount <= |uploads| + 1
      ensures !thrown ==> rfpCount + (if file == [] then 0 else 1) == |uploads| + |refused|
      ensures !thrown ==> |Concat(uploads)| + Total(refused) == |file|
    {
      hide State, Rolls, Tracks, Survives, SomeOverrun, Greedy, Concat, Intact, FileOutcome, Total, Blank;
      OutcomeMeaning(P(), Stride(), file);
      EmptyOutcome(P(), Stride());
      var pos: nat, shift: nat, isStart := 0, 0, true;
      ghost var base: nat, head: nat := 0, 0;
      while true
        invariant pos == base + shift && pos <= |file|
        invariant pos < |file| ==> IsRefill(base, Stride())
        invariant isStart ==>
                    && shift == 0
                    && (pos == 0 ==> base == 0 && Unused())
                    && (pos != 0 ==> pos == |file| && Decided(file, false))
        invariant !isStart ==>
                    && shift == m + 1 && Holds(file, base, m + 1)
                    && Rolls(file, base) && Tracks(file, base, head, base + m)
        decreases |file| - pos
      {
        var bytesRead := Refill(file, pos, shift, base);
        if bytesRead <= 0 {
          break;
        }
        var n := bytesRead + shift;
        if n > m {
          var finished;
          ghost var at;
          finished, thrown, at, head := OneBlock(n, isStart, file, base, head);
          if finished {
            return;
          }
          isStart := false;
          pos, base, shift := pos + bytesRead, at, m + 1;
        } else {
          UploadWhole(bytesRead, file);
          pos, base := pos + bytesRead, pos + bytesRead;
        }
      }
      thrown := false;
      if shift != 0 {
        thrown := LastChunk(file, base, head);
      }
    }
  }
}

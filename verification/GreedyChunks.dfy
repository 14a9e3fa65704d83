/**
 What content-defined chunking promises: a greedy cutter defined directly on the file,
 with the hash of each window computed from scratch.
 */
module GreedyChunks {
  import opened Fingerprint

  type Bytes = seq<Byte>

  /** Window size m, maximum chunk size x, hash base d, mask bits b. */
  datatype Params = Params(m: nat, x: nat, d: int, b: int) {
    predicate Usable() {
      1 <= m < x
    }
  }

  /** A chunk that starts at f[0] may end after `l` bytes. */
  ghost predicate CutAt(p: Params, f: Bytes, l: int) {
    && 1 <= l <= |f|
    && (|| l == |f|
        || (l >= p.m && (l == p.x || IsAnchor(f[l - p.m..l], p.d, p.b))))
  }

  ghost function NextCut(p: Params, f: Bytes, l: nat): (c: nat)
    requires 1 <= l <= |f|
    ensures l <= c && CutAt(p, f, c)
    ensures forall k :: l <= k < c ==> !CutAt(p, f, k)
    decreases |f| - l
  {
    if CutAt(p, f, l) then l else NextCut(p, f, l + 1)
  }

  /** The greedy chunks of a file: always cut at the least possible length. */
  ghost function Greedy(p: Params, f: Bytes): (chunks: seq<Bytes>)
    decreases |f|
  {
    if f == [] then []
    else
      var l := NextCut(p, f, 1);
      [f[..l]] + Greedy(p, f[l..])
  }

  ghost function Concat(chunks: seq<Bytes>): (f: Bytes) {
    if chunks == [] then [] else chunks[0] + Concat(chunks[1..])
  }

  lemma {:induction false} GreedyCoversFile(p: Params, f: Bytes)
    ensures Concat(Greedy(p, f)) == f
    decreases |f|
  {
    if f != [] {
      var l := NextCut(p, f, 1);
      GreedyCoversFile(p, f[l..]);
      assert Greedy(p, f)[1..] == Greedy(p, f[l..]);
      assert f == f[..l] + f[l..];
    }
  }

  lemma GreedyOfNothing(p: Params, f: Bytes)
    ensures Greedy(p, f) != [] ==> f != []
  {
  }

  lemma FirstCutFits(p: Params, f: Bytes)
    requires p.Usable() && f != []
    ensures var l := NextCut(p, f, 1);
            && 1 <= l <= p.x && l <= |f| && (l == |f| || p.m <= l)
            && Greedy(p, f) == [f[..l]] + Greedy(p, f[l..])
            && (l == |f| ==> Greedy(p, f[l..]) == [])
  {
    hide IsAnchor;
    var l := NextCut(p, f, 1);
    assert l > p.x ==> CutAt(p, f, p.x);
    assert l == |f| ==> f[l..] == [];
  }

  /** Every chunk but the last has a length from m to x; the last one has at most x bytes, or is a file below m. */
  lemma {:induction false} GreedySizes(p: Params, f: Bytes, k: nat)
    requires p.Usable() && k < |Greedy(p, f)|
    ensures 1 <= |Greedy(p, f)[k]| <= p.x
    ensures k < |Greedy(p, f)| - 1 ==> p.m <= |Greedy(p, f)[k]|
    decreases |f|
  {
    hide Greedy, NextCut, CutAt;
    GreedyOfNothing(p, f);
    var l := NextCut(p, f, 1);
    FirstCutFits(p, f);
    if k > 0 {
      GreedySizes(p, f[l..], k - 1);
    }
  }

  /** Cutting at a known least length. */
  lemma GreedyCutsAt(p: Params, f: Bytes, l: nat)
    requires CutAt(p, f, l) && forall k :: 1 <= k < l ==> !CutAt(p, f, k)
    ensures f != [] && NextCut(p, f, 1) == l
    ensures Greedy(p, f) == [f[..l]] + Greedy(p, f[l..])
  {
    var c := NextCut(p, f, 1);
    assert c == l by {
      assert !(c < l) && !(l < c);
    }
  }

  lemma CutInFull(p: Params, f: Bytes, k: nat)
    requires p.Usable() && 1 <= k <= |f|
    ensures CutAt(p, f, k) <==>
              || k == |f|
              || (k >= p.m && (|| k == p.x
                               || Poly(f[..k][k - p.m..], p.d)
                                  % Pow2(if p.b <= 0 then 0 else if p.b < 32 then p.b else 32) == 0))
    ensures k >= p.m ==> f[..k][k - p.m..] == f[k - p.m..k]
  {
    hide Poly, Pow2;
    if k >= p.m {
      assert f[..k][k - p.m..] == f[k - p.m..k];
    }
  }

  /**
     The first greedy chunk, in full: it ends with the file, or it has at least m bytes and either the
     maximum size or a last window whose hash is divisible by 2^min(b, 32) ...
     */
  lemma FirstGreedyChunk(p: Params, f: Bytes)
    requires p.Usable() && f != []
    ensures var chunks := Greedy(p, f);
            && chunks != []
            && var l := |chunks[0]|;
               && 1 <= l <= |f| && chunks[0] == f[..l] && chunks[1..] == Greedy(p, f[l..])
               && (|| l == |f|
                   || (l >= p.m && (|| l == p.x
                                    || Poly(f[..l][l - p.m..], p.d)
                                       % Pow2(if p.b <= 0 then 0 else if p.b < 32 then p.b else 32) == 0)))
  {
    var l := NextCut(p, f, 1);
    GreedyCutsAt(p, f, l);
    CutInFull(p, f, l);
    hide Greedy, NextCut, CutAt, Poly, Pow2;
  }

  /** ... and no shorter piece of at least m bytes has. */
  lemma NoShorterChunk(p: Params, f: Bytes, k: nat)
    requires p.Usable() && f != [] && Greedy(p, f) != [] && p.m <= k < |Greedy(p, f)[0]| && k <= |f|
    ensures k != p.x
    ensures Poly(f[..k][k - p.m..], p.d) % Pow2(if p.b <= 0 then 0 else if p.b < 32 then p.b else 32) != 0
  {
    var l := NextCut(p, f, 1);
    GreedyCutsAt(p, f, l);
    assert !CutAt(p, f, k);
    CutInFull(p, f, k);
    hide Greedy, NextCut, CutAt, Poly, Pow2;
  }

  /** `k` chunks of the file end exactly before its suffix `s`. */
  ghost predicate CutsBefore(p: Params, f: Bytes, s: Bytes, k: nat) {
    k <= |Greedy(p, f)| && f == Concat(Greedy(p, f)[..k]) + s
  }

  lemma {:induction false} ChunksAfterCut(p: Params, f: Bytes, s: Bytes, k: nat)
    requires CutsBefore(p, f, s, k)
    ensures Greedy(p, f)[k..] == Greedy(p, s)
    decreases k
  {
    if k == 0 {
      assert Greedy(p, f)[..0] == [];
      assert f == s;
    } else {
      var g, l := Greedy(p, f), NextCut(p, f, 1);
      assert g[..k][1..] == g[1..][..k - 1];
      assert Concat(g[..k]) == g[0] + Concat(g[1..][..k - 1]);
      assert f[l..] == Concat(g[1..][..k - 1]) + s by {
        assert f == g[0] + (Concat(g[1..][..k - 1]) + s);
      }
      ChunksAfterCut(p, f[l..], s, k - 1);
    }
  }

  /**
     Resynchronisation: two files that end alike and both have a cut exactly before the
     common end are cut identically from there on, whatever comes before.
     */
  lemma Resynchronises(p: Params, f: Bytes, f': Bytes, s: Bytes, k: nat, k': nat)
    requires CutsBefore(p, f, s, k) && CutsBefore(p, f', s, k')
    ensures Greedy(p, f)[k..] == Greedy(p, f')[k'..]
  {
    ChunksAfterCut(p, f, s, k);
    ChunksAfterCut(p, f', s, k');
  }

  // ---- files longer than the buffer

  /**
     The buffer is refilled at every multiple of `stride` bytes, keeping the last m + 1
     bytes: the first refill point after offset `h`.
     */
  function RefillAfter(h: nat, stride: nat): (r: nat)
    requires stride > 0
    ensures h < r <= h + stride
  {
    if h < stride then stride else stride + RefillAfter(h - stride, stride)
  }

  predicate IsRefill(base: nat, stride: nat)
    requires stride > 0
  {
    base == 0 || (base >= stride && IsRefill(base - stride, stride))
  }

  /** The chunk [h, e) starts before a refill point and its cut is only found after the refill. */
  predicate Torn(h: nat, e: nat, m: nat, stride: nat)
    requires stride > 0
  {
    RefillAfter(h, stride) + m < e
  }

  /** No chunk but the last is torn; `f` are the bytes from offset `h` on. */
  ghost predicate Intact(p: Params, f: Bytes, h: nat, stride: nat)
    requires stride > 0
    decreases |f|
  {
    f == [] ||
    var l := NextCut(p, f, 1);
    && (l == |f| || !Torn(h, h + l, p.m, stride))
    && Intact(p, f[l..], h + l, stride)
  }

  /** A file that fits in one buffer of stride + m + 1 bytes is never torn. */
  lemma {:induction false} OneBufferIsIntact(p: Params, f: Bytes, h: nat, stride: nat)
    requires stride > 0 && h + |f| <= stride + p.m + 1
    ensures Intact(p, f, h, stride)
    decreases |f|
  {
    if f != [] {
      var l := NextCut(p, f, 1);
      NextRefill(h, 0, stride);
      OneBufferIsIntact(p, f[l..], h + l, stride);
    }
  }

  /** Which side of a refill point an offset is on decides where the next one lies. */
  lemma {:induction false} NextRefill(h: nat, base: nat, stride: nat)
    requires stride > 0 && IsRefill(base, stride)
    ensures h >= base ==> RefillAfter(h, stride) >= base + stride
    ensures h < base ==> RefillAfter(h, stride) <= base
  {
    if base > 0 && h >= stride {
      NextRefill(h - stride, base - stride, stride);
    }
  }
}

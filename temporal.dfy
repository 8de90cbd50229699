/** The optional temporal boundary extension applied to a stack before
    stitching (`include_first_and_last`), and the trim that removes the added
    frames from the stitched output. Frames are opaque values of type `F`. */
module Temporal {

  datatype Option<T> = None | Some(value: T)

  /** The values of `include_first_and_last`; any value other than "repeat"
      and "mirror" behaves as `NoExtension`. */
  datatype Extension = NoExtension | RepeatEdges | MirrorEdges

  /** `patch_size[0] // 2`: the number of frames added at each end. */
  function HalfWindow(patchFrames: nat): nat
  {
    patchFrames / 2
  }

  function Min(a: int, b: int): int
  {
    if a <= b then a else b
  }

  /** Python's reading of a slice bound with step 1 against length `n`: a
      negative bound counts from the end, and the result is clamped to [0, n]. */
  function SliceBound(i: int, n: nat): nat
  {
    if i < 0 then (if n + i < 0 then 0 else n + i)
    else if i > n then n
    else i
  }

  /** The Python/torch slice `v[start:stop]`. */
  function Slice<F>(v: seq<F>, start: int, stop: int): seq<F>
  {
    var a, b := SliceBound(start, |v|), SliceBound(stop, |v|);
    if a <= b then v[a..b] else []
  }

  /** `flip(0)`: the frames in reverse order. */
  function Reverse<F>(s: seq<F>): seq<F>
  {
    seq(|s|, i requires 0 <= i < |s| => s[|s| - 1 - i])
  }

  /** `f.unsqueeze(0).repeat((n, 1, 1))`: `n` copies of one frame. */
  function Copies<F>(f: F, n: nat): seq<F>
  {
    seq(n, _ => f)
  }

  /** The number of frames the mirror extension adds at each end: `k`, or
      fewer when the stack is too short for the slices to be full. */
  function MirrorPad(n: nat, k: nat): nat
  {
    if n == 0 then 0 else Min(k, n - 1)
  }

  /** The "repeat" extension: `k` copies of the first frame, the stack, `k`
      copies of the last frame. Indexing frame 0 of an empty stack raises, so
      the stack must be non-empty (`Extend` reports that case). */
  function RepeatExtend<F>(v: seq<F>, k: nat): (r: seq<F>)
    requires |v| > 0
    ensures |r| == |v| + 2 * k
    ensures forall i :: 0 <= i < k ==> r[i] == v[0]
    ensures forall i :: 0 <= i < |v| ==> r[k + i] == v[i]
    ensures forall i :: k + |v| <= i < |r| ==> r[i] == v[|v| - 1]
  {
    Copies(v[0], k) + v + Copies(v[|v| - 1], k)
  }

  /** The "mirror" extension: frames `1 .. k` reversed, the stack, frames
      `T-k-1 .. T-2` reversed, each slice clamped as Python clamps it. */
  function MirrorExtend<F>(v: seq<F>, k: nat): (r: seq<F>)
    ensures |r| == |v| + 2 * MirrorPad(|v|, k)
    ensures forall i :: 0 <= i < |v| ==> r[MirrorPad(|v|, k) + i] == v[i]
  {
    Reverse(Slice(v, 1, k + 1)) + v + Reverse(Slice(v, -1 * (k as int) - 1, -1))
  }

  /** On a stack longer than `k` the mirror extension reflects about the
      first and the last frame, neither of which is repeated. */
  lemma MirrorShape<F>(v: seq<F>, k: nat)
    requires k < |v|
    ensures |MirrorExtend(v, k)| == |v| + 2 * k
    ensures forall i :: 0 <= i < k ==> MirrorExtend(v, k)[i] == v[k - i]
    ensures forall i :: k + |v| <= i < |v| + 2 * k ==> MirrorExtend(v, k)[i] == v[2 * |v| + k - 2 - i]
  {
    MirrorSlices(v, k);
    ReflectedEnds(v, k, MirrorExtend(v, k));
  }

  /** When the stack is longer than `k`, both mirror slices are full, so the
      extension is frames `1 .. k` reversed, the stack, frames `T-k-1 .. T-2`
      reversed. */
  lemma MirrorSlices<F>(v: seq<F>, k: nat)
    requires k < |v|
    ensures MirrorExtend(v, k) == Reverse(v[1..k + 1]) + v + Reverse(v[|v| - k - 1..|v| - 1])
  {
    assert Slice(v, 1, k + 1) == v[1..k + 1];
    assert Slice(v, -1 * (k as int) - 1, -1) == v[|v| - k - 1..|v| - 1];
  }

  /** Where each frame of a stack padded with reflected slices comes from. */
  lemma ReflectedEnds<F>(v: seq<F>, k: nat, r: seq<F>)
    requires k < |v|
    requires r == Reverse(v[1..k + 1]) + v + Reverse(v[|v| - k - 1..|v| - 1])
    ensures |r| == |v| + 2 * k
    ensures forall i :: 0 <= i < k ==> r[i] == v[k - i]
    ensures forall i :: k + |v| <= i < |v| + 2 * k ==> r[i] == v[2 * |v| + k - 2 - i]
  {
  }

  /** The trim `out[k : -1 * k]` as the driver writes it. For `k >= 1` it
      drops `k` frames from each end; for `k == 0` the stop bound is 0 and
      nothing is kept. */
  function TrimAsWritten<F>(out: seq<F>, k: nat): (r: seq<F>)
    ensures k == 0 ==> r == []
    ensures 1 <= k && 2 * k <= |out| ==>
      |r| == |out| - 2 * k && forall i :: 0 <= i < |r| ==> r[i] == out[k + i]
    ensures |out| < 2 * k ==> r == []
  {
    Slice(out, k, -1 * k)
  }

  /** The trim as intended, `out[k : len - k]`: it keeps the frames
      `k .. len - k` of the stitched output, in order, for every `k`. */
  function Trim<F>(out: seq<F>, k: nat): (r: seq<F>)
    ensures 2 * k <= |out| ==>
      |r| == |out| - 2 * k && forall i :: 0 <= i < |r| ==> r[i] == out[k + i]
    ensures |out| < 2 * k ==> r == []
  {
    Slice(out, k, |out| - k)
  }

  /** When `k` is 0 the stop bound `-1 * k` is 0, not the end, so the trim as
      written discards every frame, although nothing was added. */
  lemma TrimAsWrittenEmptiesAtZero<F>(v: seq<F>)
    requires |v| > 0
    ensures RepeatExtend(v, 0) == v && MirrorExtend(v, 0) == v
    ensures TrimAsWritten(v, 0) == [] && TrimAsWritten(v, 0) != v
  {
  }

  /** For every `k >= 1` the trim as written is the intended trim. */
  lemma TrimAgrees<F>(out: seq<F>, k: nat)
    requires k >= 1
    ensures TrimAsWritten(out, k) == Trim(out, k)
  {
  }

  /** Trimming undoes the "repeat" extension. */
  lemma RepeatRoundTrip<F>(v: seq<F>, k: nat)
    requires |v| > 0
    ensures Trim(RepeatExtend(v, k), k) == v
  {
    var r := RepeatExtend(v, k);
    assert Trim(r, k) == r[k..k + |v|];
  }

  /** Trimming undoes the "mirror" extension of a stack longer than `k`. */
  lemma MirrorRoundTrip<F>(v: seq<F>, k: nat)
    requires k < |v|
    ensures Trim(MirrorExtend(v, k), k) == v
  {
    var r := MirrorExtend(v, k);
    assert Trim(r, k) == r[k..k + |v|];
  }

  /** The trim as written undoes the "repeat" extension whenever `k >= 1`. */
  lemma RepeatRoundTripAsWritten<F>(v: seq<F>, k: nat)
    requires |v| > 0 && k >= 1
    ensures TrimAsWritten(RepeatExtend(v, k), k) == v
  {
    TrimAgrees(RepeatExtend(v, k), k);
    RepeatRoundTrip(v, k);
  }

  /** The trim as written undoes the "mirror" extension of a stack longer
      than `k` whenever `k >= 1`. */
  lemma MirrorRoundTripAsWritten<F>(v: seq<F>, k: nat)
    requires 1 <= k < |v|
    ensures TrimAsWritten(MirrorExtend(v, k), k) == v
  {
    TrimAgrees(MirrorExtend(v, k), k);
    MirrorRoundTrip(v, k);
  }

  /** On a stack of at most `k` frames the mirror slices are clamped, fewer
      than `k` frames are added at each end, and the trim removes more than
      was added. */
  lemma MirrorShortStackLosesFrames<F>(v: seq<F>, k: nat)
    requires 0 < |v| <= k
    ensures |Trim(MirrorExtend(v, k), k)| < |v|
  {
  }

  /** The extension the driver applies before stitching; `None` where
      indexing the first frame of an empty stack raises. */
  function Extend<F>(mode: Extension, v: seq<F>, patchFrames: nat): (r: Option<seq<F>>)
    ensures r.None? <==> mode == RepeatEdges && |v| == 0
    ensures mode == NoExtension ==> r == Some(v)
    ensures r.Some? && mode == RepeatEdges ==> |r.value| == |v| + 2 * HalfWindow(patchFrames)
    ensures r.Some? && mode == MirrorEdges ==> |r.value| == |v| + 2 * MirrorPad(|v|, HalfWindow(patchFrames))
  {
    match mode
    case NoExtension => Some(v)
    case RepeatEdges => if |v| == 0 then None else Some(RepeatExtend(v, HalfWindow(patchFrames)))
    case MirrorEdges => Some(MirrorExtend(v, HalfWindow(patchFrames)))
  }

  /** The trim the driver applies to the stitched output (nothing without
      extension), with the intended stop bound. It agrees with the trim as
      written whenever `patch_size[0] // 2 >= 1`. */
  function Restore<F>(mode: Extension, out: seq<F>, patchFrames: nat): (r: seq<F>)
    ensures mode == NoExtension ==> r == out
    ensures mode != NoExtension && 2 * HalfWindow(patchFrames) <= |out| ==>
      |r| == |out| - 2 * HalfWindow(patchFrames) &&
      forall i :: 0 <= i < |r| ==> r[i] == out[HalfWindow(patchFrames) + i]
    ensures mode != NoExtension && HalfWindow(patchFrames) >= 1 ==>
      r == TrimAsWritten(out, HalfWindow(patchFrames))
  {
    if mode == NoExtension then out else Trim(out, HalfWindow(patchFrames))
  }

  /** A stitched output of the extended stack's length is restored to the
      original number of frames, frame `i` of the result being frame
      `i + pad` of the output, where `pad` is the number of frames added in
      front. For "mirror" the stack must be longer than `patch_size[0] // 2`. */
  lemma RestoreAligned<F>(mode: Extension, v: seq<F>, patchFrames: nat, out: seq<F>)
    requires Extend(mode, v, patchFrames).Some?
    requires |out| == |Extend(mode, v, patchFrames).value|
    requires mode == MirrorEdges ==> HalfWindow(patchFrames) < |v|
    ensures |Restore(mode, out, patchFrames)| == |v|
    ensures forall i :: 0 <= i < |v| ==>
      Restore(mode, out, patchFrames)[i] == out[(if mode == NoExtension then 0 else HalfWindow(patchFrames)) + i]
  {
    var k := HalfWindow(patchFrames);
    if mode == MirrorEdges {
      assert MirrorPad(|v|, k) == k;
    }
    assert mode != NoExtension ==> |out| == |v| + 2 * k;
  }

  /** Extension followed by restoration gives back the original stack. */
  lemma RestoreExtend<F>(mode: Extension, v: seq<F>, patchFrames: nat)
    requires Extend(mode, v, patchFrames).Some?
    requires mode == MirrorEdges ==> HalfWindow(patchFrames) < |v|
    ensures Restore(mode, Extend(mode, v, patchFrames).value, patchFrames) == v
  {
    match mode
    case NoExtension =>
    case RepeatEdges => RepeatRoundTrip(v, HalfWindow(patchFrames));
    case MirrorEdges => MirrorRoundTrip(v, HalfWindow(patchFrames));
  }
}

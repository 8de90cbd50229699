/** The patch stitcher of `validate`: every denoised patch contributes the
    authoritative rectangle of its centre output frame to a zero-initialised
    output volume, at the absolute position its placement record names. */
module Stitching {

  /** A placement record, as produced by the coordinate generator: the
      temporal start of the patch, the authoritative rectangle in volume
      coordinates (`stack_*`) and the same rectangle in the patch's own
      coordinates (`patch_*`). Ends are exclusive, as in a slice. */
  datatype Placement = Placement(
    initS: int,
    stackStartH: int, stackEndH: int, stackStartW: int, stackEndW: int,
    patchStartH: int, patchEndH: int, patchStartW: int, patchEndW: int)

  /** One batch item: its placement record and the network's output for it,
      the 2-D centre frame (rows, then columns). */
  datatype Item = Item(rec: Placement, patch: seq<seq<int>>)

  /** One batch from the data loader: the temporal length `t` of its input
      patches and its items in batch order. */
  datatype Batch = Batch(t: nat, items: seq<Item>)

  /** One write of the stitcher, in the order it is performed. */
  datatype Write = Write(t: nat, rec: Placement, patch: seq<seq<int>>)

  /** The frame a write goes to: the centre frame of its patch. */
  function CentreFrame(w: Write): int
  {
    w.rec.initS + w.t / 2
  }

  /** The write changes voxel (s, h, x). */
  predicate Covers(w: Write, s: int, h: int, x: int)
  {
    s == CentreFrame(w) &&
    w.rec.stackStartH <= h < w.rec.stackEndH &&
    w.rec.stackStartW <= x < w.rec.stackEndW
  }

  /** The source rectangle lies inside the patch and has the extents of the
      destination rectangle. numpy raises on a mismatch unless one source
      extent is 1, where it broadcasts that row or column; the model requires
      equal extents. */
  predicate Consistent(w: Write)
  {
    var r := w.rec;
    r.stackStartH <= r.stackEndH && r.stackStartW <= r.stackEndW &&
    r.stackEndH - r.stackStartH == r.patchEndH - r.patchStartH &&
    r.stackEndW - r.stackStartW == r.patchEndW - r.patchStartW &&
    0 <= r.patchStartH && r.patchEndH <= |w.patch| &&
    0 <= r.patchStartW &&
    forall row :: r.patchStartH <= row < r.patchEndH ==> r.patchEndW <= |w.patch[row]|
  }

  /** The destination lies inside a volume of the given shape (numpy would
      wrap negative indices and clamp slices silently). */
  predicate InVolume(w: Write, frames: nat, height: nat, width: nat)
  {
    0 <= CentreFrame(w) < frames &&
    0 <= w.rec.stackStartH && w.rec.stackEndH <= height &&
    0 <= w.rec.stackStartW && w.rec.stackEndW <= width
  }

  predicate Fits(w: Write, frames: nat, height: nat, width: nat)
  {
    Consistent(w) && InVolume(w, frames, height, width)
  }

  predicate AllConsistent(ws: seq<Write>)
  {
    forall i :: 0 <= i < |ws| ==> Consistent(ws[i])
  }

  predicate AllFit(ws: seq<Write>, frames: nat, height: nat, width: nat)
  {
    forall i :: 0 <= i < |ws| ==> Fits(ws[i], frames, height, width)
  }

  /** The patch value a covering write puts at (h, x): the offset from the
      destination rectangle's corner, applied to the source rectangle's corner. */
  function Source(w: Write, h: int, x: int): int
    requires Consistent(w)
    requires w.rec.stackStartH <= h < w.rec.stackEndH
    requires w.rec.stackStartW <= x < w.rec.stackEndW
  {
    w.patch[w.rec.patchStartH + (h - w.rec.stackStartH)][w.rec.patchStartW + (x - w.rec.stackStartW)]
  }

  /** The value of voxel (s, h, x) after write `w`, given its value `v` before. */
  function Apply(w: Write, v: int, s: int, h: int, x: int): int
    requires Consistent(w)
  {
    if Covers(w, s, h, x) then Source(w, h, x) else v
  }

  /** The value of voxel (s, h, x) after the writes `ws` are performed in
      order on a voxel that held `v`. */
  function Stitched(ws: seq<Write>, v: int, s: int, h: int, x: int): int
    requires AllConsistent(ws)
    decreases |ws|
  {
    if ws == [] then v
    else Apply(ws[|ws| - 1], Stitched(ws[..|ws| - 1], v, s, h, x), s, h, x)
  }

  /** The writes of one batch, in batch order, all with the batch's `t`. */
  function Writes(b: Batch): seq<Write>
  {
    seq(|b.items|, i requires 0 <= i < |b.items| => Write(b.t, b.items[i].rec, b.items[i].patch))
  }

  /** The writes of a sequence of batches, batch after batch. */
  function Flatten(bs: seq<Batch>): seq<Write>
    decreases |bs|
  {
    if bs == [] then [] else Flatten(bs[..|bs| - 1]) + Writes(bs[|bs| - 1])
  }

  predicate BatchFits(b: Batch, frames: nat, height: nat, width: nat)
  {
    AllFit(Writes(b), frames, height, width)
  }

  /** Two writes overlap when they share the centre frame and their
      destination rectangles intersect. */
  predicate Overlap(w1: Write, w2: Write)
  {
    CentreFrame(w1) == CentreFrame(w2) &&
    w1.rec.stackStartH < w2.rec.stackEndH && w2.rec.stackStartH < w1.rec.stackEndH &&
    w1.rec.stackStartW < w2.rec.stackEndW && w2.rec.stackStartW < w1.rec.stackEndW
  }

  /** Destination regions are pairwise disjoint (the tiling the coordinate
      generator is meant to produce; it is assumed here, never derived). */
  predicate Disjoint(ws: seq<Write>)
  {
    forall i, j :: 0 <= i < j < |ws| ==> !Overlap(ws[i], ws[j])
  }

  // ---------------------------------------------------------------------
  // Properties of the specification

  /** Performing two runs of writes one after the other is performing their
      concatenation. */
  lemma {:induction false} StitchedAppend(ws1: seq<Write>, ws2: seq<Write>, v: int, s: int, h: int, x: int)
    requires AllConsistent(ws1) && AllConsistent(ws2)
    ensures AllConsistent(ws1 + ws2)
    ensures Stitched(ws1 + ws2, v, s, h, x) == Stitched(ws2, Stitched(ws1, v, s, h, x), s, h, x)
    decreases |ws2|
  {
    var all := ws1 + ws2;
    assert AllConsistent(all) by {
      forall i | 0 <= i < |all| ensures Consistent(all[i]) {
        if i < |ws1| { assert all[i] == ws1[i]; } else { assert all[i] == ws2[i - |ws1|]; }
      }
    }
    if ws2 == [] {
      assert all == ws1;
    } else {
      var init := ws2[..|ws2| - 1];
      assert all[..|all| - 1] == ws1 + init;
      assert all[|all| - 1] == ws2[|ws2| - 1];
      StitchedAppend(ws1, init, v, s, h, x);
    }
  }

  /** A voxel that no write covers keeps its value. */
  lemma {:induction false} StitchedUntouched(ws: seq<Write>, v: int, s: int, h: int, x: int)
    requires AllConsistent(ws)
    requires forall i :: 0 <= i < |ws| ==> !Covers(ws[i], s, h, x)
    ensures Stitched(ws, v, s, h, x) == v
    decreases |ws|
  {
    if ws != [] {
      StitchedUntouched(ws[..|ws| - 1], v, s, h, x);
    }
  }

  /** Writes happen in order: the last write covering a voxel decides its
      value, whatever earlier writes put there. */
  lemma {:induction false} LastWriterWins(ws: seq<Write>, k: nat, v: int, s: int, h: int, x: int)
    requires AllConsistent(ws)
    requires k < |ws| && Covers(ws[k], s, h, x)
    requires forall j :: k < j < |ws| ==> !Covers(ws[j], s, h, x)
    ensures Stitched(ws, v, s, h, x) == Source(ws[k], h, x)
    decreases |ws|
  {
    if k < |ws| - 1 {
      LastWriterWins(ws[..|ws| - 1], k, v, s, h, x);
    }
  }

  /** With disjoint destinations, a covered voxel holds the value of the one
      write that covers it, and an uncovered voxel keeps its value. */
  lemma {:induction false} DisjointStitched(ws: seq<Write>, v: int, s: int, h: int, x: int)
    requires AllConsistent(ws) && Disjoint(ws)
    ensures forall k :: 0 <= k < |ws| && Covers(ws[k], s, h, x) ==>
      Stitched(ws, v, s, h, x) == Source(ws[k], h, x)
    ensures (forall k :: 0 <= k < |ws| ==> !Covers(ws[k], s, h, x)) ==>
      Stitched(ws, v, s, h, x) == v
  {
    forall k | 0 <= k < |ws| && Covers(ws[k], s, h, x)
      ensures Stitched(ws, v, s, h, x) == Source(ws[k], h, x)
    {
      forall j | k < j < |ws| ensures !Covers(ws[j], s, h, x) {
        assert Covers(ws[j], s, h, x) ==> Overlap(ws[k], ws[j]);
      }
      LastWriterWins(ws, k, v, s, h, x);
    }
    if forall k :: 0 <= k < |ws| ==> !Covers(ws[k], s, h, x) {
      StitchedUntouched(ws, v, s, h, x);
    }
  }

  /** A voxel that some write covers holds the value of one of its covering
      writes. */
  lemma {:induction false} CoveredFromSomeWrite(ws: seq<Write>, v: int, s: int, h: int, x: int)
    requires AllConsistent(ws)
    requires exists j :: 0 <= j < |ws| && Covers(ws[j], s, h, x)
    ensures exists j ::
      0 <= j < |ws| && Covers(ws[j], s, h, x) && Stitched(ws, v, s, h, x) == Source(ws[j], h, x)
    decreases |ws|
  {
    var n := |ws| - 1;
    if Covers(ws[n], s, h, x) {
      assert Stitched(ws, v, s, h, x) == Source(ws[n], h, x);
    } else {
      var init := ws[..n];
      var j :| 0 <= j < |ws| && Covers(ws[j], s, h, x);
      assert j < n && init[j] == ws[j];
      CoveredFromSomeWrite(init, v, s, h, x);
      var i :| 0 <= i < |init| && Covers(init[i], s, h, x) &&
        Stitched(init, v, s, h, x) == Source(init[i], h, x);
      assert ws[i] == init[i];
    }
  }

  /** With disjoint destinations the order of the writes does not matter:
      any permutation of the writes stitches the same volume. */
  lemma {:induction false} OrderIndependent(ws1: seq<Write>, ws2: seq<Write>, v: int, s: int, h: int, x: int)
    requires AllConsistent(ws1) && Disjoint(ws1)
    requires multiset(ws1) == multiset(ws2)
    ensures AllConsistent(ws2)
    ensures Stitched(ws1, v, s, h, x) == Stitched(ws2, v, s, h, x)
  {
    forall i | 0 <= i < |ws2| ensures exists p :: 0 <= p < |ws1| && ws1[p] == ws2[i] {
      assert ws2[i] in multiset(ws1);
    }
    DisjointStitched(ws1, v, s, h, x);
    if k :| 0 <= k < |ws1| && Covers(ws1[k], s, h, x) {
      assert ws1[k] in multiset(ws2);
      var k2 :| 0 <= k2 < |ws2| && ws2[k2] == ws1[k];
      CoveredFromSomeWrite(ws2, v, s, h, x);
      var j :| 0 <= j < |ws2| && Covers(ws2[j], s, h, x) &&
        Stitched(ws2, v, s, h, x) == Source(ws2[j], h, x);
      var p :| 0 <= p < |ws1| && ws1[p] == ws2[j];
      // two distinct writes of ws1 covering the voxel would overlap
      assert p < k ==> Overlap(ws1[p], ws1[k]);
      assert k < p ==> Overlap(ws1[k], ws1[p]);
      assert p == k;
    } else {
      StitchedUntouched(ws2, v, s, h, x);
    }
  }

  /** When every patch window lies inside the volume (`0 <= initS` and
      `initS + t <= frames`) and all patches have temporal length `t`, the
      first `t / 2` and the last `t - 1 - t / 2` frames are never written:
      they keep the initial value. */
  lemma {:induction false} BoundaryFramesUntouched(ws: seq<Write>, t: nat, frames: nat, v: int, s: int, h: int, x: int)
    requires AllConsistent(ws)
    requires forall i :: 0 <= i < |ws| ==>
      ws[i].t == t && 0 <= ws[i].rec.initS && ws[i].rec.initS + t <= frames
    requires s < t / 2 || frames - t + t / 2 < s
    ensures Stitched(ws, v, s, h, x) == v
  {
    StitchedUntouched(ws, v, s, h, x);
  }

  lemma {:induction false} FlattenFits(bs: seq<Batch>, frames: nat, height: nat, width: nat)
    requires forall k :: 0 <= k < |bs| ==> BatchFits(bs[k], frames, height, width)
    ensures AllFit(Flatten(bs), frames, height, width)
    decreases |bs|
  {
    if bs != [] {
      var init := bs[..|bs| - 1];
      FlattenFits(init, frames, height, width);
      var a, b := Flatten(init), Writes(bs[|bs| - 1]);
      assert BatchFits(bs[|bs| - 1], frames, height, width);
      forall i | 0 <= i < |a + b| ensures Fits((a + b)[i], frames, height, width) {
        if i < |a| { assert (a + b)[i] == a[i]; } else { assert (a + b)[i] == b[i - |a|]; }
      }
    }
  }

  // ---------------------------------------------------------------------
  // The output buffer

  /** The stitcher's output volume, indexed (frame, row, column). */
  class Stitcher {
    var volume: array3<int>

    /** A zero-filled volume of the given shape. */
    constructor (frames: nat, height: nat, width: nat)
      ensures fresh(volume)
      ensures volume.Length0 == frames && volume.Length1 == height && volume.Length2 == width
      ensures forall s, h, x :: 0 <= s < frames && 0 <= h < height && 0 <= x < width ==>
        volume[s, h, x] == 0
    {
      volume := new int[frames, height, width]((s, h, x) => 0);
    }

    /** Copies the authoritative rectangle of one item's output into the
        patch's centre frame: `volume[c, sh + i, sw + j] := patch[ph + i][pw + j]`. */
    method StitchOne(t: nat, item: Item)
      requires Fits(Write(t, item.rec, item.patch), volume.Length0, volume.Length1, volume.Length2)
      modifies volume
      ensures forall s, h, x ::
        0 <= s < volume.Length0 && 0 <= h < volume.Length1 && 0 <= x < volume.Length2 &&
        Covers(Write(t, item.rec, item.patch), s, h, x) ==>
          volume[s, h, x] == Source(Write(t, item.rec, item.patch), h, x)
      ensures forall s, h, x ::
        0 <= s < volume.Length0 && 0 <= h < volume.Length1 && 0 <= x < volume.Length2 &&
        !Covers(Write(t, item.rec, item.patch), s, h, x) ==>
          volume[s, h, x] == old(volume[s, h, x])
    {
      ghost var w := Write(t, item.rec, item.patch);
      var r := item.rec;
      var c := r.initS + t / 2;
      var rows, cols := r.stackEndH - r.stackStartH, r.stackEndW - r.stackStartW;
      var i := 0;
      while i < rows
        invariant 0 <= i <= rows
        invariant forall s, h, x ::
          0 <= s < volume.Length0 && 0 <= h < volume.Length1 && 0 <= x < volume.Length2 ==>
            volume[s, h, x] ==
              if Covers(w, s, h, x) && h < r.stackStartH + i then Source(w, h, x)
              else old(volume[s, h, x])
      {
        var j := 0;
        while j < cols
          invariant 0 <= j <= cols
          invariant forall s, h, x ::
            0 <= s < volume.Length0 && 0 <= h < volume.Length1 && 0 <= x < volume.Length2 ==>
              volume[s, h, x] ==
                if Covers(w, s, h, x) &&
                   (h < r.stackStartH + i || (h == r.stackStartH + i && x < r.stackStartW + j))
                then Source(w, h, x)
                else old(volume[s, h, x])
        {
          volume[c, r.stackStartH + i, r.stackStartW + j] := item.patch[r.patchStartH + i][r.patchStartW + j];
          j := j + 1;
        }
        i := i + 1;
      }
    }

    /** Stitches the items of one batch in batch order. */
    method StitchBatch(b: Batch)
      requires BatchFits(b, volume.Length0, volume.Length1, volume.Length2)
      modifies volume
      ensures forall s, h, x ::
        0 <= s < volume.Length0 && 0 <= h < volume.Length1 && 0 <= x < volume.Length2 ==>
          volume[s, h, x] == Stitched(Writes(b), old(volume[s, h, x]), s, h, x)
    {
      ghost var ws := Writes(b);
      var i := 0;
      while i < |b.items|
        invariant 0 <= i <= |b.items|
        invariant forall s, h, x ::
          0 <= s < volume.Length0 && 0 <= h < volume.Length1 && 0 <= x < volume.Length2 ==>
            volume[s, h, x] == Stitched(ws[..i], old(volume[s, h, x]), s, h, x)
      {
        assert Fits(ws[i], volume.Length0, volume.Length1, volume.Length2);
        StitchOne(b.t, b.items[i]);
        assert ws[..i + 1][..i] == ws[..i];
        assert ws[..i + 1][i] == Write(b.t, b.items[i].rec, b.items[i].patch);
        i := i + 1;
      }
      assert ws[..i] == ws;
    }
  }

  /** `validate`: allocates a zero-filled output volume of the input's shape
      and stitches every batch in loader order. */
  method Validate(frames: nat, height: nat, width: nat, batches: seq<Batch>) returns (out: array3<int>)
    requires forall k :: 0 <= k < |batches| ==> BatchFits(batches[k], frames, height, width)
    ensures fresh(out)
    ensures out.Length0 == frames && out.Length1 == height && out.Length2 == width
    ensures AllFit(Flatten(batches), frames, height, width)
    ensures forall s, h, x :: 0 <= s < frames && 0 <= h < height && 0 <= x < width ==>
      out[s, h, x] == Stitched(Flatten(batches), 0, s, h, x)
  {
    FlattenFits(batches, frames, height, width);
    var st := new Stitcher(frames, height, width);
    var k := 0;
    while k < |batches|
      invariant 0 <= k <= |batches|
      invariant fresh(st.volume)
      invariant st.volume.Length0 == frames && st.volume.Length1 == height && st.volume.Length2 == width
      invariant AllFit(Flatten(batches[..k]), frames, height, width)
      invariant forall s, h, x :: 0 <= s < frames && 0 <= h < height && 0 <= x < width ==>
        st.volume[s, h, x] == Stitched(Flatten(batches[..k]), 0, s, h, x)
    {
      ghost var before := Flatten(batches[..k]);
      st.StitchBatch(batches[k]);
      assert batches[..k + 1][..k] == batches[..k];
      assert Flatten(batches[..k + 1]) == before + Writes(batches[k]);
      forall s, h, x | 0 <= s < frames && 0 <= h < height && 0 <= x < width
        ensures st.volume[s, h, x] == Stitched(Flatten(batches[..k + 1]), 0, s, h, x)
      {
        StitchedAppend(before, Writes(batches[k]), 0, s, h, x);
      }
      FlattenFits(batches[..k + 1], frames, height, width);
      k := k + 1;
    }
    assert batches[..k] == batches;
    out := st.volume;
  }
}

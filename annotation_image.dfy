/** The model of the cerebellum annotation editor: a volume of region ids is
    projected onto category codes, edited through a two-dimensional window
    (painting, filling, reverting), and committed back as region ids. */
module AnnotationEditor {
  import opened Outcomes
  import opened Categories
  import opened Volume
  import FloodFill

  /** Every value of a code volume is one of the codes -1 to 5. */
  predicate CodeVolume(s: seq<int>) {
    forall t :: 0 <= t < |s| ==> -1 <= s[t] <= 5
  }

  // ---------------------------------------------------------------------
  // Painting (`update_slice`)

  /** One pixel of `update_slice`: a pixel inside the window whose voxel is
      neither protected nor already of the key's code is written; painting
      `out` over a voxel whose backup code is not 0 writes `corrected`
      instead, and the key stays `corrected` from then on. The result is the
      new volume, whether a write happened, and the key after the pixel. */
  function PaintStep(v: View, vol: seq<int>, backup: seq<int>, px: Pixel, key: Category): (r: (seq<int>, bool, Category))
    requires ValidView(v) && |vol| == Size(v.shape) && |backup| == Size(v.shape)
    ensures |r.0| == |vol|
  {
    if InWindow(v, px) && Shown(v, vol, px) != Number(Prot) && Shown(v, vol, px) != Number(key) then
      var t := PixelOffset(v, px);
      var key' := if key == Out && Number(Out) != backup[t] then Corrected else key;
      (vol[t := Number(key')], true, key')
    else (vol, false, key)
  }

  /** `update_slice` over a list of pixels, in order. */
  function Paint(v: View, vol: seq<int>, backup: seq<int>, pixels: seq<Pixel>, key: Category): (r: (seq<int>, bool, Category))
    requires ValidView(v) && |vol| == Size(v.shape) && |backup| == Size(v.shape)
    ensures |r.0| == |vol|
    decreases |pixels|
  {
    if pixels == [] then (vol, false, key)
    else
      var (vol1, wrote1, key1) := Paint(v, vol, backup, pixels[..|pixels| - 1], key);
      var (vol2, wrote2, key2) := PaintStep(v, vol1, backup, pixels[|pixels| - 1], key1);
      (vol2, wrote1 || wrote2, key2)
  }

  /** A painting pass changes only voxels under listed pixels of the window
      that were not protected; it writes the key's code, or `corrected`, and
      writes `out` only where the backup is `out`. The key only ever turns
      from `out` into `corrected`. A pass that writes nothing changes
      nothing. */
  lemma {:induction false} PaintFrame(v: View, vol: seq<int>, backup: seq<int>, pixels: seq<Pixel>, key: Category)
    requires ValidView(v) && |vol| == Size(v.shape) && |backup| == Size(v.shape)
    ensures var (vol', wrote, key') := Paint(v, vol, backup, pixels, key);
            && (forall t :: 0 <= t < |vol| && vol'[t] != vol[t] ==>
                  && vol[t] != Number(Prot)
                  && (vol'[t] == Number(key) || vol'[t] == Number(Corrected))
                  && (vol'[t] == Number(Out) ==> backup[t] == Number(Out))
                  && exists px :: px in pixels && InWindow(v, px) && PixelOffset(v, px) == t)
            && (key' == key || (key == Out && key' == Corrected))
            && (!wrote ==> vol' == vol && key' == key)
    decreases |pixels|
  {
    if pixels != [] {
      var front := pixels[..|pixels| - 1];
      var px := pixels[|pixels| - 1];
      PaintFrame(v, vol, backup, front, key);
      var (vol1, wrote1, key1) := Paint(v, vol, backup, front, key);
      var (vol2, wrote2, key2) := PaintStep(v, vol1, backup, px, key1);
      forall t | 0 <= t < |vol| && vol2[t] != vol[t]
        ensures vol[t] != Number(Prot)
        ensures vol2[t] == Number(key) || vol2[t] == Number(Corrected)
        ensures vol2[t] == Number(Out) ==> backup[t] == Number(Out)
        ensures exists q :: q in pixels && InWindow(v, q) && PixelOffset(v, q) == t
      {
        if vol2[t] == vol1[t] {
          var q :| q in front && InWindow(v, q) && PixelOffset(v, q) == t;
          assert q in pixels;
        } else {
          assert px in pixels;
        }
      }
    }
  }

  /** A pass whose listed window pixels all show one code that is protected
      or already the key's changes nothing. */
  lemma {:induction false} PaintUniform(v: View, vol: seq<int>, backup: seq<int>, pixels: seq<Pixel>, key: Category, code: int)
    requires ValidView(v) && |vol| == Size(v.shape) && |backup| == Size(v.shape)
    requires code == Number(Prot) || code == Number(key)
    requires forall px :: px in pixels && InWindow(v, px) ==> Shown(v, vol, px) == code
    ensures Paint(v, vol, backup, pixels, key) == (vol, false, key)
    decreases |pixels|
  {
    if pixels != [] {
      PaintUniform(v, vol, backup, pixels[..|pixels| - 1], key, code);
      assert pixels[|pixels| - 1] in pixels;
    }
  }

  /** Painting keeps a code volume a code volume. */
  lemma {:induction false} PaintCodes(v: View, vol: seq<int>, backup: seq<int>, pixels: seq<Pixel>, key: Category)
    requires ValidView(v) && |vol| == Size(v.shape) && |backup| == Size(v.shape) && CodeVolume(vol)
    ensures CodeVolume(Paint(v, vol, backup, pixels, key).0)
  {
    PaintFrame(v, vol, backup, pixels, key);
  }

  /** After a pass every listed window pixel that was not protected shows
      the key's code or `corrected`. */
  lemma {:induction false} PaintCovers(v: View, vol: seq<int>, backup: seq<int>, pixels: seq<Pixel>, key: Category)
    requires ValidView(v) && |vol| == Size(v.shape) && |backup| == Size(v.shape)
    ensures var vol' := Paint(v, vol, backup, pixels, key).0;
            forall px :: px in pixels && InWindow(v, px) && Shown(v, vol, px) != Number(Prot) ==>
              Shown(v, vol', px) == Number(key) || Shown(v, vol', px) == Number(Corrected)
    decreases |pixels|
  {
    if pixels != [] {
      var front := pixels[..|pixels| - 1];
      var last := pixels[|pixels| - 1];
      PaintCovers(v, vol, backup, front, key);
      PaintFrame(v, vol, backup, front, key);
      var (vol1, wrote1, key1) := Paint(v, vol, backup, front, key);
      var vol2 := PaintStep(v, vol1, backup, last, key1).0;
      forall px | px in pixels && InWindow(v, px) && Shown(v, vol, px) != Number(Prot)
        ensures Shown(v, vol2, px) == Number(key) || Shown(v, vol2, px) == Number(Corrected)
      {
        if px == last {
          var t := PixelOffset(v, px);
          if vol1[t] != vol[t] {
            assert vol1[t] == Number(key) || vol1[t] == Number(Corrected);
          }
        } else {
          assert px in front;
          if InWindow(v, last) && PixelOffset(v, last) == PixelOffset(v, px) {
            PixelOffsetInjective(v, px, last);
          }
        }
      }
    }
  }

  /** Painting the pixels of one label in the window picture (what `fill`
      collects): nothing changes when the label is protected or already the
      key's code, and otherwise every one of them ends up with the key's
      code or `corrected`. */
  lemma FillPaint(v: View, vol: seq<int>, backup: seq<int>, group: seq<Pixel>, key: Category, seed: int)
    requires ValidView(v) && |vol| == Size(v.shape) && |backup| == Size(v.shape)
    requires forall k :: 0 <= k < |group| ==> FloodFill.HasLabel(WindowImage(v, vol), group[k], seed)
    ensures forall px :: px in group ==> InWindow(v, px) && Shown(v, vol, px) == seed
    ensures seed == Number(Prot) || seed == Number(key) ==> Paint(v, vol, backup, group, key) == (vol, false, key)
    ensures var vol' := Paint(v, vol, backup, group, key).0;
            seed != Number(Prot) ==>
              forall px :: px in group ==> Shown(v, vol', px) == Number(key) || Shown(v, vol', px) == Number(Corrected)
  {
    var image := WindowImage(v, vol);
    forall px | px in group
      ensures InWindow(v, px) && Shown(v, vol, px) == seed
    {
      var k :| 0 <= k < |group| && group[k] == px;
      assert FloodFill.HasLabel(image, group[k], seed);
    }
    if seed == Number(Prot) || seed == Number(key) {
      PaintUniform(v, vol, backup, group, key, seed);
    }
    PaintCovers(v, vol, backup, group, key);
  }

  // ---------------------------------------------------------------------
  // Reverting (`revert_voxels`)

  /** One pixel of `revert_voxels`: a window pixel whose voxel is not
      protected gets its backup code back. */
  function RevertStep(v: View, vol: seq<int>, backup: seq<int>, px: Pixel): (r: seq<int>)
    requires ValidView(v) && |vol| == Size(v.shape) && |backup| == Size(v.shape)
    ensures |r| == |vol|
  {
    if InWindow(v, px) && Shown(v, vol, px) != Number(Prot) then vol[PixelOffset(v, px) := backup[PixelOffset(v, px)]]
    else vol
  }

  function Revert(v: View, vol: seq<int>, backup: seq<int>, pixels: seq<Pixel>): (r: seq<int>)
    requires ValidView(v) && |vol| == Size(v.shape) && |backup| == Size(v.shape)
    ensures |r| == |vol|
    decreases |pixels|
  {
    if pixels == [] then vol
    else RevertStep(v, Revert(v, vol, backup, pixels[..|pixels| - 1]), backup, pixels[|pixels| - 1])
  }

  /** Reverting sets the voxel under every listed window pixel to its backup
      code, unless it was protected, and changes nothing else. */
  lemma {:induction false} RevertMeaning(v: View, vol: seq<int>, backup: seq<int>, pixels: seq<Pixel>)
    requires ValidView(v) && |vol| == Size(v.shape) && |backup| == Size(v.shape)
    ensures var vol' := Revert(v, vol, backup, pixels);
            && (forall t :: 0 <= t < |vol| ==>
                  vol'[t] == vol[t] || (vol[t] != Number(Prot) && vol'[t] == backup[t]))
            && (forall t :: 0 <= t < |vol| && vol'[t] != vol[t] ==>
                  exists px :: px in pixels && InWindow(v, px) && PixelOffset(v, px) == t)
            && (forall px :: px in pixels && InWindow(v, px) ==>
                  Shown(v, vol', px) == if Shown(v, vol, px) == Number(Prot) then Number(Prot) else Shown(v, backup, px))
    decreases |pixels|
  {
    if pixels != [] {
      var front := pixels[..|pixels| - 1];
      var last := pixels[|pixels| - 1];
      RevertMeaning(v, vol, backup, front);
      var vol1 := Revert(v, vol, backup, front);
      var vol2 := RevertStep(v, vol1, backup, last);
      forall t | 0 <= t < |vol| && vol2[t] != vol[t]
        ensures exists px :: px in pixels && InWindow(v, px) && PixelOffset(v, px) == t
      {
        if vol2[t] == vol1[t] {
          var q :| q in front && InWindow(v, q) && PixelOffset(v, q) == t;
          assert q in pixels;
        } else {
          assert last in pixels;
        }
      }
      forall px | px in pixels && InWindow(v, px)
        ensures Shown(v, vol2, px) == if Shown(v, vol, px) == Number(Prot) then Number(Prot) else Shown(v, backup, px)
      {
        if px != last {
          assert px in front;
          if InWindow(v, last) && PixelOffset(v, last) == PixelOffset(v, px) {
            PixelOffsetInjective(v, px, last);
          }
        }
      }
    }
  }

  /** Reverting keeps a code volume a code volume when the backup is one. */
  lemma RevertCodes(v: View, vol: seq<int>, backup: seq<int>, pixels: seq<Pixel>)
    requires ValidView(v) && |vol| == Size(v.shape) && |backup| == Size(v.shape)
    requires CodeVolume(vol) && CodeVolume(backup)
    ensures CodeVolume(Revert(v, vol, backup, pixels))
  {
    RevertMeaning(v, vol, backup, pixels);
  }

  // ---------------------------------------------------------------------
  // Committing (`apply_changes`)

  /** The region ids after a commit: each voxel whose code differs from the
      backup gets the id of its code; every other voxel gets the id in `rest`. */
  function Committed(inv: seq<int>, codes: seq<int>, backup: seq<int>, rest: seq<int>): (r: seq<int>)
    requires |inv| == 6 && CodeVolume(codes) && |backup| == |codes| && |rest| == |codes|
    ensures |r| == |codes|
  {
    seq(|codes|, t requires 0 <= t < |codes| => if codes[t] != backup[t] then Commit(inv, codes[t]) else rest[t])
  }

  /** After a commit the backup equals the codes, so committing again with no
      edit in between gives back `rest` everywhere: a commit is not
      idempotent. */
  lemma CommitAgain(inv: seq<int>, codes: seq<int>, rest: seq<int>)
    requires |inv| == 6 && CodeVolume(codes) && |rest| == |codes|
    ensures Committed(inv, codes, codes, rest) == rest
  {
  }

  // ---------------------------------------------------------------------
  // Building the code volumes (`__init__`)

  /** The codes of a volume of region ids, voxel by voxel. */
  function Projection(vol: seq<int>, d: map<string, seq<int>>): (codes: seq<int>)
    ensures |codes| == |vol| && CodeVolume(codes)
  {
    seq(|vol|, t requires 0 <= t < |vol| => Code(vol[t], d))
  }

  /** The code volume after comparison with the backup: an `out` voxel whose
      backup code differs becomes `corrected`. */
  function Reconciled(codes: seq<int>, saved: seq<int>): (r: seq<int>)
    requires |saved| == |codes|
    ensures |r| == |codes|
  {
    seq(|codes|, t requires 0 <= t < |codes| =>
      if codes[t] == Number(Out) && saved[t] != codes[t] then Number(Corrected) else codes[t])
  }

  /** Reconciliation keeps codes, changes only `out` voxels, and only where
      the backup differs; against an identical backup it changes nothing. */
  lemma ReconciledMeaning(codes: seq<int>, saved: seq<int>)
    requires |saved| == |codes| && CodeVolume(codes)
    ensures var r := Reconciled(codes, saved);
            && CodeVolume(r)
            && (forall t :: 0 <= t < |codes| ==>
                  (r[t] != codes[t] <==> codes[t] == Number(Out) && saved[t] != Number(Out)))
            && (forall t :: 0 <= t < |codes| && r[t] != codes[t] ==> r[t] == Number(Corrected))
            && (saved == codes ==> r == codes)
  {
  }

  /** `np.copy`. */
  method CopyVolume(src: array<int>) returns (dst: array<int>)
    ensures fresh(dst) && dst[..] == src[..]
  {
    dst := new int[src.Length];
    CopyInto(src, dst);
  }

  /** An in-place copy, for the reassignments of a field to a copy of another. */
  method CopyInto(src: array<int>, dst: array<int>)
    requires src.Length == dst.Length && src != dst
    modifies dst
    ensures dst[..] == src[..]
  {
    var t := 0;
    while t < src.Length
      invariant 0 <= t <= src.Length
      invariant forall u :: 0 <= u < t ==> dst[u] == src[u]
    {
      dst[t] := src[t];
      t := t + 1;
    }
  }

  /** Lines projecting a region-id volume onto codes. */
  method Project(vol: array<int>, d: map<string, seq<int>>) returns (codes: array<int>)
    ensures fresh(codes) && codes[..] == Projection(vol[..], d)
  {
    codes := new int[vol.Length];
    var t := 0;
    while t < vol.Length
      invariant 0 <= t <= vol.Length
      invariant forall u :: 0 <= u < t ==> codes[u] == Code(vol[u], d)
    {
      codes[t] := Code(vol[t], d);
      t := t + 1;
    }
  }

  method MarkCorrected(codes: array<int>, saved: array<int>)
    requires codes.Length == saved.Length && codes != saved
    modifies codes
    ensures codes[..] == Reconciled(old(codes[..]), saved[..])
  {
    var t := 0;
    while t < codes.Length
      invariant 0 <= t <= codes.Length
      invariant forall u :: 0 <= u < t ==> codes[u] == Reconciled(old(codes[..]), saved[..])[u]
      invariant forall u :: t <= u < codes.Length ==> codes[u] == old(codes[u])
    {
      if codes[t] == Number(Out) && saved[t] != codes[t] {
        codes[t] := Number(Corrected);
      }
      t := t + 1;
    }
  }

  /** A voxel of the molecular or granular layer: what the view box is
      fitted to. */
  predicate IsTissue(code: int) {
    code == Number(Mol) || code == Number(Gl)
  }

  /** The margin of the view box on axis `i`: 1 on the viewing axis, 120 on
      the last axis, 80 otherwise. */
  function Margin(axis: int, i: int): int {
    if i == axis then 1 else if i == 2 then 120 else 80
  }

  /** The number of tissue voxels before place `t`. */
  ghost function TissueCount(vol: seq<int>, t: int): (n: nat)
    requires 0 <= t <= |vol|
    ensures n <= t
  {
    if t == 0 then 0 else TissueCount(vol, t - 1) + (if IsTissue(vol[t - 1]) then 1 else 0)
  }

  lemma {:induction false} TissueCountZero(vol: seq<int>, t: int)
    requires 0 <= t <= |vol|
    ensures TissueCount(vol, t) == 0 <==> forall u :: 0 <= u < t ==> !IsTissue(vol[u])
  {
    if t > 0 {
      TissueCountZero(vol, t - 1);
    }
  }

  /** The coordinates in the editor's view of the first `n` places of a
      volume of shape `s`, in storage order. */
  ghost function Places(s: Shape, axis: int, n: int): (pts: seq<Coord>)
    requires 0 <= n <= Size(s)
    ensures |pts| == n
    ensures forall u :: 0 <= u < n ==> InShape(Seen(s, axis), pts[u])
  {
    if n == 0 then [] else Places(s, axis, n - 1) + [Locate(s, axis, n - 1)]
  }

  lemma {:induction false} PlaceAt(s: Shape, axis: int, n: int, u: int)
    requires 0 <= u < n <= Size(s)
    ensures Places(s, axis, n)[u] == Locate(s, axis, u)
  {
    if u < n - 1 {
      PlaceAt(s, axis, n - 1, u);
    }
  }

  /** The sum of the viewing-axis coordinates of the tissue voxels before
      place `t`. */
  ghost function TissueSum(vol: seq<int>, pts: seq<Coord>, axis: int, t: int): int
    requires 0 <= t <= |vol| == |pts|
  {
    if t == 0 then 0
    else TissueSum(vol, pts, axis, t - 1) + (if IsTissue(vol[t - 1]) then At(pts[t - 1], axis) else 0)
  }

  /** A sum of coordinates that all lie in `[lo, hi]` lies between `lo` and
      `hi` times their number. */
  lemma {:induction false} TissueSumBounds(vol: seq<int>, pts: seq<Coord>, axis: int, t: int, lo: int, hi: int)
    requires 0 <= t <= |vol| == |pts|
    requires forall u :: 0 <= u < t && IsTissue(vol[u]) ==> lo <= At(pts[u], axis) <= hi
    ensures lo * TissueCount(vol, t) <= TissueSum(vol, pts, axis, t) <= hi * TissueCount(vol, t)
  {
    if t > 0 {
      TissueSumBounds(vol, pts, axis, t - 1, lo, hi);
      var n := TissueCount(vol, t - 1);
      assert lo * (n + 1) == lo * n + lo && hi * (n + 1) == hi * n + hi;
    }
  }

  /** The view box and slice position fitted to the tissue voxels of `vol`:
      on each axis the box reaches from the lowest to the highest tissue
      coordinate, widened by the margin and clipped to the volume, and the
      slice is the floor of the mean tissue coordinate on the viewing axis. */
  ghost predicate ViewBox(s: Shape, axis: int, vol: seq<int>, box: seq<(int, int)>, pos: int)
    requires |vol| == Size(s) && 0 <= axis <= 2
  {
    Fitted(vol, Places(s, axis, |vol|), Seen(s, axis), axis, box, pos)
  }

  /** `ViewBox` for the tissue voxels of `vol` at coordinates `pts` in a
      volume of shape `dims`. */
  ghost predicate Fitted(vol: seq<int>, pts: seq<Coord>, dims: Shape, axis: int, box: seq<(int, int)>, pos: int)
    requires |vol| == |pts|
  {
    && |box| == 3
    && (forall t, i :: 0 <= t < |vol| && IsTissue(vol[t]) && 0 <= i < 3 ==>
          box[i].0 <= Max(0, At(pts[t], i) - Margin(axis, i)) && Min(Dim(dims, i) - 1, At(pts[t], i) + Margin(axis, i)) <= box[i].1)
    && (forall i :: 0 <= i < 3 ==>
          exists t :: 0 <= t < |vol| && IsTissue(vol[t]) && box[i].0 == Max(0, At(pts[t], i) - Margin(axis, i)))
    && (forall i :: 0 <= i < 3 ==>
          exists t :: 0 <= t < |vol| && IsTissue(vol[t]) && box[i].1 == Min(Dim(dims, i) - 1, At(pts[t], i) + Margin(axis, i)))
    && TissueCount(vol, |vol|) > 0
    && pos == TissueSum(vol, pts, axis, |vol|) / TissueCount(vol, |vol|)
  }

  /** Every tissue voxel before `t` has its coordinates within `lo..hi`. */
  ghost predicate Bounded(vol: seq<int>, pts: seq<Coord>, t: int, lo: seq<int>, hi: seq<int>)
    requires 0 <= t <= |vol| == |pts| && |lo| == 3 && |hi| == 3
  {
    forall u, i :: 0 <= u < t && IsTissue(vol[u]) && 0 <= i < 3 ==> lo[i] <= At(pts[u], i) <= hi[i]
  }

  /** Some tissue voxel before `t` has coordinate `x` on axis `i`. */
  ghost predicate ReachedAt(vol: seq<int>, pts: seq<Coord>, t: int, i: int, x: int)
    requires 0 <= t <= |vol| == |pts|
  {
    exists u :: 0 <= u < t && IsTissue(vol[u]) && At(pts[u], i) == x
  }

  /** Each bound in `lo` and `hi` is the coordinate of some tissue voxel before `t`. */
  ghost predicate Reached(vol: seq<int>, pts: seq<Coord>, t: int, lo: seq<int>, hi: seq<int>)
    requires 0 <= t <= |vol| == |pts| && |lo| == 3 && |hi| == 3
  {
    forall i :: 0 <= i < 3 ==> ReachedAt(vol, pts, t, i, lo[i]) && ReachedAt(vol, pts, t, i, hi[i])
  }

  /** What the scan of the tissue voxels before place `t` has gathered, with
      `pts[u]` the coordinates of place `u`: their number, the sum of their
      viewing-axis coordinates, and the extremes of their coordinates. */
  ghost predicate Gathered(axis: int, vol: seq<int>, pts: seq<Coord>, t: int,
                           lo: seq<int>, hi: seq<int>, sum: int, count: int)
    requires 0 <= t <= |vol| == |pts| && |lo| == 3 && |hi| == 3
  {
    && count == TissueCount(vol, t)
    && sum == TissueSum(vol, pts, axis, t)
    && (count > 0 ==> Bounded(vol, pts, t, lo, hi) && Reached(vol, pts, t, lo, hi))
  }

  lemma ExtremesSkip(vol: seq<int>, pts: seq<Coord>, t: int, lo: seq<int>, hi: seq<int>)
    requires 0 <= t < |vol| == |pts| && |lo| == 3 && |hi| == 3 && !IsTissue(vol[t])
    requires Bounded(vol, pts, t, lo, hi) && Reached(vol, pts, t, lo, hi)
    ensures Bounded(vol, pts, t + 1, lo, hi) && Reached(vol, pts, t + 1, lo, hi)
  {
    forall i | 0 <= i < 3
      ensures ReachedAt(vol, pts, t + 1, i, lo[i]) && ReachedAt(vol, pts, t + 1, i, hi[i])
    {
      var u :| 0 <= u < t && IsTissue(vol[u]) && At(pts[u], i) == lo[i];
      var w :| 0 <= w < t && IsTissue(vol[w]) && At(pts[w], i) == hi[i];
      assert 0 <= u < t + 1 && IsTissue(vol[u]) && At(pts[u], i) == lo[i];
      assert 0 <= w < t + 1 && IsTissue(vol[w]) && At(pts[w], i) == hi[i];
    }
  }

  lemma ExtremesFirst(vol: seq<int>, pts: seq<Coord>, t: int, p: Coord)
    requires 0 <= t < |vol| == |pts| && pts[t] == p && IsTissue(vol[t])
    requires forall u :: 0 <= u < t ==> !IsTissue(vol[u])
    ensures Bounded(vol, pts, t + 1, [p.0, p.1, p.2], [p.0, p.1, p.2])
    ensures Reached(vol, pts, t + 1, [p.0, p.1, p.2], [p.0, p.1, p.2])
  {
    var c := [p.0, p.1, p.2];
    forall i | 0 <= i < 3
      ensures ReachedAt(vol, pts, t + 1, i, c[i])
    {
      assert At(pts[t], i) == c[i];
    }
  }

  lemma ExtremesWiden(vol: seq<int>, pts: seq<Coord>, t: int, p: Coord, lo: seq<int>, hi: seq<int>)
    requires 0 <= t < |vol| == |pts| && pts[t] == p && IsTissue(vol[t]) && |lo| == 3 && |hi| == 3
    requires Bounded(vol, pts, t, lo, hi) && Reached(vol, pts, t, lo, hi)
    ensures Bounded(vol, pts, t + 1, [Min(lo[0], p.0), Min(lo[1], p.1), Min(lo[2], p.2)],
                                     [Max(hi[0], p.0), Max(hi[1], p.1), Max(hi[2], p.2)])
    ensures Reached(vol, pts, t + 1, [Min(lo[0], p.0), Min(lo[1], p.1), Min(lo[2], p.2)],
                                     [Max(hi[0], p.0), Max(hi[1], p.1), Max(hi[2], p.2)])
  {
    var lo', hi' := [Min(lo[0], p.0), Min(lo[1], p.1), Min(lo[2], p.2)], [Max(hi[0], p.0), Max(hi[1], p.1), Max(hi[2], p.2)];
    forall i | 0 <= i < 3
      ensures lo'[i] == Min(lo[i], At(p, i)) && hi'[i] == Max(hi[i], At(p, i))
    {
    }
    forall i | 0 <= i < 3
      ensures ReachedAt(vol, pts, t + 1, i, lo'[i]) && ReachedAt(vol, pts, t + 1, i, hi'[i])
    {
      var u :| 0 <= u < t && IsTissue(vol[u]) && At(pts[u], i) == lo[i];
      var w :| 0 <= w < t && IsTissue(vol[w]) && At(pts[w], i) == hi[i];
      if lo'[i] != lo[i] {
        assert At(pts[t], i) == lo'[i];
      }
      if hi'[i] != hi[i] {
        assert At(pts[t], i) == hi'[i];
      }
    }
  }

  lemma MeanBounds(lo: int, hi: int, sum: int, count: int)
    requires count > 0 && lo * count <= sum <= hi * count
    ensures lo <= sum / count <= hi
  {
    var q := sum / count;
    assert sum == q * count + sum % count && 0 <= sum % count < count;
    assert (q + 1) * count == q * count + count && (hi + 1) * count == hi * count + count;
    if q < lo {
      MulMono(q + 1, lo, count);
    } else if q > hi {
      MulMono(hi + 1, q, count);
    }
  }

  /** The box built from the gathered extremes is the fitted view box. */
  lemma BoxFitted(vol: seq<int>, pts: seq<Coord>, dims: Shape, axis: int, lo: seq<int>, hi: seq<int>,
                  box: seq<(int, int)>, pos: int)
    requires |vol| == |pts| && |lo| == 3 && |hi| == 3 && |box| == 3
    requires Bounded(vol, pts, |vol|, lo, hi) && Reached(vol, pts, |vol|, lo, hi)
    requires forall i :: 0 <= i < 3 ==>
               box[i] == (Max(0, lo[i] - Margin(axis, i)), Min(Dim(dims, i) - 1, hi[i] + Margin(axis, i)))
    requires TissueCount(vol, |vol|) > 0 && pos == TissueSum(vol, pts, axis, |vol|) / TissueCount(vol, |vol|)
    ensures Fitted(vol, pts, dims, axis, box, pos)
  {
    forall i | 0 <= i < 3
      ensures exists t :: 0 <= t < |vol| && IsTissue(vol[t]) && box[i].0 == Max(0, At(pts[t], i) - Margin(axis, i))
      ensures exists t :: 0 <= t < |vol| && IsTissue(vol[t]) && box[i].1 == Min(Dim(dims, i) - 1, At(pts[t], i) + Margin(axis, i))
    {
      assert ReachedAt(vol, pts, |vol|, i, lo[i]) && ReachedAt(vol, pts, |vol|, i, hi[i]);
      var u :| 0 <= u < |vol| && IsTissue(vol[u]) && At(pts[u], i) == lo[i];
      var w :| 0 <= w < |vol| && IsTissue(vol[w]) && At(pts[w], i) == hi[i];
    }
    forall t, i | 0 <= t < |vol| && IsTissue(vol[t]) && 0 <= i < 3
      ensures box[i].0 <= Max(0, At(pts[t], i) - Margin(axis, i))
      ensures Min(Dim(dims, i) - 1, At(pts[t], i) + Margin(axis, i)) <= box[i].1
    {
      assert lo[i] <= At(pts[t], i) <= hi[i];
    }
  }

  /** The fitted box lies within the volume and around the extremes. */
  lemma BoxWithin(dims: Shape, axis: int, vol: seq<int>, pts: seq<Coord>, lo: seq<int>, hi: seq<int>, box: seq<(int, int)>)
    requires |vol| == |pts| && |lo| == 3 && |hi| == 3 && |box| == 3
    requires forall u :: 0 <= u < |pts| ==> InShape(dims, pts[u])
    requires Bounded(vol, pts, |vol|, lo, hi) && Reached(vol, pts, |vol|, lo, hi)
    requires forall i :: 0 <= i < 3 ==>
               box[i] == (Max(0, lo[i] - Margin(axis, i)), Min(Dim(dims, i) - 1, hi[i] + Margin(axis, i)))
    ensures forall i :: 0 <= i < 3 ==> 0 <= box[i].0 <= box[i].1 < Dim(dims, i) && box[i].0 <= lo[i] && hi[i] <= box[i].1
  {
    forall i | 0 <= i < 3 ensures 0 <= box[i].0 <= box[i].1 < Dim(dims, i) && box[i].0 <= lo[i] && hi[i] <= box[i].1 {
      var u :| 0 <= u < |vol| && IsTissue(vol[u]) && At(pts[u], i) == lo[i];
      var w :| 0 <= w < |vol| && IsTissue(vol[w]) && At(pts[w], i) == hi[i];
      CoordBounds(dims, pts[u]);
      CoordBounds(dims, pts[w]);
      assert lo[i] <= At(pts[w], i);
    }
  }

  lemma CoordBounds(s: Shape, p: Coord)
    requires InShape(s, p)
    ensures forall i :: 0 <= i < 3 ==> 0 <= At(p, i) < Dim(s, i)
  {
  }

  /** One place of the tissue scan. */
  method ScanPlace(codes: array<int>, axis: int, ghost pts: seq<Coord>, t: int, p: Coord,
                   lo: seq<int>, hi: seq<int>, sum: int, count: int)
    returns (lo': seq<int>, hi': seq<int>, sum': int, count': int)
    requires codes.Length == |pts| && 0 <= t < codes.Length && |lo| == 3 && |hi| == 3 && pts[t] == p
    requires Gathered(axis, codes[..], pts, t, lo, hi, sum, count)
    ensures |lo'| == 3 && |hi'| == 3 && Gathered(axis, codes[..], pts, t + 1, lo', hi', sum', count')
  {
    ghost var vol := codes[..];
    if !IsTissue(codes[t]) {
      if count > 0 {
        ExtremesSkip(vol, pts, t, lo, hi);
      }
      return lo, hi, sum, count;
    }
    if count == 0 {
      TissueCountZero(vol, t);
      ExtremesFirst(vol, pts, t, p);
      lo', hi' := [p.0, p.1, p.2], [p.0, p.1, p.2];
    } else {
      ExtremesWiden(vol, pts, t, p, lo, hi);
      lo' := [Min(lo[0], p.0), Min(lo[1], p.1), Min(lo[2], p.2)];
      hi' := [Max(hi[0], p.0), Max(hi[1], p.1), Max(hi[2], p.2)];
    }
    sum', count' := sum + At(p, axis), count + 1;
  }

  /** The view box and slice position of `__init__`: the box fitted to the
      tissue voxels, the slice at the floor of their mean coordinate on the
      viewing axis; none when there is no tissue voxel. */
  method ScanTissue(codes: array<int>, s: Shape, axis: int) returns (r: Option<(seq<(int, int)>, int)>)
    requires codes.Length == Size(s) && 0 <= axis <= 2
    ensures r.None? <==> forall t :: 0 <= t < Size(s) ==> !IsTissue(codes[t])
    ensures r.Some? ==> ViewBox(s, axis, codes[..], r.value.0, r.value.1)
                        && ValidView(View(s, axis, r.value.0, r.value.1))
  {
    ghost var pts := Places(s, axis, codes.Length);
    var lo, hi, sum, count := [0, 0, 0], [0, 0, 0], 0, 0;
    var t := 0;
    while t < codes.Length
      invariant 0 <= t <= codes.Length && |lo| == 3 && |hi| == 3
      invariant Gathered(axis, codes[..], pts, t, lo, hi, sum, count)
    {
      var p := Locate(s, axis, t);
      PlaceAt(s, axis, codes.Length, t);
      lo, hi, sum, count := ScanPlace(codes, axis, pts, t, p, lo, hi, sum, count);
      t := t + 1;
    }
    ghost var vol := codes[..];
    TissueCountZero(vol, |vol|);
    if count == 0 {
      return None;
    }
    ghost var dims := Seen(s, axis);
    var box := seq(3, i requires 0 <= i < 3 =>
      (Max(0, lo[i] - Margin(axis, i)), Min(Dim(Seen(s, axis), i) - 1, hi[i] + Margin(axis, i))));
    var pos := sum / count;
    BoxWithin(dims, axis, vol, pts, lo, hi, box);
    TissueSumBounds(vol, pts, axis, |vol|, lo[axis], hi[axis]);
    MeanBounds(lo[axis], hi[axis], sum, count);
    BoxFitted(vol, pts, dims, axis, lo, hi, box, pos);
    r := Some((box, pos));
  }
}

/** Volumes stored flat in row-major order, and the two-dimensional window
    of the editor onto them: the view box, the slice position along the
    viewing axis, and the position of each window pixel in the volume. */
module Volume {

  /** The extents of a volume along its three axes. */
  type Shape = (nat, nat, nat)

  type Coord = (int, int, int)

  type Pixel = (int, int)

  function Size(s: Shape): nat {
    s.0 * s.1 * s.2
  }

  predicate InShape(s: Shape, p: Coord) {
    0 <= p.0 < s.0 && 0 <= p.1 < s.1 && 0 <= p.2 < s.2
  }

  /** The place of voxel `p` in the flat, row-major storage. */
  function Offset(s: Shape, p: Coord): int {
    (p.0 * s.1 + p.1) * s.2 + p.2
  }

  /** The voxel stored at place `t`. */
  function Decode(s: Shape, t: int): Coord
    requires s.1 > 0 && s.2 > 0
  {
    var q := t / s.2;
    (q / s.1, q % s.1, t % s.2)
  }

  lemma MulMono(a: int, b: int, c: int)
    requires a <= b && c >= 0
    ensures a * c <= b * c
  {
    assert (b - a) * c >= 0;
  }

  /** Euclidean division is unique. */
  lemma DivModUnique(t: int, n: int, q: int, r: int)
    requires n > 0 && t == q * n + r && 0 <= r < n
    ensures q == t / n && r == t % n
  {
    var q', r' := t / n, t % n;
    assert t == q' * n + r' && 0 <= r' < n;
    assert (q + 1) * n == q * n + n && (q' + 1) * n == q' * n + n;
    if q < q' {
      MulMono(q + 1, q', n);
    } else if q' < q {
      MulMono(q' + 1, q, n);
    }
  }

  lemma OffsetInRange(s: Shape, p: Coord)
    requires InShape(s, p)
    ensures 0 <= Offset(s, p) < Size(s)
  {
    var row := p.0 * s.1 + p.1;
    MulMono(p.0, s.0 - 1, s.1);
    assert (s.0 - 1) * s.1 == s.0 * s.1 - s.1;
    assert 0 <= row < s.0 * s.1;
    MulMono(row, s.0 * s.1 - 1, s.2);
    assert (s.0 * s.1 - 1) * s.2 == s.0 * s.1 * s.2 - s.2;
    assert 0 <= row * s.2;
  }

  lemma OffsetDecode(s: Shape, p: Coord)
    requires InShape(s, p)
    ensures Decode(s, Offset(s, p)) == p
  {
    var row := p.0 * s.1 + p.1;
    DivModUnique(Offset(s, p), s.2, row, p.2);
    DivModUnique(row, s.1, p.0, p.1);
  }

  lemma DecodeOffset(s: Shape, t: int)
    requires 0 <= t < Size(s)
    ensures s.1 > 0 && s.2 > 0
    ensures InShape(s, Decode(s, t)) && Offset(s, Decode(s, t)) == t
  {
    assert s.1 == 0 || s.2 == 0 ==> Size(s) == 0;
    var q := t / s.2;
    assert t == q * s.2 + t % s.2;
    assert q == q / s.1 * s.1 + q % s.1;
    assert 0 <= q;
    if q >= s.0 * s.1 {
      MulMono(s.0 * s.1, q, s.2);
    }
    if q / s.1 >= s.0 {
      MulMono(s.0, q / s.1, s.1);
    }
  }

  /** Distinct voxels are stored at distinct places. */
  lemma OffsetInjective(s: Shape, p: Coord, p': Coord)
    requires InShape(s, p) && InShape(s, p') && Offset(s, p) == Offset(s, p')
    ensures p == p'
  {
    OffsetDecode(s, p);
    OffsetDecode(s, p');
  }

  function Dim(s: Shape, i: int): nat {
    if i == 0 then s.0 else if i == 1 then s.1 else s.2
  }

  function At(p: Coord, i: int): int {
    if i == 0 then p.0 else if i == 1 then p.1 else p.2
  }

  /** The view state: the shape of the stored volume, the viewing axis, the
      view box `ids` (an inclusive range per axis) and the slice position. */
  datatype View = View(shape: Shape, axis: int, box: seq<(int, int)>, slicePos: int)

  /** The shape as the editor sees it: viewing along axis 2 swaps the first
      two axes. */
  function Seen(s: Shape, axis: int): Shape {
    if axis == 2 then (s.1, s.0, s.2) else s
  }

  /** Where a voxel of the editor's coordinates is stored; the swap is its
      own inverse, so this also maps stored coordinates to the editor's. */
  function Stored(axis: int, p: Coord): Coord {
    if axis == 2 then (p.1, p.0, p.2) else p
  }

  lemma StoredInShape(s: Shape, axis: int, p: Coord)
    ensures InShape(Seen(s, axis), p) <==> InShape(s, Stored(axis, p))
    ensures Stored(axis, Stored(axis, p)) == p
  {
  }

  /** The editor's coordinates of the voxel stored at place `t`. */
  function Locate(s: Shape, axis: int, t: int): (p: Coord)
    requires 0 <= t < Size(s)
    ensures InShape(Seen(s, axis), p)
  {
    DecodeOffset(s, t);
    StoredInShape(s, axis, Decode(s, t));
    Stored(axis, Decode(s, t))
  }

  function Dims(v: View): Shape {
    Seen(v.shape, v.axis)
  }

  function Storage(v: View, p: Coord): Coord {
    Stored(v.axis, p)
  }

  lemma StorageInShape(v: View, p: Coord)
    ensures InShape(Dims(v), p) <==> InShape(v.shape, Storage(v, p))
  {
    StoredInShape(v.shape, v.axis, p);
  }

  /** The box lies in the volume, is not empty on any axis, and the slice
      position is a valid index on the viewing axis. */
  ghost predicate ValidView(v: View) {
    && 0 <= v.axis <= 2 && |v.box| == 3
    && (forall i :: 0 <= i < 3 ==> 0 <= v.box[i].0 <= v.box[i].1 < Dim(Dims(v), i))
    && 0 <= v.slicePos < Dim(Dims(v), v.axis)
  }

  /** The two axes across the viewing axis: rows, then columns. */
  function Across(axis: int): (int, int) {
    if axis == 0 then (1, 2) else if axis == 1 then (0, 2) else (0, 1)
  }

  function Height(v: View): int
    requires |v.box| == 3
  {
    var a := Across(v.axis).0;
    v.box[a].1 - v.box[a].0 + 1
  }

  function Width(v: View): int
    requires |v.box| == 3
  {
    var b := Across(v.axis).1;
    v.box[b].1 - v.box[b].0 + 1
  }

  predicate InWindow(v: View, px: Pixel)
    requires |v.box| == 3
  {
    0 <= px.0 < Height(v) && 0 <= px.1 < Width(v)
  }

  /** `get_position`: the voxel, in the editor's coordinates, under a window
      pixel. */
  function Position(v: View, px: Pixel): Coord
    requires |v.box| == 3
  {
    if v.axis == 0 then (v.slicePos, v.box[1].0 + px.0, v.box[2].0 + px.1)
    else if v.axis == 1 then (v.box[0].0 + px.0, v.slicePos, v.box[2].0 + px.1)
    else (v.box[0].0 + px.0, v.box[1].0 + px.1, v.slicePos)
  }

  /** Where the voxel under a window pixel is stored. */
  function PixelOffset(v: View, px: Pixel): int
    requires |v.box| == 3
  {
    Offset(v.shape, Storage(v, Position(v, px)))
  }

  /** The voxel under a window pixel is in the volume and lies in the box. */
  lemma PositionInBox(v: View, px: Pixel)
    requires ValidView(v) && InWindow(v, px)
    ensures InShape(Dims(v), Position(v, px))
    ensures var p := Position(v, px);
            At(p, v.axis) == v.slicePos
            && forall i :: 0 <= i < 3 && i != v.axis ==> v.box[i].0 <= At(p, i) <= v.box[i].1
    ensures 0 <= PixelOffset(v, px) < Size(v.shape)
  {
    assert forall i :: 0 <= i < 3 ==> 0 <= v.box[i].0 <= v.box[i].1 < Dim(Dims(v), i);
    StorageInShape(v, Position(v, px));
    OffsetInRange(v.shape, Storage(v, Position(v, px)));
  }

  /** Distinct window pixels show distinct voxels. */
  lemma PixelOffsetInjective(v: View, px: Pixel, px': Pixel)
    requires ValidView(v) && InWindow(v, px) && InWindow(v, px')
    requires PixelOffset(v, px) == PixelOffset(v, px')
    ensures px == px'
  {
    PositionInBox(v, px);
    PositionInBox(v, px');
    StorageInShape(v, Position(v, px));
    StorageInShape(v, Position(v, px'));
    OffsetInjective(v.shape, Storage(v, Position(v, px)), Storage(v, Position(v, px')));
  }

  /** One index of a numpy slice expression: a single position, or a half-open range. */
  datatype Index = Single(pos: int) | Span(lo: int, hi: int)

  predicate Covers(ix: Index, x: int) {
    match ix
    case Single(pos) => x == pos
    case Span(lo, hi) => lo <= x < hi
  }

  /** `get_slice`: the slice position on the viewing axis and the box ranges
      on the two others. */
  function SliceOf(v: View): (sl: seq<Index>)
    requires |v.box| == 3
    ensures |sl| == 3
  {
    if v.axis == 0 then [Single(v.slicePos), Span(v.box[1].0, v.box[1].1 + 1), Span(v.box[2].0, v.box[2].1 + 1)]
    else if v.axis == 1 then [Span(v.box[0].0, v.box[0].1 + 1), Single(v.slicePos), Span(v.box[2].0, v.box[2].1 + 1)]
    else [Span(v.box[0].0, v.box[0].1 + 1), Span(v.box[1].0, v.box[1].1 + 1), Single(v.slicePos)]
  }

  /** The slice selects exactly the voxels under the window pixels. */
  lemma SliceIsWindow(v: View, p: Coord)
    requires ValidView(v)
    ensures (forall i :: 0 <= i < 3 ==> Covers(SliceOf(v)[i], At(p, i))) <==>
            exists px :: InWindow(v, px) && Position(v, px) == p
  {
    var sl := SliceOf(v);
    if forall i :: 0 <= i < 3 ==> Covers(sl[i], At(p, i)) {
      assert Covers(sl[0], p.0) && Covers(sl[1], p.1) && Covers(sl[2], p.2);
      var px := if v.axis == 0 then (p.1 - v.box[1].0, p.2 - v.box[2].0)
                else if v.axis == 1 then (p.0 - v.box[0].0, p.2 - v.box[2].0)
                else (p.0 - v.box[0].0, p.1 - v.box[1].0);
      assert InWindow(v, px) && Position(v, px) == p;
    }
  }

  /** The 2-D picture of a flat volume seen through the window. Which voxels
      it shows is stated by `SliceIsWindow` (exactly the `get_position`
      voxels), `PositionInBox` and `PixelOffsetInjective`. */
  function WindowImage(v: View, vol: seq<int>): (img: seq<seq<int>>)
    requires ValidView(v) && |vol| == Size(v.shape)
    ensures |img| == Height(v) && forall r :: 0 <= r < |img| ==> |img[r]| == Width(v)
    ensures forall r, c :: 0 <= r < Height(v) && 0 <= c < Width(v) ==> img[r][c] == Shown(v, vol, (r, c))
  {
    seq(Height(v), r requires 0 <= r < Height(v) => WindowRow(v, vol, r))
  }

  function WindowRow(v: View, vol: seq<int>, r: int): (row: seq<int>)
    requires ValidView(v) && |vol| == Size(v.shape) && 0 <= r < Height(v)
    ensures |row| == Width(v) && forall c :: 0 <= c < Width(v) ==> row[c] == Shown(v, vol, (r, c))
  {
    seq(Width(v), c requires 0 <= c < Width(v) => Shown(v, vol, (r, c)))
  }

  /** The value of the voxel under a window pixel; `PositionInBox` places that
      voxel in the volume, on the slice and in the box, and
      `PixelOffsetInjective` shows distinct pixels show distinct voxels. */
  function Shown(v: View, vol: seq<int>, px: Pixel): (x: int)
    requires ValidView(v) && |vol| == Size(v.shape) && InWindow(v, px)
    ensures 0 <= PixelOffset(v, px) < |vol| && x == vol[PixelOffset(v, px)]
  {
    PositionInBox(v, px);
    vol[PixelOffset(v, px)]
  }
}

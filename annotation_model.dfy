/** The editing model of the cerebellum annotation tool: the code volumes,
    the window onto them, the picture drawn from them, and the operations
    that paint, fill, revert and commit. */
module AnnotationModel {
  import opened Outcomes
  import opened Categories
  import opened Volume
  import opened AnnotationEditor
  import FloodFill

  // ---------------------------------------------------------------------
  // The grey levels of the picture

  /** The largest value shown in the first `n` pixels of row `r`. */
  function RowMax(v: View, vol: seq<int>, r: int, n: int): (m: int)
    requires ValidView(v) && |vol| == Size(v.shape) && 0 <= r < Height(v) && 1 <= n <= Width(v)
    ensures forall c :: 0 <= c < n ==> Shown(v, vol, (r, c)) <= m
    ensures exists c :: 0 <= c < n && Shown(v, vol, (r, c)) == m
  {
    if n == 1 then Shown(v, vol, (r, 0))
    else
      var m' := RowMax(v, vol, r, n - 1);
      var x := Shown(v, vol, (r, n - 1));
      if m' >= x then m' else x
  }

  /** The largest value shown in the first `n` rows of the window. */
  function RowsMax(v: View, vol: seq<int>, n: int): (m: int)
    requires ValidView(v) && |vol| == Size(v.shape) && 1 <= n <= Height(v)
    ensures forall r, c :: 0 <= r < n && 0 <= c < Width(v) ==> Shown(v, vol, (r, c)) <= m
    ensures exists r, c :: 0 <= r < n && 0 <= c < Width(v) && Shown(v, vol, (r, c)) == m
  {
    var x := RowMax(v, vol, n - 1, Width(v));
    if n == 1 then x
    else
      var m' := RowsMax(v, vol, n - 1);
      if m' >= x then m' else x
  }

  /** `np.max` of the nissl values in the window. */
  function WindowMax(v: View, vol: seq<int>): (m: int)
    requires ValidView(v) && |vol| == Size(v.shape)
  {
    RowsMax(v, vol, Height(v))
  }

  /** The grey level of a nissl value against the window maximum `m`:
      `255 * x / m` when `m` is positive, black otherwise. */
  function Shade(x: int, m: int): int {
    if m > 0 then 255 * x / m else 0
  }

  /** Nissl values between 0 and a positive maximum shade into the byte
      range, and the maximum itself shades to white. */
  lemma ShadeRange(x: int, m: int)
    requires 0 <= x <= m
    ensures 0 <= Shade(x, m) <= 255
    ensures m > 0 && x == m ==> Shade(x, m) == 255
  {
    if m > 0 {
      MulMono(x, m, 255);
      DivModUnique(255 * m, m, 255, 0);
      DivMono(255 * x, 255 * m, m);
    }
  }

  /** Over nonnegative nissl values every grey level of the window lies in
      the byte range, and the brightest pixel is white unless the window is
      all black. */
  lemma GreyRange(v: View, nissl: seq<int>, px: Pixel)
    requires ValidView(v) && |nissl| == Size(v.shape) && InWindow(v, px)
    requires forall t :: 0 <= t < |nissl| ==> nissl[t] >= 0
    ensures 0 <= Shade(Shown(v, nissl, px), WindowMax(v, nissl)) <= 255
    ensures Shown(v, nissl, px) == WindowMax(v, nissl) > 0 ==> Shade(Shown(v, nissl, px), WindowMax(v, nissl)) == 255
  {
    ShadeRange(Shown(v, nissl, px), WindowMax(v, nissl));
  }

  lemma DivMono(a: int, b: int, m: int)
    requires 0 <= a <= b && m > 0
    ensures 0 <= a / m <= b / m
  {
    var q, q' := a / m, b / m;
    assert a == q * m + a % m && b == q' * m + b % m;
    assert (q' + 1) * m == q' * m + m;
    if q > q' {
      MulMono(q' + 1, q, m);
    }
    if q < 0 {
      MulMono(q, -1, m);
    }
  }

  /** The first key, in dictionary order, whose code is `code`: the key
      lookup of `revert_voxels`. */
  method FindKey(code: int) returns (k: Option<Category>)
    ensures k == KeyOf(code)
  {
    var j := 0;
    while j < |Order|
      invariant 0 <= j <= |Order|
      invariant forall i :: 0 <= i < j ==> Number(Order[i]) != code
    {
      if Number(Order[j]) == code {
        return Some(Order[j]);
      }
      j := j + 1;
    }
    assert forall i :: 0 <= i < 6 ==> Number(Order[i]) == i;
    return None;
  }

  /** The colour `revert_voxels` draws over grey level `grey` for a restored
      code: the tint of the code's category, plain grey for a negative code,
      and no colour at all (the pixel is left as it is) for a nonnegative
      code of no category. */
  method RevertColour(grey: int, code: int) returns (rgb: Option<Rgb>)
    ensures rgb.None? <==> code >= 0 && KeyOf(code).None?
    ensures rgb.Some? ==> rgb.value == Tint(grey, code)
  {
    if code >= 0 {
      var k := FindKey(code);
      if k.Some? {
        rgb := Some(Colourise(grey, k.value));
      } else {
        rgb := None;
      }
    } else {
      rgb := Some((grey, grey, grey));
    }
  }

  /** The pixels `fill` paints: `find_group` on the window picture of a
      code volume, with the code under `position` as the label. */
  method Component(v: View, vol: seq<int>, position: Pixel, ghost enclosure: set<Pixel>) returns (group: seq<Pixel>)
    requires ValidView(v) && |vol| == Size(v.shape) && InWindow(v, position)
    requires FloodFill.Enclosure(WindowImage(v, vol), Shown(v, vol, position), enclosure)
    requires position in enclosure
    ensures var image := WindowImage(v, vol); var seed := Shown(v, vol, position);
            && (forall k :: 0 <= k < |group| ==> FloodFill.HasLabel(image, group[k], seed))
            && (forall px :: px in group <==> FloodFill.Reachable(image, seed, position, px))
  {
    var image := WindowImage(v, vol);
    var seed := image[position.0][position.1];
    group := FloodFill.FindGroup(image, position, seed, enclosure);
  }

  /** The missing key or empty id list that the lookups of `__init__` trip
      over first, in the order mol, gl, fib. */
  function IdsError(d: map<string, seq<int>>): (e: Option<PyError>)
    ensures e.None? <==> "mol" in d && "gl" in d && "fib" in d && |d["mol"]| > 0 && |d["gl"]| > 0 && |d["fib"]| > 0
    ensures e.Some? ==> e.value == KeyError || e.value == IndexError
    ensures e == Some(KeyError) <==>
              "mol" !in d || (|d["mol"]| > 0 && ("gl" !in d || (|d["gl"]| > 0 && "fib" !in d)))
  {
    if "mol" !in d then Some(KeyError)
    else if |d["mol"]| == 0 then Some(IndexError)
    else if "gl" !in d then Some(KeyError)
    else if |d["gl"]| == 0 then Some(IndexError)
    else if "fib" !in d then Some(KeyError)
    else if |d["fib"]| == 0 then Some(IndexError)
    else None
  }

  // ---------------------------------------------------------------------
  // The editor

  class AnnotationImage {
    /** The region-id volume that commits write to. */
    const annotation: array<int>
    /** The region-id volume that unedited voxels are restored from. */
    const origAnn: Option<array<int>>
    const nissl: seq<int>
    const shape: Shape
    const dictRegIds: map<string, seq<int>>
    const invIds: seq<int>
    const axis: int
    /** The edited code volume. */
    const annCpy: array<int>
    /** The code volume of the last commit. */
    const backup: array<int>
    /** The code volume before the last painting pass. */
    const previousState: array<int>
    /** The view box, one range per axis. */
    const box: seq<(int, int)>
    var slicePos: int
    /** The grey level of every window pixel. */
    const nisslImg: array2<int>
    /** The picture: the grey level tinted by the category of the voxel. */
    const picRgb: array2<Rgb>

    function CurrentView(): View
      reads this
    {
      View(shape, axis, box, slicePos)
    }

    /** The sizes and separateness of the volumes and pictures. */
    ghost predicate Shapes()
      reads this
    {
      && ValidView(CurrentView())
      && |nissl| == Size(shape) && |invIds| == 6
      && annotation.Length == Size(shape) && annCpy.Length == Size(shape)
      && backup.Length == Size(shape) && previousState.Length == Size(shape)
      && (origAnn.Some? ==> origAnn.value.Length == Size(shape)
                            && origAnn.value != annCpy && origAnn.value != backup && origAnn.value != previousState)
      && annotation != annCpy && annotation != backup && annotation != previousState
      && annCpy != backup && annCpy != previousState && backup != previousState
      && nisslImg.Length0 == Height(CurrentView()) && nisslImg.Length1 == Width(CurrentView())
      && picRgb.Length0 == Height(CurrentView()) && picRgb.Length1 == Width(CurrentView())
    }

    /** The code volumes hold codes. */
    ghost predicate Codes()
      reads this, annCpy, backup, previousState
    {
      CodeVolume(annCpy[..]) && CodeVolume(backup[..]) && CodeVolume(previousState[..])
    }

    /** The grey level of pixel `(r, c)` is its shaded nissl value, and its
        colour is that grey level tinted by the code of its voxel. */
    ghost predicate Drawn(r: int, c: int)
      requires Shapes() && 0 <= r < Height(CurrentView()) && 0 <= c < Width(CurrentView())
      reads this, annCpy, nisslImg, picRgb
    {
      var v := CurrentView();
      && nisslImg[r, c] == Shade(Shown(v, nissl, (r, c)), WindowMax(v, nissl))
      && picRgb[r, c] == Tint(nisslImg[r, c], Shown(v, annCpy[..], (r, c)))
    }

    /** Every grey level is the shaded nissl value. */
    ghost predicate Greyed()
      requires Shapes()
      reads this, nisslImg
    {
      var v := CurrentView();
      forall r, c :: 0 <= r < Height(v) && 0 <= c < Width(v) ==>
        nisslImg[r, c] == Shade(Shown(v, nissl, (r, c)), WindowMax(v, nissl))
    }

    /** Every pixel shows its grey level tinted by the code of its voxel. */
    ghost predicate Painted()
      requires Shapes()
      reads this, annCpy, nisslImg, picRgb
    {
      var v := CurrentView();
      forall r, c :: 0 <= r < Height(v) && 0 <= c < Width(v) ==>
        picRgb[r, c] == Tint(nisslImg[r, c], Shown(v, annCpy[..], (r, c)))
    }

    /** The invariant every operation keeps. The grey levels (`Greyed`) are
        set by the operations that draw the picture and are not written by
        the others. */
    ghost predicate Valid()
      reads this, annCpy, backup, previousState, nisslImg, picRgb
    {
      Shapes() && Codes() && Painted()
    }

    constructor (annotation: array<int>, origAnn: Option<array<int>>, nissl: seq<int>, shape: Shape,
                 dictRegIds: map<string, seq<int>>, axis: int, codes: array<int>, saved: array<int>,
                 box: seq<(int, int)>, slicePos: int)
      requires ValidView(View(shape, axis, box, slicePos))
      requires |nissl| == Size(shape) && annotation.Length == Size(shape)
      requires codes.Length == Size(shape) && saved.Length == Size(shape)
      requires origAnn.Some? ==> origAnn.value.Length == Size(shape) && origAnn.value != codes && origAnn.value != saved
      requires annotation != codes && annotation != saved && codes != saved
      requires CodeVolume(codes[..]) && CodeVolume(saved[..])
      requires IdsError(dictRegIds).None?
      ensures Valid() && Greyed()
      ensures this.annotation == annotation && this.origAnn == origAnn && this.nissl == nissl
      ensures this.shape == shape && this.dictRegIds == dictRegIds && this.invIds == InvIds(dictRegIds)
      ensures this.axis == axis && this.box == box && this.slicePos == slicePos
      ensures annCpy == codes && backup == saved && fresh(previousState) && previousState[..] == codes[..]
      ensures fresh(nisslImg) && fresh(picRgb)
    {
      this.annotation := annotation;
      this.origAnn := origAnn;
      this.nissl := nissl;
      this.shape := shape;
      this.dictRegIds := dictRegIds;
      this.invIds := InvIds(dictRegIds);
      this.axis := axis;
      this.annCpy := codes;
      this.backup := saved;
      var prev := CopyVolume(codes);
      this.previousState := prev;
      this.box := box;
      this.slicePos := slicePos;
      var v := View(shape, axis, box, slicePos);
      this.nisslImg := new int[Height(v), Width(v)];
      this.picRgb := new Rgb[Height(v), Width(v)];
      new;
      GenerateImage();
    }

    /** Pixels `(r, 0)` to `(r, n - 1)` are drawn. */
    ghost predicate RowDrawn(r: int, n: int)
      requires Shapes() && 0 <= r < Height(CurrentView()) && n <= Width(CurrentView())
      reads this, annCpy, nisslImg, picRgb
    {
      forall c :: 0 <= c < n ==> Drawn(r, c)
    }

    /** Rows 0 to `n - 1` are drawn. */
    ghost predicate RowsDrawn(n: int)
      requires Shapes() && n <= Height(CurrentView())
      reads this, annCpy, nisslImg, picRgb
    {
      forall r, c :: 0 <= r < n && 0 <= c < Width(CurrentView()) ==> Drawn(r, c)
    }

    /** `generate_image`: the grey level and colour of every window pixel. */
    method GenerateImage()
      requires Shapes() && Codes()
      modifies nisslImg, picRgb
      ensures Valid() && Greyed()
    {
      var v := CurrentView();
      var m := WindowMax(v, nissl);
      var r := 0;
      while r < nisslImg.Length0
        invariant 0 <= r <= nisslImg.Length0
        invariant RowsDrawn(r)
      {
        DrawRow(r, m);
        r := r + 1;
      }
      forall r, c | 0 <= r < Height(v) && 0 <= c < Width(v)
        ensures nisslImg[r, c] == Shade(Shown(v, nissl, (r, c)), WindowMax(v, nissl))
        ensures picRgb[r, c] == Tint(nisslImg[r, c], Shown(v, annCpy[..], (r, c)))
      {
        assert Drawn(r, c);
      }
    }

    /** One row of `generate_image`. */
    method DrawRow(r: int, m: int)
      requires Shapes() && 0 <= r < Height(CurrentView()) && m == WindowMax(CurrentView(), nissl)
      requires RowsDrawn(r)
      modifies nisslImg, picRgb
      ensures RowsDrawn(r + 1)
    {
      var c := 0;
      while c < nisslImg.Length1
        invariant 0 <= c <= nisslImg.Length1
        invariant RowsDrawn(r) && RowDrawn(r, c)
      {
        DrawPixel(r, c, m);
        c := c + 1;
      }
    }

    /** One pixel of `generate_image`. */
    method DrawPixel(r: int, c: int, m: int)
      requires Shapes() && 0 <= r < Height(CurrentView()) && 0 <= c < Width(CurrentView())
      requires m == WindowMax(CurrentView(), nissl)
      requires RowsDrawn(r) && RowDrawn(r, c)
      modifies nisslImg, picRgb
      ensures RowsDrawn(r) && RowDrawn(r, c + 1)
    {
      var v := CurrentView();
      ghost var codes := annCpy[..];
      var grey := Shade(Shown(v, nissl, (r, c)), m);
      PositionInBox(v, (r, c));
      var code := annCpy[PixelOffset(v, (r, c))];
      assert code == Shown(v, annCpy[..], (r, c));
      nisslImg[r, c] := grey;
      picRgb[r, c] := Tint(grey, code);
      assert annCpy[..] == codes;
      assert Drawn(r, c);
      forall r', c' | 0 <= r' < Height(v) && 0 <= c' < Width(v) && (r' < r || (r' == r && c' < c))
        ensures Drawn(r', c')
      {
        assert old(Drawn(r', c'));
        assert nisslImg[r', c'] == old(nisslImg[r', c']) && picRgb[r', c'] == old(picRgb[r', c']);
      }
    }

    /** `update_slice`: paint the listed pixels with `key`, keeping the
        picture in step; the first write saves the volume as it was. */
    method UpdateSlice(pixels: seq<Pixel>, key: Category)
      requires Valid()
      modifies annCpy, previousState, picRgb
      ensures slicePos == old(slicePos) && Valid()
      ensures var (vol, wrote, _) := Paint(CurrentView(), old(annCpy[..]), backup[..], pixels, key);
              && annCpy[..] == vol
              && previousState[..] == if wrote then old(annCpy[..]) else old(previousState[..])
    {
      ghost var v := CurrentView();
      ghost var start := annCpy[..];
      ghost var prev := previousState[..];
      var change := false;
      var k := key;
      var i := 0;
      while i < |pixels|
        invariant 0 <= i <= |pixels|
        invariant Valid()
        invariant (annCpy[..], change, k) == Paint(v, start, backup[..], pixels[..i], key)
        invariant previousState[..] == if change then start else prev
        invariant !change ==> annCpy[..] == start
      {
        assert pixels[..i + 1][..i] == pixels[..i];
        change, k := PaintPixel(pixels[i], k, change);
        i := i + 1;
      }
      assert pixels[..i] == pixels;
    }

    /** One pixel of `update_slice`. */
    method PaintPixel(px: Pixel, key: Category, change: bool) returns (change': bool, key': Category)
      requires Valid()
      modifies annCpy, previousState, picRgb
      ensures slicePos == old(slicePos)
      ensures Valid()
      ensures var (vol, wrote, k) := PaintStep(CurrentView(), old(annCpy[..]), backup[..], px, key);
              annCpy[..] == vol && key' == k && change' == (change || wrote)
      ensures previousState[..] == if !change && change' then old(annCpy[..]) else old(previousState[..])
    {
      var v := CurrentView();
      ghost var vol, bk := annCpy[..], backup[..];
      if InWindow(v, px) && Shown(v, annCpy[..], px) != Number(Prot) && Shown(v, annCpy[..], px) != Number(key) {
        change', key' := PaintVoxel(px, key, change);
        assert CurrentView() == v && backup[..] == bk;
        assert PaintStep(v, vol, bk, px, key) == (annCpy[..], true, key');
      } else {
        change', key' := change, key;
        assert PaintStep(v, vol, bk, px, key) == (vol, false, key);
      }
    }

    /** The write of `update_slice` at a window pixel whose voxel is
        neither protected nor of the key's code. */
    method PaintVoxel(px: Pixel, key: Category, change: bool) returns (change': bool, key': Category)
      requires Valid() && InWindow(CurrentView(), px)
      requires Shown(CurrentView(), annCpy[..], px) != Number(Prot) && Shown(CurrentView(), annCpy[..], px) != Number(key)
      modifies annCpy, previousState, picRgb
      ensures slicePos == old(slicePos)
      ensures Valid() && change'
      ensures var t := PixelOffset(CurrentView(), px);
              && key' == (if key == Out && Number(Out) != backup[t] then Corrected else key)
              && annCpy[..] == old(annCpy[..])[t := Number(key')]
      ensures previousState[..] == if !change then old(annCpy[..]) else old(previousState[..])
    {
      var v := CurrentView();
      PositionInBox(v, px);
      var t := PixelOffset(v, px);
      key' := if key == Out && Number(Out) != backup[t] then Corrected else key;
      if !change {
        SaveState();
      }
      change' := true;
      SetVoxel(px, key');
      assert CurrentView() == v && backup[t] == old(backup[t]);
    }

    /** `previous_state = np.copy(annCPY)`. */
    method SaveState()
      requires Valid()
      modifies previousState
      ensures slicePos == old(slicePos)
      ensures Valid() && previousState[..] == annCpy[..]
    {
      CopyInto(annCpy, previousState);
    }

    /** The write of `update_slice`: the voxel under `px` becomes the
        code of `key`, and the pixel is tinted with the key's colour. */
    method SetVoxel(px: Pixel, key: Category)
      requires Valid() && InWindow(CurrentView(), px)
      modifies annCpy, picRgb
      ensures slicePos == old(slicePos)
      ensures Valid()
      ensures 0 <= PixelOffset(CurrentView(), px) < annCpy.Length
      ensures annCpy[..] == old(annCpy[..])[PixelOffset(CurrentView(), px) := Number(key)]
    {
      var v := CurrentView();
      PositionInBox(v, px);
      var t := PixelOffset(v, px);
      annCpy[t] := Number(key);
      picRgb[px.0, px.1] := Colourise(nisslImg[px.0, px.1], key);
      KeyOfNumber(key);
      forall r, c | 0 <= r < Height(v) && 0 <= c < Width(v)
        ensures picRgb[r, c] == Tint(nisslImg[r, c], Shown(v, annCpy[..], (r, c)))
      {
        if (r, c) != px {
          if PixelOffset(v, (r, c)) == t {
            PixelOffsetInjective(v, (r, c), px);
          }
          assert old(picRgb[r, c] == Tint(nisslImg[r, c], Shown(v, annCpy[..], (r, c))));
        }
      }
    }

    /** `revert_voxels`: the listed pixels' voxels get their backup codes
        back, keeping the picture in step. */
    method RevertVoxels(pixels: seq<Pixel>)
      requires Valid()
      modifies annCpy, picRgb
      ensures slicePos == old(slicePos)
      ensures Valid()
      ensures annCpy[..] == Revert(CurrentView(), old(annCpy[..]), backup[..], pixels)
    {
      ghost var v := CurrentView();
      ghost var start := annCpy[..];
      var i := 0;
      while i < |pixels|
        invariant 0 <= i <= |pixels|
        invariant slicePos == old(slicePos)
        invariant Valid()
        invariant annCpy[..] == Revert(v, start, backup[..], pixels[..i])
      {
        assert pixels[..i + 1][..i] == pixels[..i];
        RevertPixel(pixels[i]);
        i := i + 1;
      }
      assert pixels[..i] == pixels;
    }

    /** One pixel of `revert_voxels`. */
    method RevertPixel(px: Pixel)
      requires Valid()
      modifies annCpy, picRgb
      ensures slicePos == old(slicePos)
      ensures Valid()
      ensures annCpy[..] == RevertStep(CurrentView(), old(annCpy[..]), backup[..], px)
    {
      var v := CurrentView();
      if InWindow(v, px) && Shown(v, annCpy[..], px) != Number(Prot) {
        RestoreVoxel(px);
      }
    }

    /** The write of `revert_voxels`: the voxel under `px` gets its backup
        code back, and the pixel is tinted by that code, or left grey for
        `out`. */
    method RestoreVoxel(px: Pixel)
      requires Valid() && InWindow(CurrentView(), px)
      modifies annCpy, picRgb
      ensures slicePos == old(slicePos)
      ensures Valid()
      ensures 0 <= PixelOffset(CurrentView(), px) < annCpy.Length
      ensures annCpy[..] == old(annCpy[..])[PixelOffset(CurrentView(), px) := backup[PixelOffset(CurrentView(), px)]]
    {
      var v := CurrentView();
      PositionInBox(v, px);
      var t := PixelOffset(v, px);
      annCpy[t] := backup[t];
      var rgb := RevertColour(nisslImg[px.0, px.1], annCpy[t]);
      if rgb.Some? {
        picRgb[px.0, px.1] := rgb.value;
      }
      forall r, c | 0 <= r < Height(v) && 0 <= c < Width(v)
        ensures picRgb[r, c] == Tint(nisslImg[r, c], Shown(v, annCpy[..], (r, c)))
      {
        if (r, c) != px {
          if PixelOffset(v, (r, c)) == t {
            PixelOffsetInjective(v, (r, c), px);
          }
          assert old(picRgb[r, c] == Tint(nisslImg[r, c], Shown(v, annCpy[..], (r, c))));
        }
      }
    }

    /** `revert_slice`: the volume goes back to its state before the last
        painting pass, and the picture is drawn again. */
    method RevertSlice()
      requires Valid()
      modifies annCpy, nisslImg, picRgb
      ensures slicePos == old(slicePos)
      ensures Valid() && Greyed() && annCpy[..] == previousState[..]
    {
      CopyInto(previousState, annCpy);
      GenerateImage();
    }

    /** `change_slice`: the window moves to another position on the viewing
        axis and the picture is drawn again; the volumes stay as they are. */
    method ChangeSlice(newPos: int)
      requires Valid() && 0 <= newPos < Dim(Dims(CurrentView()), axis)
      modifies this, nisslImg, picRgb
      ensures slicePos == newPos && Valid() && Greyed()
    {
      slicePos := newPos;
      GenerateImage();
    }

    /** `fill`: paint with `key` every window pixel joined to `position`
        through pixels whose voxels have the code under `position`. The
        component must stay clear of the window's border (`enclosure`). */
    method Fill(position: Pixel, key: Category, ghost enclosure: set<Pixel>) returns (group: seq<Pixel>)
      requires Valid() && InWindow(CurrentView(), position)
      requires FloodFill.Enclosure(WindowImage(CurrentView(), annCpy[..]), Shown(CurrentView(), annCpy[..], position), enclosure)
      requires position in enclosure
      modifies annCpy, previousState, picRgb
      ensures slicePos == old(slicePos) && Valid()
      ensures var v := CurrentView();
              forall px :: px in group <==>
                FloodFill.Reachable(WindowImage(v, old(annCpy[..])), Shown(v, old(annCpy[..]), position), position, px)
      ensures var (vol, wrote, _) := Paint(CurrentView(), old(annCpy[..]), backup[..], group, key);
              annCpy[..] == vol && previousState[..] == if wrote then old(annCpy[..]) else old(previousState[..])
      ensures var v := CurrentView(); var seed := Shown(v, old(annCpy[..]), position);
              && (seed == Number(Prot) || seed == Number(key) ==> annCpy[..] == old(annCpy[..]))
              && (seed != Number(Prot) ==>
                    forall px :: px in group ==> Shown(v, annCpy[..], px) == Number(key) || Shown(v, annCpy[..], px) == Number(Corrected))
    {
      var v := CurrentView();
      ghost var vol, bk := annCpy[..], backup[..];
      group := Component(v, annCpy[..], position, enclosure);
      FillPaint(v, vol, bk, group, key, Shown(v, vol, position));
      UpdateSlice(group, key);
      assert CurrentView() == v && backup[..] == bk;
    }

    /** `apply_changes`: every voxel whose code differs from the backup gets
        the region id of its code in the annotation; every other voxel gets
        the region id of the original annotation, which raises a TypeError
        when there is none, after the first assignment. Then the backup
        becomes the codes. */
    method ApplyChanges() returns (r: Result<()>)
      requires Valid()
      modifies annotation, backup
      ensures slicePos == old(slicePos) && Valid()
      ensures origAnn.Some? ==>
                && r == Ok(())
                && annotation[..] == Committed(invIds, annCpy[..], old(backup[..]), old(origAnn.value[..]))
                && backup[..] == annCpy[..]
      ensures origAnn.None? ==>
                && r == Err(TypeError)
                && annotation[..] == Committed(invIds, annCpy[..], backup[..], old(annotation[..]))
                && backup[..] == old(backup[..])
    {
      var t := 0;
      while t < annotation.Length
        invariant 0 <= t <= annotation.Length
        invariant slicePos == old(slicePos) && Valid()
        invariant backup[..] == old(backup[..])
        invariant forall u :: 0 <= u < t && annCpy[u] != backup[u] ==> annotation[u] == Commit(invIds, annCpy[u])
        invariant forall u :: 0 <= u < t && annCpy[u] == backup[u] ==>
                    annotation[u] == if origAnn.Some? then old(origAnn.value[u]) else old(annotation[u])
        invariant forall u :: t <= u < annotation.Length ==> annotation[u] == old(annotation[u])
        invariant origAnn.Some? ==> forall u :: t <= u < annotation.Length ==> origAnn.value[u] == old(origAnn.value[u])
      {
        if annCpy[t] != backup[t] {
          annotation[t] := Commit(invIds, annCpy[t]);
        } else if origAnn.Some? {
          annotation[t] := origAnn.value[t];
        }
        t := t + 1;
      }
      if origAnn.None? {
        return Err(TypeError);
      }
      CopyInto(annCpy, backup);
      r := Ok(());
    }
  }

  /** The code volume the backup is made from: the projection of the
      original annotation when there is one, of the annotation otherwise. */
  function SavedCodes(annotation: seq<int>, original: Option<seq<int>>, d: map<string, seq<int>>): (saved: seq<int>)
    requires original.Some? ==> |original.value| == |annotation|
    ensures |saved| == |annotation| && CodeVolume(saved)
    ensures original.None? ==> saved == Projection(annotation, d)
  {
    match original
    case None => Projection(annotation, d)
    case Some(o) => Projection(o, d)
  }

  /** `__init__`: the shape checks, the id lookups and the axis check raise in
      that order; then the annotation (and the original annotation, when
      given) is projected onto codes, `out` voxels whose backup code differs
      become `corrected`, and the view box and slice position are fitted to
      the molecular and granular layers, which raises a ValueError when
      there are none. */
  method Open(annotation: array<int>, shape: Shape, d: map<string, seq<int>>, nissl: seq<int>, nisslShape: Shape,
              axis: int, original: Option<array<int>>, originalShape: Shape)
    returns (r: Result<AnnotationImage>)
    requires annotation.Length == Size(shape) && |nissl| == Size(nisslShape)
    requires original.Some? ==> original.value.Length == Size(originalShape)
    ensures nisslShape != shape ==> r == Err(Exception)
    ensures nisslShape == shape && original.Some? && originalShape != shape ==> r == Err(Exception)
    ensures nisslShape == shape && (original.Some? ==> originalShape == shape) && IdsError(d).Some? ==>
              r == Err(IdsError(d).value)
    ensures nisslShape == shape && (original.Some? ==> originalShape == shape) && IdsError(d).None? && !(0 <= axis <= 2) ==>
              r == Err(Exception)
    ensures nisslShape == shape && (original.Some? ==> originalShape == shape) && IdsError(d).None? && 0 <= axis <= 2 ==>
              var saved := SavedCodes(annotation[..], if original.Some? then Some(original.value[..]) else None, d);
              var codes := Reconciled(Projection(annotation[..], d), saved);
              && (r.Err? <==> forall t :: 0 <= t < |codes| ==> !IsTissue(codes[t]))
              && (r.Err? ==> r.error == ValueError)
              && (r.Ok? ==>
                    && r.value.Valid() && r.value.Greyed()
                    && r.value.annotation == annotation && r.value.origAnn == original && r.value.nissl == nissl
                    && r.value.shape == shape && r.value.axis == axis && r.value.dictRegIds == d
                    && r.value.invIds == InvIds(d)
                    && r.value.annCpy[..] == codes && r.value.backup[..] == saved
                    && r.value.previousState[..] == codes
                    && ViewBox(shape, axis, codes, r.value.box, r.value.slicePos))
  {
    if nisslShape != shape {
      return Err(Exception);
    }
    if original.Some? && originalShape != shape {
      return Err(Exception);
    }
    var missing := IdsError(d);
    if missing.Some? {
      return Err(missing.value);
    }
    if !(0 <= axis <= 2) {
      return Err(Exception);
    }
    var codes := Project(annotation, d);
    var saved: array<int>;
    if original.Some? {
      saved := Project(original.value, d);
    } else {
      saved := CopyVolume(codes);
    }
    ghost var savedCodes := SavedCodes(annotation[..], if original.Some? then Some(original.value[..]) else None, d);
    assert saved[..] == savedCodes;
    MarkCorrected(codes, saved);
    ReconciledMeaning(Projection(annotation[..], d), savedCodes);
    var fit := ScanTissue(codes, shape, axis);
    if fit.None? {
      return Err(ValueError);
    }
    var im := new AnnotationImage(annotation, original, nissl, shape, d, axis, codes, saved, fit.value.0, fit.value.1);
    r := Ok(im);
  }
}

/** The conversions of main.cpp between a texture and a map: the
    Floyd-Steinberg and ordered quantisation passes of `ConvertImageToMap`
    and the palette lookup of `ConvertMapToImage`.

    The Floyd-Steinberg pass is specified by FsUpTo: the state (pixels and
    colour IDs) after the first n positions in raster order. Because the
    map has the texture's size, position n is pixel (n % width, n / width),
    and its four neighbours (x + 1, y), (x - 1, y + 1), (x, y + 1) and
    (x + 1, y + 1) are the flat indices n + 1, n + width - 1, n + width and
    n + width + 1, so at a row edge a share lands in the neighbouring row. */
module Conversion {
  import opened Numeric
  import opened Wrappers
  import Vector3i
  import opened Vector4i
  import opened Texture
  import opened MapData
  import Palette
  import Bayer

  /* ---------------------------------------------------------------- */
  /* Floyd-Steinberg error diffusion                                   */
  /* ---------------------------------------------------------------- */

  /** The pixels of the texture and the IDs of the map during a pass. */
  datatype DitherState = DitherState(pixels: seq<Vector4>, ids: seq<int>)

  /** One alpha share: `SetA(i, Get(i).w + err * k / 16.0f)` stores
      trunc(w + k * err / 16). A write at an index outside the buffer is
      dropped (main.cpp has no bounds check there). */
  function SpreadAlpha(p: seq<Vector4>, i: int, k: int, err: int): (r: seq<Vector4>)
    ensures |r| == |p|
  {
    if 0 <= i < |p| then p[i := p[i].(w := TruncDiv(16 * p[i].w + k * err, 16))] else p
  }

  /** `Vector4i(q, 0) * k / 16.0f`: the colour share of weight k. */
  function ErrorShare(q: Vector3i.Vector3, k: int): Vector4
  {
    Div(Mul(FromVector3(q, 0), Ratio(k, 1)), Ratio(16, 1))
  }

  /** The colour share of weight k worked out: trunc(k * c / 16) for each
      colour channel c of q, and alpha 0. */
  function ColourShare(q: Vector3i.Vector3, k: int): Vector4
  {
    Vector4(TruncDiv(k * q.x, 16), TruncDiv(k * q.y, 16), TruncDiv(k * q.z, 16), 0)
  }

  /** The float operators of ErrorShare compute ColourShare: multiplying by
      an integral k is exact, and the alpha share of a zero alpha is 0. */
  lemma ErrorShareExact(q: Vector3i.Vector3, k: int)
    ensures ErrorShare(q, k) == ColourShare(q, k)
  {
    KernelWeight(FromVector3(q, 0), k);
    TruncDivExact(0, 16);
  }

  /** One colour share: `Set(i, Get(i) + Vector4i(q, 0) * k / 16.0f)`,
      dropped outside the buffer. */
  function SpreadError(p: seq<Vector4>, i: int, k: int, q: Vector3i.Vector3): (r: seq<Vector4>)
    ensures |r| == |p|
  {
    if 0 <= i < |p| then p[i := Add(p[i], ColourShare(q, k))] else p
  }

  /** A share of the quantisation error: the flat offset of the neighbour
      it goes to and its weight out of 16. */
  datatype Share = Share(offset: int, weight: int)

  /** The Floyd-Steinberg kernel in the order main.cpp writes it:
      (x + 1, y) gets 7/16, (x - 1, y + 1) 3/16, (x, y + 1) 5/16 and
      (x + 1, y + 1) 1/16. */
  function Kernel(width: nat): seq<Share>
  {
    [Share(1, 7), Share(width - 1, 3), Share(width, 5), Share(width + 1, 1)]
  }

  /** The alpha shares of position n, written one after the other. */
  function DiffuseAlpha(p: seq<Vector4>, n: int, kernel: seq<Share>, err: int): (r: seq<Vector4>)
    ensures |r| == |p|
    decreases |kernel|
  {
    if kernel == [] then p
    else DiffuseAlpha(SpreadAlpha(p, n + kernel[0].offset, kernel[0].weight, err), n, kernel[1..], err)
  }

  /** The colour shares of position n, written one after the other. */
  function DiffuseError(p: seq<Vector4>, n: int, kernel: seq<Share>, q: Vector3i.Vector3): (r: seq<Vector4>)
    ensures |r| == |p|
    decreases |kernel|
  {
    if kernel == [] then p
    else DiffuseError(SpreadError(p, n + kernel[0].offset, kernel[0].weight, q), n, kernel[1..], q)
  }

  /** j is a flat index some share of position n goes to. */
  ghost predicate Target(n: int, kernel: seq<Share>, j: int)
  {
    exists s :: 0 <= s < |kernel| && j == n + kernel[s].offset
  }

  /** The alpha error of a pixel: its alpha less the nearest of 0 and 255
      (the nearest multiple of 255). */
  function AlphaError(w: int): int
  {
    w - NearestAlpha(w)
  }

  /** The colour error of a pixel: its colour less the nearest palette
      entry. */
  function ColourError(c: Vector4, palette: seq<Vector3i.Vector3>): Vector3i.Vector3
    requires |palette| >= 5
  {
    Vector3i.Sub(Xyz(c), palette[Palette.Nearest(palette, Xyz(c))])
  }

  /** The pass at position n: the alpha error is diffused, then the cell
      gets ID 0 when the alpha rounds to 0, and otherwise the nearest
      palette index, whose colour error is diffused as well. */
  function FsStep(s: DitherState, palette: seq<Vector3i.Vector3>, width: nat, n: nat): (r: DitherState)
    requires |palette| >= 5 && n < |s.pixels| && n < |s.ids|
    ensures |r.pixels| == |s.pixels| && |r.ids| == |s.ids|
  {
    var c := s.pixels[n];
    var alphaPixels := DiffuseAlpha(s.pixels, n, Kernel(width), AlphaError(c.w));
    if NearestAlpha(c.w) == 0 then
      DitherState(alphaPixels, s.ids[n := 0])
    else
      DitherState(DiffuseError(alphaPixels, n, Kernel(width), ColourError(c, palette)),
                  s.ids[n := Palette.Nearest(palette, Xyz(c))])
  }

  /** The two cases of FsStep, stated on the whole state. */
  lemma FsStepCases(s: DitherState, palette: seq<Vector3i.Vector3>, width: nat, n: nat)
    requires |palette| >= 5 && n < |s.pixels| && n < |s.ids|
    ensures var c := s.pixels[n];
      var alphaPixels := DiffuseAlpha(s.pixels, n, Kernel(width), AlphaError(c.w));
      (NearestAlpha(c.w) == 0 ==> FsStep(s, palette, width, n) == DitherState(alphaPixels, s.ids[n := 0])) &&
      (NearestAlpha(c.w) != 0 ==>
         FsStep(s, palette, width, n) ==
         DitherState(DiffuseError(alphaPixels, n, Kernel(width), ColourError(c, palette)),
                     s.ids[n := Palette.Nearest(palette, Xyz(c))]))
  {
  }

  /** The state after the first n positions of the raster scan. */
  function FsUpTo(s0: DitherState, palette: seq<Vector3i.Vector3>, width: nat, n: nat): (r: DitherState)
    requires |palette| >= 5 && n <= |s0.pixels| && n <= |s0.ids|
    ensures |r.pixels| == |s0.pixels| && |r.ids| == |s0.ids|
    decreases n, 0
  {
    if n == 0 then s0 else FsAfter(s0, palette, width, n - 1)
  }

  /** The state once position m of the raster scan is done: position m
      applied to the state after the positions before it. */
  function FsAfter(s0: DitherState, palette: seq<Vector3i.Vector3>, width: nat, m: nat): (r: DitherState)
    requires |palette| >= 5 && m < |s0.pixels| && m < |s0.ids|
    ensures |r.pixels| == |s0.pixels| && |r.ids| == |s0.ids|
    decreases m, 1
  {
    FsStep(FsUpTo(s0, palette, width, m), palette, width, m)
  }

  /** An alpha share changes only the alpha of its target pixel, to
      trunc(w + k * err / 16) for its old alpha w. */
  lemma SpreadAlphaEffect(p: seq<Vector4>, i: int, k: int, err: int)
    ensures 0 <= i < |p| ==> SpreadAlpha(p, i, k, err)[i].w == TruncDiv(16 * p[i].w + k * err, 16)
    ensures forall j :: 0 <= j < |p| ==> Xyz(SpreadAlpha(p, i, k, err)[j]) == Xyz(p[j])
    ensures forall j :: 0 <= j < |p| && j != i ==> SpreadAlpha(p, i, k, err)[j] == p[j]
  {
  }

  /** A colour share adds trunc(k * c / 16) to each colour channel c of its
      target; the alpha of every pixel is kept. */
  lemma SpreadErrorEffect(p: seq<Vector4>, i: int, k: int, q: Vector3i.Vector3)
    ensures 0 <= i < |p| ==>
      Xyz(SpreadError(p, i, k, q)[i]) ==
      Vector3i.Vector3(p[i].x + TruncDiv(k * q.x, 16), p[i].y + TruncDiv(k * q.y, 16), p[i].z + TruncDiv(k * q.z, 16))
    ensures forall j :: 0 <= j < |p| ==> SpreadError(p, i, k, q)[j].w == p[j].w
    ensures forall j :: 0 <= j < |p| && j != i ==> SpreadError(p, i, k, q)[j] == p[j]
  {
  }

  /** An alpha error of 0 and a colour error of 0 change nothing. */
  lemma SpreadNothing(p: seq<Vector4>, i: int, k: int)
    ensures SpreadAlpha(p, i, k, 0) == p
    ensures SpreadError(p, i, k, Vector3i.Zero) == p
  {
    SpreadErrorEffect(p, i, k, Vector3i.Zero);
    if 0 <= i < |p| {
      TruncDivExact(p[i].w, 16);
      assert 16 * p[i].w + k * 0 == p[i].w * 16;
    }
  }

  lemma {:induction false} DiffuseNothing(p: seq<Vector4>, n: int, kernel: seq<Share>)
    ensures DiffuseAlpha(p, n, kernel, 0) == p
    ensures DiffuseError(p, n, kernel, Vector3i.Zero) == p
    decreases |kernel|
  {
    if kernel != [] {
      SpreadNothing(p, n + kernel[0].offset, kernel[0].weight);
      DiffuseNothing(p, n, kernel[1..]);
    }
  }

  /** The alpha shares keep every colour and touch only their targets. */
  lemma {:induction false} DiffuseAlphaEffect(p: seq<Vector4>, n: int, kernel: seq<Share>, err: int)
    ensures forall j :: 0 <= j < |p| ==> Xyz(DiffuseAlpha(p, n, kernel, err)[j]) == Xyz(p[j])
    ensures forall j :: 0 <= j < |p| && !Target(n, kernel, j) ==> DiffuseAlpha(p, n, kernel, err)[j] == p[j]
    decreases |kernel|
  {
    if kernel != [] {
      var p1 := SpreadAlpha(p, n + kernel[0].offset, kernel[0].weight, err);
      SpreadAlphaEffect(p, n + kernel[0].offset, kernel[0].weight, err);
      DiffuseAlphaEffect(p1, n, kernel[1..], err);
      TargetTail(n, kernel);
    }
  }

  /** The colour shares keep every alpha and touch only their targets. */
  lemma {:induction false} DiffuseErrorEffect(p: seq<Vector4>, n: int, kernel: seq<Share>, q: Vector3i.Vector3)
    ensures forall j :: 0 <= j < |p| ==> DiffuseError(p, n, kernel, q)[j].w == p[j].w
    ensures forall j :: 0 <= j < |p| && !Target(n, kernel, j) ==> DiffuseError(p, n, kernel, q)[j] == p[j]
    decreases |kernel|
  {
    if kernel != [] {
      var p1 := SpreadError(p, n + kernel[0].offset, kernel[0].weight, q);
      SpreadErrorEffect(p, n + kernel[0].offset, kernel[0].weight, q);
      DiffuseErrorEffect(p1, n, kernel[1..], q);
      TargetTail(n, kernel);
    }
  }

  /** A non-target of a kernel is neither its first target nor a target of
      the rest. */
  lemma TargetTail(n: int, kernel: seq<Share>)
    requires kernel != []
    ensures forall j :: !Target(n, kernel, j) ==> j != n + kernel[0].offset && !Target(n, kernel[1..], j)
  {
    forall j | !Target(n, kernel, j)
      ensures j != n + kernel[0].offset && !Target(n, kernel[1..], j)
    {
      assert j != n + kernel[0].offset;
      forall s | 0 <= s < |kernel[1..]|
        ensures j != n + kernel[1..][s].offset
      {
        assert kernel[1..][s] == kernel[s + 1];
      }
    }
  }

  /** The targets of position n are n + 1, n + width - 1, n + width and
      n + width + 1; for width >= 2 they all lie after n. */
  lemma KernelTargets(n: int, width: nat, j: int)
    ensures Target(n, Kernel(width), j) <==> j == n + 1 || j == n + width - 1 || j == n + width || j == n + width + 1
    ensures width >= 2 && Target(n, Kernel(width), j) ==> j > n
  {
    var kernel := Kernel(width);
    if j == n + 1 { assert j == n + kernel[0].offset; }
    if j == n + width - 1 { assert j == n + kernel[1].offset; }
    if j == n + width { assert j == n + kernel[2].offset; }
    if j == n + width + 1 { assert j == n + kernel[3].offset; }
  }

  /** Position n gets ID 0 exactly when its alpha rounds to 0; otherwise
      it gets the nearest palette index. No other cell changes. */
  lemma FsStepIds(s: DitherState, palette: seq<Vector3i.Vector3>, width: nat, n: nat)
    requires |palette| >= 5 && n < |s.pixels| && n < |s.ids|
    ensures var r := FsStep(s, palette, width, n);
      r.ids == s.ids[n := r.ids[n]] &&
      (r.ids[n] == 0 <==> NearestAlpha(s.pixels[n].w) == 0) &&
      (r.ids[n] != 0 ==> r.ids[n] == Palette.Nearest(palette, Xyz(s.pixels[n])))
  {
  }

  /** Only the pixels at the four neighbour indices change, and for
      width >= 2 they all come later in the raster scan. */
  lemma FsStepPixels(s: DitherState, palette: seq<Vector3i.Vector3>, width: nat, n: nat)
    requires |palette| >= 5 && n < |s.pixels| && n < |s.ids|
    ensures var r := FsStep(s, palette, width, n);
      (forall j :: 0 <= j < |s.pixels| && j != n + 1 && j != n + width - 1 && j != n + width && j != n + width + 1 ==>
        r.pixels[j] == s.pixels[j]) &&
      (width >= 2 ==> forall j :: 0 <= j <= n ==> r.pixels[j] == s.pixels[j])
  {
    FsStepTargets(s, palette, width, n);
    forall j | 0 <= j < |s.pixels|
      ensures Target(n, Kernel(width), j) <==> j == n + 1 || j == n + width - 1 || j == n + width || j == n + width + 1
      ensures width >= 2 && Target(n, Kernel(width), j) ==> j > n
    {
      KernelTargets(n, width, j);
    }
  }

  /** The step changes only kernel targets; a transparent position changes
      no colour. */
  lemma FsStepTargets(s: DitherState, palette: seq<Vector3i.Vector3>, width: nat, n: nat)
    requires |palette| >= 5 && n < |s.pixels| && n < |s.ids|
    ensures var r := FsStep(s, palette, width, n);
      (forall j :: 0 <= j < |s.pixels| && !Target(n, Kernel(width), j) ==> r.pixels[j] == s.pixels[j]) &&
      (NearestAlpha(s.pixels[n].w) == 0 ==> forall j :: 0 <= j < |s.pixels| ==> Xyz(r.pixels[j]) == Xyz(s.pixels[j]))
  {
    var c := s.pixels[n];
    var alphaPixels := DiffuseAlpha(s.pixels, n, Kernel(width), AlphaError(c.w));
    FsStepCases(s, palette, width, n);
    DiffuseAlphaEffect(s.pixels, n, Kernel(width), AlphaError(c.w));
    if NearestAlpha(c.w) != 0 {
      DiffuseErrorEffect(alphaPixels, n, Kernel(width), ColourError(c, palette));
    }
  }

  /** Once the scan has passed a cell its ID is final. */
  lemma {:induction false} FsIdSettled(s0: DitherState, palette: seq<Vector3i.Vector3>, width: nat, n: nat, j: nat)
    requires |palette| >= 5 && n <= |s0.pixels| && n <= |s0.ids| && j < n
    ensures FsUpTo(s0, palette, width, n).ids[j] == FsUpTo(s0, palette, width, j + 1).ids[j]
    decreases n
  {
    if n > j + 1 {
      FsIdSettled(s0, palette, width, n - 1, j);
      FsStepIds(FsUpTo(s0, palette, width, n - 1), palette, width, n - 1);
    }
  }

  /** IDs the passes may leave in a cell: 0 (transparent) or an index in
      [4, |palette|). */
  ghost predicate EmittedIds(ids: seq<int>, palette: seq<Vector3i.Vector3>)
  {
    forall i :: 0 <= i < |ids| ==> ids[i] == 0 || 4 <= ids[i] < |palette|
  }

  /** Starting from a grid of such IDs (a fresh map holds only 0), the
      Floyd-Steinberg pass leaves only such IDs. */
  lemma {:induction false} FsIdsEmitted(s0: DitherState, palette: seq<Vector3i.Vector3>, width: nat, n: nat)
    requires |palette| >= 5 && n <= |s0.pixels| && n <= |s0.ids|
    requires EmittedIds(s0.ids, palette)
    ensures EmittedIds(FsUpTo(s0, palette, width, n).ids, palette)
    decreases n
  {
    if n > 0 {
      FsIdsEmitted(s0, palette, width, n - 1);
      FsStepIds(FsUpTo(s0, palette, width, n - 1), palette, width, n - 1);
    }
  }

  /** A scanned cell is 0 exactly when the alpha of its pixel, as the scan
      found it, rounds to 0. */
  lemma FsTransparent(s0: DitherState, palette: seq<Vector3i.Vector3>, width: nat, n: nat, j: nat)
    requires |palette| >= 5 && n <= |s0.pixels| && n <= |s0.ids| && j < n
    ensures FsUpTo(s0, palette, width, n).ids[j] == 0 <==>
            NearestAlpha(FsUpTo(s0, palette, width, j).pixels[j].w) == 0
  {
    FsIdSettled(s0, palette, width, n, j);
    FsStepIds(FsUpTo(s0, palette, width, j), palette, width, j);
  }

  /* ---------------------------------------------------------------- */
  /* Map to image                                                      */
  /* ---------------------------------------------------------------- */

  /** IDs the map-to-image lookup can handle: not negative, and an ID of 4
      or more names a palette entry. */
  ghost predicate LookupIds(ids: seq<int>, paletteSize: nat)
  {
    forall i :: 0 <= i < |ids| ==> 0 <= ids[i] && (4 <= ids[i] ==> ids[i] < paletteSize)
  }

  /** The colour of one cell: IDs 0-3 are transparent black, any other ID
      is its palette colour with alpha 255. */
  function CellColour(id: int, palette: seq<Vector3i.Vector3>): Vector4
    requires 0 <= id && (4 <= id ==> id < |palette|)
  {
    if id < 4 then Transparent else FromVector3(palette[id], 255)
  }

  /** The image of a grid of IDs. */
  function ImagePixels(ids: seq<int>, palette: seq<Vector3i.Vector3>): (r: seq<Vector4>)
    requires LookupIds(ids, |palette|)
    ensures |r| == |ids|
  {
    seq(|ids|, i requires 0 <= i < |ids| => CellColour(ids[i], palette))
  }

  /** The first index from 4 on that holds its colour; the quantisers
      never produce a later duplicate. */
  ghost predicate FirstOfColour(palette: seq<Vector3i.Vector3>, id: int)
  {
    4 <= id < |palette| && forall j :: 4 <= j < id ==> palette[j] != palette[id]
  }

  /** A grid that the image of it determines: every ID is transparent
      (0-3) or the first index holding its colour. */
  ghost predicate CanonicalIds(ids: seq<int>, palette: seq<Vector3i.Vector3>)
  {
    forall i :: 0 <= i < |ids| ==> (0 <= ids[i] < 4 || FirstOfColour(palette, ids[i]))
  }

  /** The grid a quantiser recovers: the transparent IDs 1-3 become 0. */
  function Recovered(ids: seq<int>): (r: seq<int>)
    ensures |r| == |ids|
  {
    seq(|ids|, i requires 0 <= i < |ids| => if ids[i] < 4 then 0 else ids[i])
  }

  /** A transparent pixel (alpha 0) diffuses nothing and gets ID 0. */
  lemma FsStepTransparent(s: DitherState, palette: seq<Vector3i.Vector3>, width: nat, n: nat)
    requires |palette| >= 5 && n < |s.pixels| && n < |s.ids| && s.pixels[n].w == 0
    ensures FsStep(s, palette, width, n) == DitherState(s.pixels, s.ids[n := 0])
  {
    var w := s.pixels[n].w;
    assert NearestAlpha(w) == 0 && AlphaError(w) == 0;
    assert DiffuseAlpha(s.pixels, n, Kernel(width), AlphaError(w)) == s.pixels by {
      DiffuseNothing(s.pixels, n, Kernel(width));
    }
    FsStepCases(s, palette, width, n);
  }

  /** An opaque pixel of exactly palette colour k, k the first index from 4
      on holding it, diffuses nothing and gets ID k. */
  lemma FsStepExact(s: DitherState, palette: seq<Vector3i.Vector3>, width: nat, n: nat, k: int)
    requires |palette| >= 5 && n < |s.pixels| && n < |s.ids| && FirstOfColour(palette, k)
    requires s.pixels[n] == FromVector3(palette[k], 255)
    ensures FsStep(s, palette, width, n) == DitherState(s.pixels, s.ids[n := k])
  {
    var c := s.pixels[n];
    assert NearestAlpha(c.w) == 255 && AlphaError(c.w) == 0;
    assert Palette.Nearest(palette, Xyz(c)) == k by {
      FromVector3Xyz(c, palette[k], 255);
      Palette.NearestExact(palette, palette[k], k);
    }
    assert ColourError(c, palette) == Vector3i.Zero by {
      FromVector3Xyz(c, palette[k], 255);
      Vector3i.SubZero(palette[k], palette[k]);
    }
    var alphaPixels := DiffuseAlpha(s.pixels, n, Kernel(width), AlphaError(c.w));
    assert alphaPixels == s.pixels by {
      DiffuseNothing(s.pixels, n, Kernel(width));
    }
    assert DiffuseError(alphaPixels, n, Kernel(width), ColourError(c, palette)) == s.pixels by {
      DiffuseNothing(s.pixels, n, Kernel(width));
    }
    FsStepCases(s, palette, width, n);
  }

  /** The image of a canonical grid passes through Floyd-Steinberg
      unchanged and gives back the grid (with 1-3 read as 0): every pixel
      is transparent or an exact palette colour, so no error is diffused. */
  lemma {:induction false} FsRecoversMap(ids: seq<int>, init: seq<int>, palette: seq<Vector3i.Vector3>, width: nat, n: nat)
    requires |palette| >= 5 && LookupIds(ids, |palette|) && CanonicalIds(ids, palette)
    requires |init| == |ids| && n <= |ids|
    ensures FsUpTo(DitherState(ImagePixels(ids, palette), init), palette, width, n) ==
            DitherState(ImagePixels(ids, palette), Recovered(ids)[..n] + init[n..])
    decreases n
  {
    if n == 0 {
      assert Recovered(ids)[..0] + init[0..] == init;
    } else {
      var s0 := DitherState(ImagePixels(ids, palette), init);
      var s := DitherState(ImagePixels(ids, palette), Recovered(ids)[..n - 1] + init[n - 1..]);
      assert FsUpTo(s0, palette, width, n - 1) == s by {
        FsRecoversMap(ids, init, palette, width, n - 1);
      }
      assert FsUpTo(s0, palette, width, n) == FsStep(s, palette, width, n - 1);
      FsRecoversCell(ids, init, palette, width, n - 1);
    }
  }

  /** The step of FsRecoversMap at cell m. */
  lemma FsRecoversCell(ids: seq<int>, init: seq<int>, palette: seq<Vector3i.Vector3>, width: nat, m: nat)
    requires |palette| >= 5 && LookupIds(ids, |palette|) && CanonicalIds(ids, palette)
    requires |init| == |ids| && m < |ids|
    ensures FsStep(DitherState(ImagePixels(ids, palette), Recovered(ids)[..m] + init[m..]), palette, width, m) ==
            DitherState(ImagePixels(ids, palette), Recovered(ids)[..m + 1] + init[m + 1..])
  {
    var before := Recovered(ids)[..m] + init[m..];
    assert before[m := Recovered(ids)[m]] == Recovered(ids)[..m + 1] + init[m + 1..] by {
      RecoveredStep(ids, init, m);
    }
    var s := DitherState(ImagePixels(ids, palette), before);
    if ids[m] < 4 {
      FsStepTransparent(s, palette, width, m);
    } else {
      FsStepExact(s, palette, width, m, ids[m]);
    }
  }

  /** Writing the recovered ID of cell m extends the recovered prefix. */
  lemma RecoveredStep(ids: seq<int>, init: seq<int>, m: nat)
    requires |init| == |ids| && m < |ids|
    ensures (Recovered(ids)[..m] + init[m..])[m := Recovered(ids)[m]] == Recovered(ids)[..m + 1] + init[m + 1..]
  {
  }

  /** An opaque image all of whose pixels are palette entry k, k the first
      index from 4 on holding that colour, gives ID k in every cell and
      is left unchanged by Floyd-Steinberg. */
  lemma FsUniform(palette: seq<Vector3i.Vector3>, k: int, width: nat, height: nat, init: seq<int>)
    requires |palette| >= 5 && FirstOfColour(palette, k) && |init| == width * height
    ensures var pixels := seq(width * height, _ => FromVector3(palette[k], 255));
      FsUpTo(DitherState(pixels, init), palette, width, width * height) ==
      DitherState(pixels, seq(width * height, _ => k))
  {
    var ids := seq(width * height, _ => k);
    FsRecoversMap(ids, init, palette, width, width * height);
    assert ImagePixels(ids, palette) == seq(width * height, _ => FromVector3(palette[k], 255));
    assert Recovered(ids)[..width * height] + init[width * height..] == ids;
  }

  /* ---------------------------------------------------------------- */
  /* Ordered dithering                                                 */
  /* ---------------------------------------------------------------- */

  /** `roundf((w + 255 * (t - 0.5)) / 255)` for the threshold t = k / 256:
      round((256 * w + 255 * k - 32640) / 65280). */
  function OrderedAlpha(w: int, k: Bayer.Rank): int
  {
    RoundHalfAway(256 * w + 255 * k - 32640, 65280)
  }

  /** `static_cast<int>((255 / 8) * (t - 0.5))` for t = k / 256:
      trunc(255 * (k - 128) / 2048). */
  function ColourDither(k: Bayer.Rank): int
  {
    TruncDiv(255 * (k - 128), 2048)
  }

  /** The ID the ordered pass gives pixel c on a cell of rank k. */
  function OrderedId(palette: seq<Vector3i.Vector3>, c: Vector4, k: Bayer.Rank): int
    requires |palette| >= 5
  {
    if c.w == 0 || OrderedAlpha(c.w, k) == 0 then 0
    else
      var d := ColourDither(k);
      Palette.Nearest(palette, Xyz(Add(c, Vector4(d, d, d, 0))))
  }

  /** The IDs of the first `count` cells of the ordered pass with the
      threshold matrix `ranks`. */
  function OrderedIds(pixels: seq<Vector4>, palette: seq<Vector3i.Vector3>, ranks: seq<Bayer.Rank>, width: nat, count: nat): (r: seq<int>)
    requires |palette| >= 5 && Bayer.IsMatrix(ranks) && count <= |pixels| && (width > 0 || count == 0)
    ensures |r| == count
  {
    seq(count, i requires 0 <= i < count => OrderedId(palette, pixels[i], Bayer.RankAt(ranks, i % width, i / width)))
  }

  /** The rounded alpha is 0 exactly when 0 < 256 * w + 255 * k < 65280. */
  lemma OrderedAlphaZero(w: int, k: Bayer.Rank)
    ensures OrderedAlpha(w, k) == 0 <==> 0 < 256 * w + 255 * k < 65280
  {
    var n := 256 * w + 255 * k - 32640;
    var r := OrderedAlpha(w, k);
    if n >= 0 {
      assert 2 * r * 65280 - 65280 <= 2 * n < 2 * r * 65280 + 65280;
      if r >= 1 { assert 2 * n >= 65280; }
    } else {
      assert 2 * r * 65280 - 65280 < 2 * n <= 2 * r * 65280 + 65280;
      if r <= -1 { assert 2 * n <= -65280; }
    }
  }

  /** The raw-alpha test is needed: a fully transparent pixel on rank 0
      rounds to alpha -1, not 0, so the rounded alpha alone would give it a
      colour. */
  lemma OrderedAlphaMissesZero()
    ensures OrderedAlpha(0, 0) == -1
  {
  }

  /** The ordered pass gives ID 0 exactly when the raw alpha is 0 or the
      dithered alpha rounds to 0, and otherwise an index in [4, |palette|)
      nearest to the colour with the same offset d added to red, green and
      blue. So raw alpha 0 always gives 0 and alpha 255 or more never does. */
  lemma OrderedIdSpec(palette: seq<Vector3i.Vector3>, c: Vector4, k: Bayer.Rank)
    requires |palette| >= 5
    ensures (OrderedId(palette, c, k) == 0 <==> c.w == 0 || 0 < 256 * c.w + 255 * k < 65280) &&
      (OrderedId(palette, c, k) != 0 ==> 4 <= OrderedId(palette, c, k) < |palette|)
    ensures c.w == 0 ==> OrderedId(palette, c, k) == 0
    ensures c.w >= 255 ==> 4 <= OrderedId(palette, c, k) < |palette|
    ensures var d := ColourDither(k);
      OrderedId(palette, c, k) != 0 ==>
        Palette.IsNearest(palette, Vector3i.Add(Xyz(c), Vector3i.Vector3(d, d, d)), OrderedId(palette, c, k))
  {
    OrderedAlphaZero(c.w, k);
    var d := ColourDither(k);
    AddColourOnly(c, Vector3i.Vector3(d, d, d));
    Palette.NearestSpec(palette, Xyz(Add(c, Vector4(d, d, d, 0))));
  }

  /** The colour offset is at most 15 in size. */
  lemma ColourDitherBound(k: Bayer.Rank)
    ensures -15 <= ColourDither(k) <= 15
  {
    var d := ColourDither(k);
    if k >= 128 {
      assert 0 <= d * 2048 <= 255 * 127;
    } else {
      assert -255 * 128 <= d * 2048 <= 0;
    }
  }

  /** The ordered pass emits only IDs 0 and [4, |palette|). */
  lemma OrderedIdsEmitted(pixels: seq<Vector4>, palette: seq<Vector3i.Vector3>, ranks: seq<Bayer.Rank>, width: nat, count: nat)
    requires |palette| >= 5 && Bayer.IsMatrix(ranks) && count <= |pixels| && (width > 0 || count == 0)
    ensures EmittedIds(OrderedIds(pixels, palette, ranks, width, count), palette)
  {
    forall i | 0 <= i < count
      ensures OrderedIds(pixels, palette, ranks, width, count)[i] == 0 ||
              4 <= OrderedIds(pixels, palette, ranks, width, count)[i] < |palette|
    {
      OrderedIdSpec(palette, pixels[i], Bayer.RankAt(ranks, i % width, i / width));
    }
  }

  /* ---------------------------------------------------------------- */
  /* The passes over a texture and a map                               */
  /* ---------------------------------------------------------------- */

  /** One alpha share written through `SetA` at (x, y), flat index i. */
  method SpreadAlphaTo(tex: Texture2D, x: int, y: int, k: int, err: int, ghost i: int)
    requires tex.Valid() && i == x + y * tex.width
    modifies tex
    ensures tex.Valid() && tex.width == old(tex.width) && tex.height == old(tex.height) && tex.channels == old(tex.channels)
    ensures tex.pixel == SpreadAlpha(old(tex.pixel), i, k, err)
  {
    if 0 <= x + y * tex.width < |tex.pixel| {
      tex.SetA(x, y, TruncDiv(16 * tex.Get(x, y).w + k * err, 16));
    }
  }

  /** One colour share written through `Set` at (x, y), flat index i. */
  method SpreadErrorTo(tex: Texture2D, x: int, y: int, k: int, q: Vector3i.Vector3, ghost i: int)
    requires tex.Valid() && i == x + y * tex.width
    modifies tex
    ensures tex.Valid() && tex.width == old(tex.width) && tex.height == old(tex.height) && tex.channels == old(tex.channels)
    ensures tex.pixel == SpreadError(old(tex.pixel), i, k, q)
  {
    if 0 <= x + y * tex.width < |tex.pixel| {
      ErrorShareExact(q, k);
      tex.Set(x, y, Add(tex.Get(x, y), ErrorShare(q, k)));
    }
  }

  /** The kernel after its first s shares. */
  lemma KernelTails(width: nat)
    ensures Kernel(width)[1..] == [Share(width - 1, 3), Share(width, 5), Share(width + 1, 1)]
    ensures Kernel(width)[1..][1..] == [Share(width, 5), Share(width + 1, 1)]
    ensures Kernel(width)[1..][1..][1..] == [Share(width + 1, 1)]
    ensures Kernel(width)[1..][1..][1..][1..] == []
  {
  }

  /** Four alpha shares written one after the other at the kernel's
      targets are the diffusion of the alpha error. */
  lemma DiffuseAlphaChain(p0: seq<Vector4>, p1: seq<Vector4>, p2: seq<Vector4>, p3: seq<Vector4>, p4: seq<Vector4>,
                          n: int, width: nat, err: int)
    requires p1 == SpreadAlpha(p0, n + 1, 7, err) && p2 == SpreadAlpha(p1, n + width - 1, 3, err)
    requires p3 == SpreadAlpha(p2, n + width, 5, err) && p4 == SpreadAlpha(p3, n + width + 1, 1, err)
    ensures p4 == DiffuseAlpha(p0, n, Kernel(width), err)
  {
    var k := Kernel(width);
    KernelTails(width);
    assert DiffuseAlpha(p4, n, k[1..][1..][1..][1..], err) == p4;
    assert DiffuseAlpha(p3, n, k[1..][1..][1..], err) == p4;
    assert DiffuseAlpha(p2, n, k[1..][1..], err) == p4;
    assert DiffuseAlpha(p1, n, k[1..], err) == p4;
  }

  /** Four colour shares written one after the other at the kernel's
      targets are the diffusion of the colour error. */
  lemma DiffuseErrorChain(p0: seq<Vector4>, p1: seq<Vector4>, p2: seq<Vector4>, p3: seq<Vector4>, p4: seq<Vector4>,
                          n: int, width: nat, q: Vector3i.Vector3)
    requires p1 == SpreadError(p0, n + 1, 7, q) && p2 == SpreadError(p1, n + width - 1, 3, q)
    requires p3 == SpreadError(p2, n + width, 5, q) && p4 == SpreadError(p3, n + width + 1, 1, q)
    ensures p4 == DiffuseError(p0, n, Kernel(width), q)
  {
    var k := Kernel(width);
    KernelTails(width);
    assert DiffuseError(p4, n, k[1..][1..][1..][1..], q) == p4;
    assert DiffuseError(p3, n, k[1..][1..][1..], q) == p4;
    assert DiffuseError(p2, n, k[1..][1..], q) == p4;
    assert DiffuseError(p1, n, k[1..], q) == p4;
  }

  /** The four `SetA` calls of pixel (x, y). */
  method DiffuseAlphaTo(tex: Texture2D, x: int, y: int, err: int, ghost n: int)
    requires tex.Valid() && n == x + y * tex.width
    modifies tex
    ensures tex.Valid() && tex.width == old(tex.width) && tex.height == old(tex.height) && tex.channels == old(tex.channels)
    ensures tex.pixel == DiffuseAlpha(old(tex.pixel), n, Kernel(tex.width), err)
  {
    ghost var p0, w := tex.pixel, tex.width;
    NeighbourIndices(x, y, w);
    SpreadAlphaTo(tex, x + 1, y, 7, err, n + 1);
    ghost var p1 := tex.pixel;
    SpreadAlphaTo(tex, x - 1, y + 1, 3, err, n + w - 1);
    ghost var p2 := tex.pixel;
    SpreadAlphaTo(tex, x, y + 1, 5, err, n + w);
    ghost var p3 := tex.pixel;
    SpreadAlphaTo(tex, x + 1, y + 1, 1, err, n + w + 1);
    DiffuseAlphaChain(p0, p1, p2, p3, tex.pixel, n, w, err);
  }

  /** The four colour `Set` calls of pixel (x, y). */
  method DiffuseErrorTo(tex: Texture2D, x: int, y: int, q: Vector3i.Vector3, ghost n: int)
    requires tex.Valid() && n == x + y * tex.width
    modifies tex
    ensures tex.Valid() && tex.width == old(tex.width) && tex.height == old(tex.height) && tex.channels == old(tex.channels)
    ensures tex.pixel == DiffuseError(old(tex.pixel), n, Kernel(tex.width), q)
  {
    ghost var p0, w := tex.pixel, tex.width;
    NeighbourIndices(x, y, w);
    SpreadErrorTo(tex, x + 1, y, 7, q, n + 1);
    ghost var p1 := tex.pixel;
    SpreadErrorTo(tex, x - 1, y + 1, 3, q, n + w - 1);
    ghost var p2 := tex.pixel;
    SpreadErrorTo(tex, x, y + 1, 5, q, n + w);
    ghost var p3 := tex.pixel;
    SpreadErrorTo(tex, x + 1, y + 1, 1, q, n + w + 1);
    DiffuseErrorChain(p0, p1, p2, p3, tex.pixel, n, w, q);
  }

  /** The body of the Floyd-Steinberg loop at pixel (x, y). */
  method FsPixel(tex: Texture2D, grid: MCMapData, palette: seq<Vector3i.Vector3>, x: nat, y: nat)
    requires tex.Valid() && grid.Complete() && tex.width == grid.width && tex.height == grid.height
    requires |palette| >= 5 && x < tex.width && y < tex.height
    requires x + y * tex.width < tex.width * tex.height
    modifies tex, grid
    ensures tex.Valid() && tex.width == old(tex.width) && tex.height == old(tex.height) && tex.channels == old(tex.channels)
    ensures grid.Complete() && grid.width == old(grid.width) && grid.height == old(grid.height)
    ensures DitherState(tex.pixel, grid.colourID) ==
            FsStep(DitherState(old(tex.pixel), old(grid.colourID)), palette, tex.width, x + y * tex.width)
  {
    ghost var n := x + y * tex.width;
    ghost var s := DitherState(tex.pixel, grid.colourID);
    var sampleColour := tex.Get(x, y);
    var nearestAlpha := NearestAlpha(sampleColour.w);
    var alphaQuantisation := sampleColour.w - nearestAlpha;
    assert alphaQuantisation == AlphaError(s.pixels[n].w);
    DiffuseAlphaTo(tex, x, y, alphaQuantisation, n);
    if nearestAlpha == 0 {
      grid.Set(x, y, 0);
    } else {
      var nearest := Palette.NearestIndex(palette, Xyz(sampleColour));
      grid.Set(x, y, nearest);
      var quantisation := Vector3i.Sub(Xyz(sampleColour), palette[nearest]);
      DiffuseErrorTo(tex, x, y, quantisation, n);
    }
    assert grid.colourID == s.ids[n := grid.colourID[n]];
  }

  /** One more position of the scan is one more FsStep. */
  lemma FsUpToNext(s0: DitherState, palette: seq<Vector3i.Vector3>, width: nat, n: nat)
    requires |palette| >= 5 && n < |s0.pixels| && n < |s0.ids|
    ensures FsUpTo(s0, palette, width, n + 1) == FsStep(FsUpTo(s0, palette, width, n), palette, width, n)
  {
  }

  /** The texture and the map hold the state after the first n positions. */
  ghost predicate Scanned(tex: Texture2D, grid: MCMapData, s0: DitherState, palette: seq<Vector3i.Vector3>, n: nat)
    reads tex, grid
  {
    |palette| >= 5 && n <= |s0.pixels| && n <= |s0.ids| &&
    DitherState(tex.pixel, grid.colourID) == FsUpTo(s0, palette, tex.width, n)
  }

  /** Pixel (x, y), flat index n, takes the state after the first n
      positions to the state after the first n + 1. */
  method FsPixelAt(tex: Texture2D, grid: MCMapData, palette: seq<Vector3i.Vector3>, x: nat, y: nat,
                   ghost s0: DitherState, ghost n: nat)
    requires tex.Valid() && grid.Complete() && tex.width == grid.width && tex.height == grid.height
    requires |palette| >= 5 && x < tex.width && y < tex.height
    requires n == x + y * tex.width && n < tex.width * tex.height
    requires |s0.pixels| == |s0.ids| == tex.width * tex.height
    requires Scanned(tex, grid, s0, palette, n)
    modifies tex, grid
    ensures tex.Valid() && tex.width == old(tex.width) && tex.height == old(tex.height) && tex.channels == old(tex.channels)
    ensures grid.Complete() && grid.width == old(grid.width) && grid.height == old(grid.height)
    ensures Scanned(tex, grid, s0, palette, n + 1)
  {
    FsPixel(tex, grid, palette, x, y);
    FsUpToNext(s0, palette, tex.width, n);
    assert DitherState(tex.pixel, grid.colourID) == FsUpTo(s0, palette, tex.width, n + 1);
  }

  /** Row y of the Floyd-Steinberg scan: from the state after the first
      y rows to the state after the first y + 1 rows. */
  method FsRow(tex: Texture2D, grid: MCMapData, palette: seq<Vector3i.Vector3>, y: nat,
               ghost s0: DitherState, ghost start: nat)
    requires tex.Valid() && grid.Complete() && tex.width == grid.width && tex.height == grid.height
    requires |palette| >= 5 && y < tex.height
    requires start == y * tex.width && start + tex.width <= tex.width * tex.height
    requires |s0.pixels| == |s0.ids| == tex.width * tex.height
    requires Scanned(tex, grid, s0, palette, start)
    modifies tex, grid
    ensures tex.Valid() && tex.width == old(tex.width) && tex.height == old(tex.height) && tex.channels == old(tex.channels)
    ensures grid.Complete() && grid.width == old(grid.width) && grid.height == old(grid.height)
    ensures Scanned(tex, grid, s0, palette, start + tex.width)
  {
    var x := 0;
    while x < grid.width
      invariant 0 <= x <= grid.width
      invariant tex.Valid() && grid.Complete() && tex.width == grid.width && tex.height == grid.height
      invariant tex.width == old(tex.width) && tex.height == old(tex.height) && tex.channels == old(tex.channels)
      invariant grid.width == old(grid.width) && grid.height == old(grid.height)
      invariant start + x <= |s0.pixels| && Scanned(tex, grid, s0, palette, start + x)
    {
      FsPixelAt(tex, grid, palette, x, y, s0, start + x);
      x := x + 1;
    }
  }

  /** The Floyd-Steinberg branch of `ConvertImageToMap` (main.cpp lines
      227-284): a raster scan over the map that writes every cell and
      diffuses the errors into the texture ahead of the scan. */
  method FloydSteinbergDither(tex: Texture2D, grid: MCMapData, palette: seq<Vector3i.Vector3>)
    requires tex.Valid() && grid.Complete() && tex.width == grid.width && tex.height == grid.height
    requires |palette| >= 5
    modifies tex, grid
    ensures tex.Valid() && tex.width == old(tex.width) && tex.height == old(tex.height) && tex.channels == old(tex.channels)
    ensures grid.Complete() && grid.width == old(grid.width) && grid.height == old(grid.height)
    ensures DitherState(tex.pixel, grid.colourID) ==
            FsUpTo(DitherState(old(tex.pixel), old(grid.colourID)), palette, tex.width, tex.width * tex.height)
  {
    ghost var s0 := DitherState(tex.pixel, grid.colourID);
    var y := 0;
    while y < grid.height
      invariant 0 <= y <= grid.height
      invariant tex.Valid() && grid.Complete() && tex.width == grid.width && tex.height == grid.height
      invariant tex.width == old(tex.width) && tex.height == old(tex.height) && tex.channels == old(tex.channels)
      invariant grid.width == old(grid.width) && grid.height == old(grid.height)
      invariant y * tex.width <= tex.width * tex.height
      invariant Scanned(tex, grid, s0, palette, y * tex.width)
    {
      RowPrefix(tex.width, y, tex.width, tex.height);
      FsRow(tex, grid, palette, y, s0, y * tex.width);
      NextRow(y, tex.width);
      y := y + 1;
    }
    FlatBoundsTotal(tex.width, tex.height);
    assert y * tex.width == tex.width * tex.height;
  }

  /** The body of the ordered loop at pixel (x, y): only cell (x, y)
      changes, and it gets OrderedId of the pixel. */
  method OrderedPixel(tex: Texture2D, grid: MCMapData, palette: seq<Vector3i.Vector3>, ranks: seq<Bayer.Rank>, x: nat, y: nat)
    requires tex.Valid() && grid.Complete() && tex.width == grid.width && tex.height == grid.height
    requires |palette| >= 5 && Bayer.IsMatrix(ranks) && x < tex.width && y < tex.height
    requires x + y * tex.width < tex.width * tex.height
    modifies grid
    ensures grid.width == old(grid.width) && grid.height == old(grid.height)
    ensures grid.colourID == old(grid.colourID)[x + y * tex.width := OrderedId(palette, tex.pixel[x + y * tex.width], Bayer.RankAt(ranks, x, y))]
  {
    var sampleColour := tex.Get(x, y);
    var k := Bayer.RankAt(ranks, x, y);
    var alpha := OrderedAlpha(sampleColour.w, k);
    if sampleColour.w == 0 || alpha == 0 {
      grid.Set(x, y, 0);
    } else {
      var colourDither := ColourDither(k);
      sampleColour := Add(sampleColour, Vector4(colourDither, colourDither, colourDither, 0));
      var nearest := Palette.NearestIndex(palette, Xyz(sampleColour));
      grid.Set(x, y, nearest);
    }
    assert grid.colourID == old(grid.colourID)[x + y * tex.width := grid.colourID[x + y * tex.width]];
  }

  /** One more cell of the ordered pass. */
  lemma OrderedIdsNext(pixels: seq<Vector4>, palette: seq<Vector3i.Vector3>, ranks: seq<Bayer.Rank>, width: nat, x: nat, y: nat)
    requires |palette| >= 5 && Bayer.IsMatrix(ranks) && x < width && x + y * width < |pixels|
    ensures OrderedIds(pixels, palette, ranks, width, x + y * width + 1) ==
            OrderedIds(pixels, palette, ranks, width, x + y * width) +
            [OrderedId(palette, pixels[x + y * width], Bayer.RankAt(ranks, x, y))]
  {
    FlatUnique(x, y, width);
  }

  /** Row y of the ordered pass. */
  method OrderedRow(tex: Texture2D, grid: MCMapData, palette: seq<Vector3i.Vector3>, ranks: seq<Bayer.Rank>, y: nat)
    requires tex.Valid() && grid.Complete() && tex.width == grid.width && tex.height == grid.height
    requires |palette| >= 5 && Bayer.IsMatrix(ranks) && y < tex.height
    requires y * tex.width + tex.width <= tex.width * tex.height
    requires grid.colourID[..y * tex.width] == OrderedIds(tex.pixel, palette, ranks, tex.width, y * tex.width)
    modifies grid
    ensures grid.Complete() && grid.width == old(grid.width) && grid.height == old(grid.height)
    ensures grid.colourID[..y * tex.width + tex.width] == OrderedIds(tex.pixel, palette, ranks, tex.width, y * tex.width + tex.width)
  {
    ghost var start := y * tex.width;
    var x := 0;
    while x < grid.width
      invariant 0 <= x <= grid.width
      invariant grid.Complete() && grid.width == old(grid.width) && grid.height == old(grid.height)
      invariant grid.colourID[..start + x] == OrderedIds(tex.pixel, palette, ranks, tex.width, start + x)
    {
      ghost var before := grid.colourID;
      OrderedPixel(tex, grid, palette, ranks, x, y);
      OrderedIdsNext(tex.pixel, palette, ranks, tex.width, x, y);
      assert grid.colourID[..start + x + 1] == before[..start + x] + [grid.colourID[start + x]];
      x := x + 1;
    }
  }

  /** The ordered branch of `ConvertImageToMap` (main.cpp lines 291-337):
      every cell gets OrderedId of its pixel; the texture is only read. */
  method OrderedDither(tex: Texture2D, grid: MCMapData, palette: seq<Vector3i.Vector3>, ranks: seq<Bayer.Rank>)
    requires tex.Valid() && grid.Complete() && tex.width == grid.width && tex.height == grid.height
    requires |palette| >= 5 && Bayer.IsMatrix(ranks)
    modifies grid
    ensures grid.Complete() && grid.width == old(grid.width) && grid.height == old(grid.height)
    ensures grid.colourID == OrderedIds(tex.pixel, palette, ranks, tex.width, tex.width * tex.height)
  {
    var y := 0;
    while y < grid.height
      invariant 0 <= y <= grid.height
      invariant grid.Complete() && grid.width == old(grid.width) && grid.height == old(grid.height)
      invariant y * tex.width <= tex.width * tex.height
      invariant grid.colourID[..y * tex.width] == OrderedIds(tex.pixel, palette, ranks, tex.width, y * tex.width)
    {
      RowPrefix(tex.width, y, tex.width, tex.height);
      OrderedRow(tex, grid, palette, ranks, y);
      NextRow(y, tex.width);
      y := y + 1;
    }
    FlatBoundsTotal(tex.width, tex.height);
    assert grid.colourID[..tex.width * tex.height] == grid.colourID;
  }

  /* ---------------------------------------------------------------- */
  /* The two conversions                                               */
  /* ---------------------------------------------------------------- */

  /** Texture pixel i of ConvertMapToImage is CellColour of cell i. */
  method MapRow(tex: Texture2D, grid: MCMapData, palette: seq<Vector3i.Vector3>, y: nat)
    requires tex.Valid() && grid.Complete() && tex.width == grid.width && tex.height == grid.height
    requires LookupIds(grid.colourID, |palette|) && y < tex.height
    requires y * tex.width + tex.width <= tex.width * tex.height
    requires forall i :: 0 <= i < y * tex.width ==> tex.pixel[i] == CellColour(grid.colourID[i], palette)
    modifies tex
    ensures tex.Valid() && tex.width == old(tex.width) && tex.height == old(tex.height) && tex.channels == old(tex.channels)
    ensures forall i :: 0 <= i < y * tex.width + tex.width ==> tex.pixel[i] == CellColour(grid.colourID[i], palette)
  {
    for x := 0 to tex.width
      invariant tex.Valid() && tex.width == old(tex.width) && tex.height == old(tex.height) && tex.channels == old(tex.channels)
      invariant forall i :: 0 <= i < x + y * tex.width ==> tex.pixel[i] == CellColour(grid.colourID[i], palette)
    {
      var colourID := grid.Get(x, y);
      if 0 <= colourID < 4 {
        tex.Set(x, y, Vector4(0, 0, 0, 0));
      } else {
        tex.Set(x, y, FromVector3(palette[colourID], 255));
      }
    }
  }

  /** The conversion loop of `ConvertMapToImage`: a texture of the map's
      size whose pixel i is the colour of cell i. */
  method MapToTexture(grid: MCMapData, palette: seq<Vector3i.Vector3>) returns (tex: Texture2D)
    requires grid.Complete() && LookupIds(grid.colourID, |palette|)
    ensures fresh(tex) && tex.Valid() && tex.channels == 4
    ensures tex.width == grid.width && tex.height == grid.height
    ensures tex.pixel == ImagePixels(grid.colourID, palette)
  {
    tex := new Texture2D(grid.width, grid.height);
    for y := 0 to tex.height
      invariant tex.Valid() && tex.width == grid.width && tex.height == grid.height && tex.channels == 4
      invariant y * tex.width <= tex.width * tex.height
      invariant forall i :: 0 <= i < y * tex.width ==> tex.pixel[i] == CellColour(grid.colourID[i], palette)
    {
      RowPrefix(tex.width, y, tex.width, tex.height);
      MapRow(tex, grid, palette, y);
      NextRow(y, tex.width);
    }
    FlatBoundsTotal(tex.width, tex.height);
  }

  /** The IDs a map file of at least 128 * 128 bytes loads to are all valid
      for the lookup when every byte of 4 or more names a palette entry. */
  ghost predicate LookupBytes(bytes: seq<byte>, paletteSize: nat)
  {
    forall i :: 0 <= i < |bytes| ==> (4 <= bytes[i] as int ==> bytes[i] as int < paletteSize)
  }

  /** `ConvertMapToImage`: `file` is the content of the map file (None when
      it cannot be opened), `ppmWritten` what the PPM writer would report.
      The map is read at 128 x 128, converted and saved; the result is
      false when the map cannot be read or the image cannot be saved, and a
      PNG output is the packed image of the map. */
  method ConvertMapToImage(file: Option<seq<byte>>, outputFile: string, palette: seq<Vector3i.Vector3>, ppmWritten: bool)
    returns (ok: bool, png: Option<PngImage>)
    requires file.Some? ==> |file.value| >= DefaultWidth * DefaultHeight
    requires file.Some? ==> LookupBytes(file.value[..DefaultWidth * DefaultHeight], |palette|)
    ensures ok <==> file.Some? && ((Extension(outputFile) == ".ppm" && ppmWritten) || Extension(outputFile) == ".png")
    ensures png.Some? <==> file.Some? && Extension(outputFile) == ".png"
    ensures png.Some? ==> var ids := Decode(file.value, DefaultWidth * DefaultHeight);
      LookupIds(ids, |palette|) &&
      png.value == PngImage(DefaultWidth, DefaultHeight, 4, Packed(ImagePixels(ids, palette)))
  {
    var inputMap := new MCMapData(DefaultWidth, DefaultHeight);
    var loaded := inputMap.LoadFromFile(file, DefaultWidth, DefaultHeight);
    if !loaded {
      return false, None;
    }
    DecodeIds(file.value, |palette|);
    var outputTexture := MapToTexture(inputMap, palette);
    ok, png := outputTexture.SaveToFile(outputFile, ppmWritten);
  }

  /** A long enough stream whose bytes are valid for the lookup loads to a
      complete grid of valid IDs. */
  lemma DecodeIds(bytes: seq<byte>, paletteSize: nat)
    requires |bytes| >= DefaultWidth * DefaultHeight
    requires LookupBytes(bytes[..DefaultWidth * DefaultHeight], paletteSize)
    ensures |Decode(bytes, DefaultWidth * DefaultHeight)| == DefaultWidth * DefaultHeight
    ensures LookupIds(Decode(bytes, DefaultWidth * DefaultHeight), paletteSize)
  {
    var ids := Decode(bytes, DefaultWidth * DefaultHeight);
    forall i | 0 <= i < |ids|
      ensures 0 <= ids[i] && (4 <= ids[i] ==> ids[i] < paletteSize)
    {
      assert ids[i] == bytes[..DefaultWidth * DefaultHeight][i] as int;
    }
  }

  /** The dithering methods of `ConvertImageToMap`. */
  datatype DitherType = Ordered | FloydSteinberg

  /** The IDs `ConvertImageToMap` computes for a 128 x 128 canvas. */
  function ConvertedIds(canvas: seq<Vector4>, palette: seq<Vector3i.Vector3>, dithering: DitherType): (r: seq<int>)
    requires |palette| >= 5 && |canvas| == DefaultWidth * DefaultHeight
    ensures |r| == DefaultWidth * DefaultHeight
  {
    match dithering
    case FloydSteinberg =>
      FsUpTo(DitherState(canvas, seq(DefaultWidth * DefaultHeight, _ => 0)), palette, DefaultWidth, DefaultWidth * DefaultHeight).ids
    case Ordered =>
      OrderedIds(canvas, palette, Bayer.Ranks, DefaultWidth, DefaultWidth * DefaultHeight)
  }

  /** Both methods emit only IDs 0 and [4, |palette|). */
  lemma ConvertedIdsEmitted(canvas: seq<Vector4>, palette: seq<Vector3i.Vector3>, dithering: DitherType)
    requires |palette| >= 5 && |canvas| == DefaultWidth * DefaultHeight
    ensures EmittedIds(ConvertedIds(canvas, palette, dithering), palette)
  {
    match dithering
    case FloydSteinberg =>
      FsIdsEmitted(DitherState(canvas, seq(DefaultWidth * DefaultHeight, _ => 0)), palette, DefaultWidth, DefaultWidth * DefaultHeight);
    case Ordered =>
      OrderedIdsEmitted(canvas, palette, Bayer.Ranks, DefaultWidth, DefaultWidth * DefaultHeight);
  }

  /** Converting a canonical map to an image and back with Floyd-Steinberg
      gives the map back, with the transparent IDs 1-3 read as 0. */
  lemma MapImageRoundTrip(ids: seq<int>, palette: seq<Vector3i.Vector3>)
    requires |palette| >= 5 && |ids| == DefaultWidth * DefaultHeight
    requires LookupIds(ids, |palette|) && CanonicalIds(ids, palette)
    ensures ConvertedIds(ImagePixels(ids, palette), palette, FloydSteinberg) == Recovered(ids)
  {
    var init := seq(DefaultWidth * DefaultHeight, _ => 0);
    FsRecoversMap(ids, init, palette, DefaultWidth, DefaultWidth * DefaultHeight);
    assert Recovered(ids)[..DefaultWidth * DefaultHeight] + init[DefaultWidth * DefaultHeight..] == Recovered(ids);
  }

  /** `ConvertImageToMap` from the point where the texture is loaded and
      scaled: `input` is None when the image cannot be loaded, and
      otherwise the texture as `Resize` leaves it. The canvas is set to
      128 x 128, every cell is quantised by the chosen method, and the map
      is written when `canOpen` says the output file opens. */
  method ConvertImageToMap(input: Option<Texture2D>, palette: seq<Vector3i.Vector3>, dithering: DitherType, canOpen: bool)
    returns (ok: bool, written: seq<byte>)
    requires input.Some? ==> input.value.Valid()
    requires |palette| >= 5
    modifies if input.Some? then {input.value} else {}
    ensures ok <==> input.Some? && canOpen
    ensures !ok ==> written == []
    ensures ok ==> var tex := input.value;
      written == Encode(ConvertedIds(CanvasPixels(old(tex.pixel), old(tex.width), old(tex.height), DefaultWidth, DefaultHeight), palette, dithering))
  {
    if input.None? {
      return false, [];
    }
    var inputTexture := input.value;
    inputTexture.ResizeCanvas(DefaultWidth, DefaultHeight);
    ghost var canvas := inputTexture.pixel;
    var outputMap := new MCMapData(inputTexture.width, inputTexture.height);
    match dithering {
      case FloydSteinberg =>
        FloydSteinbergDither(inputTexture, outputMap, palette);
      case Ordered =>
        OrderedDither(inputTexture, outputMap, palette, Bayer.Ranks);
    }
    assert outputMap.colourID == ConvertedIds(canvas, palette, dithering);
    ok, written := outputMap.SaveToFile(canOpen);
    assert outputMap.colourID[..DefaultWidth * DefaultHeight] == outputMap.colourID;
  }
}

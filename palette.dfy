/** The map palette of main.cpp: every base colour of the colour table
    becomes four shades, and a colour is matched to the palette by a linear
    scan for the smallest squared distance, starting at index 4 (indices 0-3
    are the transparent entries). */
module Palette {
  import opened Numeric
  import opened Vector3i

  /** The shade multipliers `0.71f`, `0.86f` and `0.53f`, idealised as the
      exact decimal fractions they stand for. */
  const Tier0 := Ratio(71, 100)
  const Tier1 := Ratio(86, 100)
  const Tier3 := Ratio(53, 100)

  /** The four palette entries of base colour c, in the order they are
      pushed: c * 0.71, c * 0.86, c, c * 0.53. */
  function Shades(c: Vector3): seq<Vector3>
  {
    [Mul(c, Tier0), Mul(c, Tier1), c, Mul(c, Tier3)]
  }

  /** The palette the base colours expand to. */
  function Expanded(bases: seq<Vector3>): (r: seq<Vector3>)
    ensures |r| == 4 * |bases|
  {
    if bases == [] then [] else Expanded(bases[..|bases| - 1]) + Shades(bases[|bases| - 1])
  }

  /** Entry 4 * i + j of the palette is shade j of base colour i. */
  lemma {:induction false} ExpandedAt(bases: seq<Vector3>, i: int, j: int)
    requires 0 <= i < |bases| && 0 <= j < 4
    ensures 4 * i + j < |Expanded(bases)|
    ensures Expanded(bases)[4 * i + j] == Shades(bases[i])[j]
    decreases |bases|
  {
    var n := |bases| - 1;
    var front := bases[..n];
    var e := Expanded(front);
    assert Expanded(bases) == e + Shades(bases[n]);
    assert |e| == 4 * n;
    if i < n {
      ExpandedAt(front, i, j);
      assert 4 * i + j < 4 * n;
      assert front[i] == bases[i];
    } else {
      assert 4 * i + j == |e| + j;
    }
  }

  /** A channel value in [0, 255] keeps its order under the three
      multipliers: c * 0.53 <= c * 0.71 <= c * 0.86 <= c, all in [0, 255]. */
  lemma ShadeOrder(c: int)
    requires 0 <= c < 256
    ensures 0 <= MulRatio(c, Tier3) <= MulRatio(c, Tier0) <= MulRatio(c, Tier1) <= c
  {
    ScaleMonotone(c, 53, 71, 100);
    ScaleMonotone(c, 71, 86, 100);
    ScaleMonotone(c, 86, 100, 100);
    ScaleMonotone(c, 0, 53, 100);
    TruncDivExact(c, 100);
    TruncDivExact(0, 100);
  }

  lemma ScaleMonotone(c: int, a: int, b: int, d: int)
    requires 0 <= c && 0 <= a <= b && 0 < d
    ensures TruncDiv(c * a, d) <= TruncDiv(c * b, d)
  {
    ProductNonNeg(c, a);
    ProductNonNeg(c, b - a);
    assert c * b - c * a == c * (b - a);
    var q1, q2 := TruncDiv(c * a, d), TruncDiv(c * b, d);
    assert q1 * d < (q2 + 1) * d;
    MulCancel(q2 + 1, q1, d);
  }

  /** The shades of a colour with channels in [0, 255] are colours with
      channels in [0, 255], each channel ordered as ShadeOrder says. */
  lemma ShadesInRange(c: Vector3)
    requires 0 <= c.x < 256 && 0 <= c.y < 256 && 0 <= c.z < 256
    ensures forall j :: 0 <= j < 4 ==>
      0 <= Shades(c)[j].x <= c.x && 0 <= Shades(c)[j].y <= c.y && 0 <= Shades(c)[j].z <= c.z
  {
    ShadeOrder(c.x);
    ShadeOrder(c.y);
    ShadeOrder(c.z);
  }

  /** Pure red expands to (181, 0, 0), (219, 0, 0), (255, 0, 0), (135, 0, 0). */
  lemma ShadesOfRed()
    ensures Shades(Vector3(255, 0, 0)) ==
      [Vector3(181, 0, 0), Vector3(219, 0, 0), Vector3(255, 0, 0), Vector3(135, 0, 0)]
  {
  }

  /** The expansion loop of `LoadPaletteFromFile`: for each record four
      entries are pushed. */
  method ExpandPalette(bases: seq<Vector3>) returns (palette: seq<Vector3>)
    ensures palette == Expanded(bases)
    ensures |palette| == 4 * |bases|
  {
    palette := [];
    for i := 0 to |bases|
      invariant palette == Expanded(bases[..i])
    {
      var colour := bases[i];
      palette := palette + [Mul(colour, Tier0)];
      palette := palette + [Mul(colour, Tier1)];
      palette := palette + [colour];
      palette := palette + [Mul(colour, Tier3)];
      assert bases[..i + 1][..i] == bases[..i];
    }
    assert bases[..|bases|] == bases;
  }

  /** The squared distance the search compares:
      `LengthSqr(paletteData[i] - sample)`. */
  function Dist(p: Vector3, c: Vector3): int
  {
    LengthSqr(Sub(p, c))
  }

  /** r is the nearest entry from index 4 on: no entry from 4 on is closer,
      and every entry before r (from 4 on) is strictly farther. */
  ghost predicate IsNearest(palette: seq<Vector3>, c: Vector3, r: int)
  {
    4 <= r < |palette| &&
    (forall j :: 4 <= j < |palette| ==> Dist(palette[r], c) <= Dist(palette[j], c)) &&
    (forall j :: 4 <= j < r ==> Dist(palette[r], c) < Dist(palette[j], c))
  }

  /** The scan from index i on, with `best` the nearest index so far. */
  function NearestFrom(palette: seq<Vector3>, c: Vector3, i: nat, best: nat): (r: nat)
    requires 4 <= best < i <= |palette|
    ensures 4 <= r < |palette|
    decreases |palette| - i
  {
    if i == |palette| then best
    else if Dist(palette[i], c) < Dist(palette[best], c) then NearestFrom(palette, c, i + 1, i)
    else NearestFrom(palette, c, i + 1, best)
  }

  /** The index the search returns: it starts with `nearest = 4` and scans
      from 5, replacing the candidate only for a strictly smaller distance. */
  function Nearest(palette: seq<Vector3>, c: Vector3): (r: nat)
    requires |palette| >= 5
    ensures 4 <= r < |palette|
  {
    NearestFrom(palette, c, 5, 4)
  }

  lemma {:induction false} NearestFromSpec(palette: seq<Vector3>, c: Vector3, i: nat, best: nat)
    requires 4 <= best < i <= |palette|
    requires forall j :: 4 <= j < i ==> Dist(palette[best], c) <= Dist(palette[j], c)
    requires forall j :: 4 <= j < best ==> Dist(palette[best], c) < Dist(palette[j], c)
    ensures IsNearest(palette, c, NearestFrom(palette, c, i, best))
    decreases |palette| - i
  {
    if i < |palette| {
      if Dist(palette[i], c) < Dist(palette[best], c) {
        NearestFromSpec(palette, c, i + 1, i);
      } else {
        NearestFromSpec(palette, c, i + 1, best);
      }
    }
  }

  /** The search returns an index in [4, |palette|) whose distance is
      minimal among the entries from 4 on, the lowest such index on a tie. */
  lemma NearestSpec(palette: seq<Vector3>, c: Vector3)
    requires |palette| >= 5
    ensures IsNearest(palette, c, Nearest(palette, c))
  {
    NearestFromSpec(palette, c, 5, 4);
  }

  /** The characterisation determines the result: an index that is nearest
      in that sense is the one the search returns. */
  lemma NearestUnique(palette: seq<Vector3>, c: Vector3, r: int)
    requires |palette| >= 5 && IsNearest(palette, c, r)
    ensures Nearest(palette, c) == r
  {
    NearestSpec(palette, c);
  }

  /** A colour that is in the palette is matched to the first entry from
      index 4 on that holds it. */
  lemma NearestExact(palette: seq<Vector3>, c: Vector3, k: int)
    requires 4 <= k < |palette| && palette[k] == c
    requires forall j :: 4 <= j < k ==> palette[j] != c
    ensures Nearest(palette, c) == k
  {
    ExactIsNearest(palette, c, k);
    NearestUnique(palette, c, k);
  }

  lemma ExactIsNearest(palette: seq<Vector3>, c: Vector3, k: int)
    requires 4 <= k < |palette| && palette[k] == c
    requires forall j :: 4 <= j < k ==> palette[j] != c
    ensures IsNearest(palette, c, k)
  {
    ExactNoCloser(palette, c, k);
    ExactStrictlyBefore(palette, c, k);
  }

  lemma ExactNoCloser(palette: seq<Vector3>, c: Vector3, k: int)
    requires 0 <= k < |palette| && palette[k] == c
    ensures forall j :: 4 <= j < |palette| ==> Dist(palette[k], c) <= Dist(palette[j], c)
  {
    DistZero(palette[k], c);
    DistsNonNegative(palette, c);
  }

  lemma ExactStrictlyBefore(palette: seq<Vector3>, c: Vector3, k: int)
    requires 0 <= k < |palette| && palette[k] == c
    requires forall j :: 4 <= j < k ==> palette[j] != c
    ensures forall j :: 4 <= j < k ==> Dist(palette[k], c) < Dist(palette[j], c)
  {
    DistsPositiveBefore(palette, c, k);
    assert Dist(palette[k], c) == 0 by {
      DistZero(palette[k], c);
    }
  }

  lemma DistsNonNegative(palette: seq<Vector3>, c: Vector3)
    ensures forall j :: 0 <= j < |palette| ==> 0 <= Dist(palette[j], c)
  {
    forall j | 0 <= j < |palette|
      ensures 0 <= Dist(palette[j], c)
    {
      DistZero(palette[j], c);
    }
  }

  lemma DistsPositiveBefore(palette: seq<Vector3>, c: Vector3, k: int)
    requires k <= |palette|
    requires forall j :: 4 <= j < k ==> palette[j] != c
    ensures forall j :: 4 <= j < k ==> 0 < Dist(palette[j], c)
  {
    forall j | 4 <= j < k
      ensures 0 < Dist(palette[j], c)
    {
      DistZero(palette[j], c);
    }
  }

  /** The distance is never negative and is zero exactly for the colour
      itself. */
  lemma DistZero(p: Vector3, c: Vector3)
    ensures Dist(p, c) >= 0
    ensures Dist(p, c) == 0 <==> p == c
  {
    LengthSqrZero(Sub(p, c));
    SubZero(p, c);
  }

  /** The nearest-colour loop of main.cpp (lines 253-269 and 315-331). */
  method NearestIndex(palette: seq<Vector3>, c: Vector3) returns (nearest: nat)
    requires |palette| >= 5
    ensures nearest == Nearest(palette, c)
    ensures IsNearest(palette, c, nearest)
  {
    nearest := 4;
    var nearestDistance := LengthSqr(Sub(palette[nearest], c));
    for i := 5 to |palette|
      invariant 4 <= nearest < i
      invariant nearestDistance == Dist(palette[nearest], c)
      invariant NearestFrom(palette, c, i, nearest) == Nearest(palette, c)
    {
      var distance := LengthSqr(Sub(palette[i], c));
      if distance < nearestDistance {
        nearest := i;
        nearestDistance := distance;
      }
    }
    NearestSpec(palette, c);
  }
}

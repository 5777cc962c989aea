/** Extraction of a limb-darkening profile from a solar-disk image: the pixels
    inside the disk are grouped into integer-radius rings, each ring is
    sigma-clipped to one mean intensity, rings without a value are dropped,
    radius is converted to mu = sqrt(1 - (r/R)^2), intensity is divided by the
    brightest of the innermost rings, and the pairs are ordered by mu. */
module RadialAnalysis {
  import opened Wrappers
  import opened Numerics

  /** A greyscale image as rows of pixel values: `img[y][x]`. */
  type Image = seq<seq<real>>

  /** One pixel with its column, its row and its value. */
  datatype Pixel = Pixel(x: int, y: int, value: real)

  /** One point of the profile before it is split into two arrays. */
  datatype Sample = Sample(mu: real, intensity: real)

  /** The two arrays `extract_radial_profile` returns. */
  datatype Profile = Profile(mu: seq<real>, intensity: seq<real>)

  /** `np.max` of the binned radii raises when no pixel lies in the disk. */
  datatype ProfileError = EmptyDisk

  // ---------------------------------------------------------------------
  // Disk membership and integer binning

  /** `d ** 2`. The two branches compute the same product; the split lets
      the verifier see that the result is a natural number. */
  function IntSquare(d: int): (r: nat)
    ensures d != 0 ==> 1 <= r
  {
    if d < 0 then (-d) * (-d) else d * d
  }

  /** The squared distance `(x - cx)^2 + (y - cy)^2`, exact on integer coordinates. */
  function SqDist(x: int, y: int, cx: int, cy: int): (d2: nat)
    ensures d2 == 0 <==> x == cx && y == cy
  {
    IntSquare(x - cx) + IntSquare(y - cy)
  }

  /** `R <= radius` for a pixel at squared distance `d2`, decided without a
      square root. A pixel in the disk lies in a ring no further out than the
      radius, and every ring strictly inside the radius is in the disk. */
  function InDisk(d2: nat, radius: int): (b: bool)
    ensures b ==> ISqrt(d2) <= radius
    ensures ISqrt(d2) < radius ==> b
  {
    DiskRingBounds(d2, radius);
    0 <= radius && d2 <= radius * radius
  }

  lemma DiskRingBounds(d2: nat, radius: int)
    ensures 0 <= radius && d2 <= radius * radius ==> ISqrt(d2) <= radius
    ensures ISqrt(d2) < radius ==> 0 <= radius && d2 <= radius * radius
  {
    var s := ISqrt(d2);
    if 0 <= radius < s {
      SquareStrictlyIncreasing(radius, s);
    }
    if s + 1 < radius {
      SquareStrictlyIncreasing(s + 1, radius);
    }
  }

  /** The integer square root: the largest `r` with `r * r <= n`. */
  function ISqrt(n: nat): (r: nat)
    ensures r * r <= n < (r + 1) * (r + 1)
  {
    if n == 0 then 0
    else
      var s := ISqrt(n - 1);
      if (s + 1) * (s + 1) <= n then s + 1 else s
  }

  lemma CastSquare(k: int)
    ensures (k * k) as real == Square(k as real)
  {
    SquareIsProduct(k as real);
  }

  /** The disk test on integers agrees with the source's test on the square
      root of the squared distance. */
  lemma InDiskIffWithinRadius(m: Maths, d2: nat, radius: int)
    requires Lawful(m)
    ensures InDisk(d2, radius) <==> m.sqrt(d2 as real) <= radius as real
  {
    if 0 <= radius {
      CastSquare(radius);
      SqrtOfSquare(m, radius as real);
      SqrtLeIffLe(m, d2 as real, (radius * radius) as real);
    }
  }

  /** The ring of a pixel, `int(R)`, is the floor of its distance from the centre. */
  lemma RingIsFloorOfDistance(m: Maths, d2: nat)
    requires Lawful(m)
    ensures ISqrt(d2) as real <= m.sqrt(d2 as real) < ISqrt(d2) as real + 1.0
  {
    var r := ISqrt(d2);
    CastSquare(r);
    CastSquare(r + 1);
    SqrtOfSquare(m, r as real);
    SqrtOfSquare(m, (r + 1) as real);
    SqrtLeIffLe(m, (r * r) as real, d2 as real);
    SqrtLeIffLe(m, ((r + 1) * (r + 1)) as real, d2 as real);
  }

  /** No pixel occurs twice. */
  predicate Distinct(ps: seq<Pixel>)
  {
    forall i, j :: 0 <= i < j < |ps| ==> ps[i] != ps[j]
  }

  lemma DistinctConcat(a: seq<Pixel>, b: seq<Pixel>)
    requires Distinct(a) && Distinct(b)
    requires forall p :: p in a ==> p !in b
    ensures Distinct(a + b)
  {
    var c := a + b;
    forall i, j | 0 <= i < j < |c| ensures c[i] != c[j] {
      if j < |a| {
        assert c[i] == a[i] && c[j] == a[j];
      } else if |a| <= i {
        assert c[i] == b[i - |a|] && c[j] == b[j - |a|];
      } else {
        assert c[i] == a[i] && c[j] == b[j - |a|];
        assert a[i] in a && c[j] in b;
      }
    }
  }

  /** The pixels of one row, left to right. */
  function Row(img: Image, y: nat): (row: seq<Pixel>)
    requires y < |img|
    ensures forall p :: p in row <==> p.y == y && 0 <= p.x < |img[y]| && p.value == img[y][p.x]
  {
    var row := seq(|img[y]|, x requires 0 <= x < |img[y]| => Pixel(x, y, img[y][x]));
    forall p ensures p in row <==> p.y == y && 0 <= p.x < |img[y]| && p.value == img[y][p.x] {
      if p.y == y && 0 <= p.x < |img[y]| && p.value == img[y][p.x] {
        assert row[p.x] == p;
      }
    }
    row
  }

  /** The pixels of rows `y..` in row-major order, as `np.indices` enumerates
      them: every pixel of those rows. */
  function PixelsFrom(img: Image, y: nat): (ps: seq<Pixel>)
    decreases |img| - y
    ensures forall p :: p in ps <==>
      y <= p.y < |img| && 0 <= p.x < |img[p.y]| && p.value == img[p.y][p.x]
  {
    if y >= |img| then [] else Row(img, y) + PixelsFrom(img, y + 1)
  }

  /** `np.indices` enumerates each pixel of rows `y..` exactly once. */
  lemma {:induction false} PixelsFromDistinct(img: Image, y: nat)
    decreases |img| - y
    ensures Distinct(PixelsFrom(img, y))
  {
    if y < |img| {
      var row, rest := Row(img, y), PixelsFrom(img, y + 1);
      assert Distinct(row) by {
        forall i, j | 0 <= i < j < |row| ensures row[i] != row[j] {
          assert row[i].x == i && row[j].x == j;
        }
      }
      PixelsFromDistinct(img, y + 1);
      DistinctConcat(row, rest);
    }
  }

  /** The pixels within the disk, in row-major order: `img_np[mask]` with the
      coordinates kept. Each pixel in the disk is kept as often as it occurs,
      and no other pixel is. */
  function InDiskPixels(ps: seq<Pixel>, cx: int, cy: int, radius: int): (r: seq<Pixel>)
    ensures forall p :: p in r <==> p in ps && InDisk(SqDist(p.x, p.y, cx, cy), radius)
  {
    if ps == [] then []
    else
      var rest := InDiskPixels(ps[1..], cx, cy, radius);
      if InDisk(SqDist(ps[0].x, ps[0].y, cx, cy), radius) then [ps[0]] + rest else rest
  }

  /** The disk mask keeps each pixel in the disk as often as it occurs, and
      no other pixel. */
  lemma {:induction false} InDiskPixelsCount(ps: seq<Pixel>, cx: int, cy: int, radius: int, p: Pixel)
    ensures multiset(InDiskPixels(ps, cx, cy, radius))[p] ==
      if InDisk(SqDist(p.x, p.y, cx, cy), radius) then multiset(ps)[p] else 0
  {
    if ps != [] {
      InDiskPixelsCount(ps[1..], cx, cy, radius, p);
      assert ps == [ps[0]] + ps[1..];
    }
  }

  /** The disk mask keeps distinct pixels distinct. */
  lemma {:induction false} InDiskPixelsDistinct(ps: seq<Pixel>, cx: int, cy: int, radius: int)
    requires Distinct(ps)
    ensures Distinct(InDiskPixels(ps, cx, cy, radius))
  {
    if ps != [] {
      DistinctTail(ps);
      InDiskPixelsDistinct(ps[1..], cx, cy, radius);
      DistinctFilterStep(ps, InDiskPixels(ps[1..], cx, cy, radius));
    }
  }

  /** Filtering a distinct sequence keeps it distinct, whether or not the
      first pixel is kept. */
  lemma DistinctFilterStep(ps: seq<Pixel>, rest: seq<Pixel>)
    requires ps != []
    requires forall p :: p in rest ==> p in ps[1..]
    requires Distinct(ps[1..]) ==> Distinct(rest)
    ensures Distinct(ps) ==> Distinct(rest) && Distinct([ps[0]] + rest)
  {
    if Distinct(ps) {
      DistinctTail(ps);
      DistinctConcat([ps[0]], rest);
    }
  }

  lemma DistinctTail(ps: seq<Pixel>)
    requires ps != [] && Distinct(ps)
    ensures Distinct(ps[1..]) && ps[0] !in ps[1..]
  {
    forall i, j | 0 <= i < j < |ps| - 1 ensures ps[1..][i] != ps[1..][j] {
      assert ps[i + 1] != ps[j + 1];
    }
    forall j | 1 <= j < |ps| ensures ps[j] != ps[0] {
      assert ps[0] != ps[j];
    }
  }

  /** `img_np[mask]` with the coordinates kept. */
  function DiskPixels(img: Image, cx: int, cy: int, radius: int): seq<Pixel>
  {
    InDiskPixels(PixelsFrom(img, 0), cx, cy, radius)
  }

  /** The disk pixels are every pixel of the image within the disk, each once. */
  lemma DiskPixelsExactlyOnce(img: Image, cx: int, cy: int, radius: int)
    ensures forall p :: p in DiskPixels(img, cx, cy, radius) <==>
      (0 <= p.y < |img| && 0 <= p.x < |img[p.y]| && p.value == img[p.y][p.x] &&
       InDisk(SqDist(p.x, p.y, cx, cy), radius))
    ensures Distinct(DiskPixels(img, cx, cy, radius))
  {
    PixelsFromDistinct(img, 0);
    InDiskPixelsDistinct(PixelsFrom(img, 0), cx, cy, radius);
  }

  /** `r_int` of one pixel: its ring, the integer part of its distance from
      the centre. */
  function Ring(p: Pixel, cx: int, cy: int): (r: nat)
    ensures r * r <= SqDist(p.x, p.y, cx, cy) < (r + 1) * (r + 1)
  {
    ISqrt(SqDist(p.x, p.y, cx, cy))
  }

  /** `int(np.max(r_int))`: the outermost occupied ring. */
  function MaxRing(ps: seq<Pixel>, cx: int, cy: int): (r: nat)
    requires ps != []
    ensures exists p :: p in ps && Ring(p, cx, cy) == r
    ensures forall p :: p in ps ==> Ring(p, cx, cy) <= r
  {
    if |ps| == 1 then Ring(ps[0], cx, cy)
    else
      var rest := MaxRing(ps[1..], cx, cy);
      assert forall p :: p in ps <==> p == ps[0] || p in ps[1..];
      if Ring(ps[0], cx, cy) < rest then rest else Ring(ps[0], cx, cy)
  }

  lemma SquareStrictlyIncreasing(a: nat, b: nat)
    requires a < b
    ensures a * a < b * b
  {
    assert a * a <= a * b;
  }

  /** `i_valid[r_int == r_val]`: the values of the pixels in ring `r`, in order. */
  function RingValues(ps: seq<Pixel>, cx: int, cy: int, r: nat): (vs: seq<real>)
    ensures |vs| <= |ps|
    ensures forall v :: v in vs <==> exists p :: p in ps && Ring(p, cx, cy) == r && p.value == v
  {
    if ps == [] then []
    else
      var rest := RingValues(ps[1..], cx, cy, r);
      assert forall p :: p in ps <==> p == ps[0] || p in ps[1..];
      if Ring(ps[0], cx, cy) == r then [ps[0].value] + rest else rest
  }

  /** The pixels of ring `r` whose value is `v`. */
  function RingPixelsWith(ps: seq<Pixel>, cx: int, cy: int, r: nat, v: real): set<Pixel>
  {
    set p | p in ps && Ring(p, cx, cy) == r && p.value == v
  }

  /** With distinct pixels, a value occurs in ring `r` as often as there are
      pixels of that ring carrying it: every pixel counts once in the ring's
      mean and deviation. */
  lemma {:induction false} RingValuesCount(ps: seq<Pixel>, cx: int, cy: int, r: nat, v: real)
    requires Distinct(ps)
    ensures multiset(RingValues(ps, cx, cy, r))[v] == |RingPixelsWith(ps, cx, cy, r, v)|
  {
    if ps != [] {
      DistinctTail(ps);
      RingValuesCount(ps[1..], cx, cy, r, v);
      RingValuesStep(ps, cx, cy, r, v);
      RingPixelsStep(ps, cx, cy, r, v);
    }
  }

  lemma RingValuesStep(ps: seq<Pixel>, cx: int, cy: int, r: nat, v: real)
    requires ps != []
    ensures multiset(RingValues(ps, cx, cy, r))[v] ==
      multiset(RingValues(ps[1..], cx, cy, r))[v] +
      (if Ring(ps[0], cx, cy) == r && ps[0].value == v then 1 else 0)
  {
    var rest := RingValues(ps[1..], cx, cy, r);
    if Ring(ps[0], cx, cy) == r {
      assert multiset([ps[0].value] + rest) == multiset{ps[0].value} + multiset(rest);
    }
  }

  lemma RingPixelsStep(ps: seq<Pixel>, cx: int, cy: int, r: nat, v: real)
    requires ps != [] && ps[0] !in ps[1..]
    ensures |RingPixelsWith(ps, cx, cy, r, v)| ==
      |RingPixelsWith(ps[1..], cx, cy, r, v)| +
      (if Ring(ps[0], cx, cy) == r && ps[0].value == v then 1 else 0)
  {
    var all, later := RingPixelsWith(ps, cx, cy, r, v), RingPixelsWith(ps[1..], cx, cy, r, v);
    assert forall p :: p in ps <==> p == ps[0] || p in ps[1..];
    if Ring(ps[0], cx, cy) == r && ps[0].value == v {
      assert all == later + {ps[0]} && ps[0] !in later;
    } else {
      assert all == later;
    }
  }

  // ---------------------------------------------------------------------
  // Sigma clipping of one ring

  /** `pixels[np.abs(pixels - mean) < bound]`. */
  function Survivors(vs: seq<real>, mean: real, bound: real): (r: seq<real>)
    ensures forall v :: v in r <==> v in vs && Abs(v - mean) < bound
    ensures bound <= 0.0 ==> r == []
  {
    if vs == [] then []
    else
      var rest := Survivors(vs[1..], mean, bound);
      assert forall v :: v in vs <==> v == vs[0] || v in vs[1..];
      if Abs(vs[0] - mean) < bound then [vs[0]] + rest else rest
  }

  /** Every value strictly within `bound` of `mean` survives as often as it
      occurs, and no other value does. */
  lemma {:induction false} SurvivorsCount(vs: seq<real>, mean: real, bound: real)
    ensures forall v :: (multiset(Survivors(vs, mean, bound))[v] ==
                         if Abs(v - mean) < bound then multiset(vs)[v] else 0)
  {
    if vs != [] {
      SurvivorsCount(vs[1..], mean, bound);
      assert vs == [vs[0]] + vs[1..];
    }
  }

  /** The value of one ring: the mean of the pixels within three standard
      deviations of the ring's mean, or no value (the source's NaN) when the
      ring is empty or no pixel survives the clipping. A value lies between
      the smallest and the largest pixel of the ring. */
  function RingValue(m: Maths, vs: seq<real>): (r: Option<real>)
    ensures r.Some? ==> vs != [] && Min(vs) <= r.value <= Max(vs)
  {
    if |vs| > 0 then
      var mean := Mean(vs);
      var std := m.sqrt(Variance(vs));
      var valid := Survivors(vs, mean, 3.0 * std);
      if |valid| > 0 then
        assert forall v :: v in valid ==> Min(vs) <= v <= Max(vs);
        MeanWithin(valid, Min(vs), Max(vs));
        Some(Mean(valid))
      else None
    else None
  }

  /** A ring is dropped exactly when it is empty or all its pixels have the
      same value: then the standard deviation is 0 and the strict test
      `|v - mean| < 0` keeps nothing; otherwise the pixel nearest the mean
      survives. */
  lemma RingDroppedIff(m: Maths, vs: seq<real>)
    requires Lawful(m)
    ensures RingValue(m, vs).None? <==> vs == [] || Uniform(vs)
  {
    if vs != [] {
      var mean, std := Mean(vs), m.sqrt(Variance(vs));
      VarianceZeroIffUniform(vs);
      if Uniform(vs) {
        SqrtZero(m);
      } else {
        SqrtPositive(m, Variance(vs));
        var k := SomeDeviationWithinVariance(vs);
        AbsWithinSqrt(m, vs[k] - mean, Variance(vs));
        assert vs[k] in Survivors(vs, mean, 3.0 * std);
      }
    }
  }

  /** The specification of the binning loop: one entry per ring `0..maxR`,
      holding a value only for an occupied ring, and then one between the
      ring's smallest and largest pixel. */
  function Rings(m: Maths, ps: seq<Pixel>, cx: int, cy: int, maxR: nat): (bins: seq<Option<real>>)
    ensures |bins| == maxR + 1
  {
    seq(maxR + 1, r requires 0 <= r => RingValue(m, RingValues(ps, cx, cy, r)))
  }

  /** Every ring with a value is occupied, and its value lies between the
      smallest and the largest pixel value of the ring. */
  lemma RingsWithinPixelRange(m: Maths, ps: seq<Pixel>, cx: int, cy: int, maxR: nat)
    ensures var bins := Rings(m, ps, cx, cy, maxR);
      forall k :: 0 <= k <= maxR && bins[k].Some? ==>
        var vs := RingValues(ps, cx, cy, k);
        vs != [] && Min(vs) <= bins[k].value <= Max(vs)
  {
  }

  /** One pass of the binning loop: the sigma-clipped mean of one ring's
      pixel values, or no value when the ring is empty or nothing survives.
      A value lies between the ring's smallest and largest pixel, and there
      is none exactly when the ring is empty or uniform. The statements are
      those of `RingValue`; the loop body is kept as a method of its own only
      so that the proof of `BinIntensities` stays small. */
  method ClipRing(m: Maths, inRing: seq<real>) returns (value: Option<real>)
    ensures value == RingValue(m, inRing)
    ensures value.Some? ==> inRing != [] && Min(inRing) <= value.value <= Max(inRing)
    ensures Lawful(m) ==> (value.None? <==> inRing == [] || Uniform(inRing))
  {
    if Lawful(m) {
      RingDroppedIff(m, inRing);
    }
    if |inRing| > 0 {
      var mean, std := Mean(inRing), m.sqrt(Variance(inRing));
      var valid := Survivors(inRing, mean, 3.0 * std);
      value := if |valid| > 0 then Some(Mean(valid)) else None;
    } else {
      value := None;
    }
  }

  /** The binning loop: fills `i_binned` ring by ring. */
  method BinIntensities(m: Maths, ps: seq<Pixel>, cx: int, cy: int, maxR: nat)
    returns (bins: seq<Option<real>>)
    ensures bins == Rings(m, ps, cx, cy, maxR)
  {
    ghost var spec := Rings(m, ps, cx, cy, maxR);
    var iBinned := new Option<real>[maxR + 1](_ => Some(0.0));
    for r := 0 to maxR + 1
      invariant forall k :: 0 <= k < r ==> iBinned[k] == spec[k]
    {
      var value := ClipRing(m, RingValues(ps, cx, cy, r));
      assert value == spec[r];
      iBinned[r] := value;
    }
    bins := iBinned[..];
  }

  // ---------------------------------------------------------------------
  // Dropping rings without a value

  /** The rings that kept a value: their radii and their intensities. */
  datatype Kept = Kept(radii: seq<nat>, intensities: seq<real>)

  predicate StrictlyIncreasing(s: seq<nat>)
  {
    forall i, j :: 0 <= i < j < |s| ==> s[i] < s[j]
  }

  /** `r_binned[~isnan(i_binned)]` and `i_binned[~isnan(i_binned)]`: the two
      arrays stay aligned, keep ascending radius order, and hold exactly the
      rings with a value. */
  function DropInvalid(bins: seq<Option<real>>): (k: Kept)
    ensures |k.radii| == |k.intensities|
    ensures StrictlyIncreasing(k.radii)
    ensures forall i :: 0 <= i < |k.radii| ==>
      k.radii[i] < |bins| && bins[k.radii[i]] == Some(k.intensities[i])
    ensures forall r :: 0 <= r < |bins| && bins[r].Some? ==> r in k.radii
  {
    if bins == [] then Kept([], [])
    else
      var last := |bins| - 1;
      var k := DropInvalid(bins[..last]);
      match bins[last]
      case None => k
      case Some(v) => Kept(k.radii + [last], k.intensities + [v])
  }

  /** When no ring has a value, nothing is kept. */
  lemma NothingKept(bins: seq<Option<real>>)
    requires forall r :: 0 <= r < |bins| ==> bins[r].None?
    ensures DropInvalid(bins).radii == []
  {
  }

  // ---------------------------------------------------------------------
  // From radius to mu

  /** `np.clip(x, lo, hi)`: the point of the interval nearest to `x`. */
  function Clip(x: real, lo: real, hi: real): (r: real)
    requires lo <= hi
    ensures lo <= r <= hi
    ensures lo <= x <= hi ==> r == x
    ensures x < lo ==> r == lo
    ensures hi < x ==> r == hi
  {
    if x < lo then lo else if x > hi then hi else x
  }

  /** `sqrt(1 - r_norm^2)` for the clipped normalised radius of ring `r`.
      The centre ring gets `sqrt(1)`, and a ring at or beyond the radius is
      clipped to the limb, `sqrt(0)`. */
  function Mu(m: Maths, r: nat, radius: int): (mu: real)
    requires 0 < radius
    ensures r == 0 ==> mu == m.sqrt(1.0)
    ensures radius <= r ==> mu == m.sqrt(0.0)
  {
    var rNorm := Clip(r as real / radius as real, 0.0, 1.0);
    BeyondRadius(r, radius);
    m.sqrt(1.0 - Square(rNorm))
  }

  lemma BeyondRadius(r: nat, radius: int)
    requires 0 < radius
    ensures radius <= r ==> 1.0 <= r as real / radius as real
  {
    if radius <= r {
      ProductAtLeast(radius as real, r as real);
      DivideWithin(r as real, radius as real, 1.0, r as real);
    }
  }

  /** Every mu lies in [0, 1]. */
  lemma MuWithinUnit(m: Maths, r: nat, radius: int)
    requires Lawful(m) && 0 < radius
    ensures 0.0 <= Mu(m, r, radius) <= 1.0
  {
    var rNorm := Clip(r as real / radius as real, 0.0, 1.0);
    SquareLeIffLe(rNorm, 1.0);
    SqrtOne(m);
    SqrtLeIffLe(m, 1.0 - Square(rNorm), 1.0);
  }

  /** Within the radius, mu strictly decreases as the ring moves outwards. */
  lemma MuDecreasing(m: Maths, r: nat, s: nat, radius: int)
    requires Lawful(m) && r < s <= radius
    ensures Mu(m, s, radius) < Mu(m, r, radius)
  {
    var R := radius as real;
    var a, b := r as real / R, s as real / R;
    DivideWithin(r as real, R, 0.0, 1.0);
    DivideWithin(s as real, R, 0.0, 1.0);
    DivideStrictlyMonotone(r as real, s as real, R);
    SquareStrictlyMonotone(a, b);
    SquareLeIffLe(b, 1.0);
    SquareLeIffLe(a, 1.0);
    SqrtLeIffLe(m, 1.0 - Square(a), 1.0 - Square(b));
  }

  lemma DivideStrictlyMonotone(x: real, y: real, n: real)
    requires 0.0 < n && x < y
    ensures x / n < y / n
  {
    assert y / n - x / n == (y - x) / n;
  }

  function MuArray(m: Maths, radii: seq<nat>, radius: int): (mu: seq<real>)
    requires 0 < radius || radii == []
    ensures |mu| == |radii|
  {
    seq(|radii|, i requires 0 <= i < |radii| => Mu(m, radii[i], radius))
  }

  // ---------------------------------------------------------------------
  // Normalising intensity

  /** How many leading rings the anchor is taken from: `min(10, n - 1) + 1`. */
  function LeadCount(n: nat): (c: nat)
    ensures c <= n && c <= 11
    ensures c == n || c == 11
  {
    if n < 11 then n else 11
  }

  /** The normalisation anchor: the largest of the first eleven kept
      intensities, replaced by 1 when it is 0 or when nothing was kept. It is
      never 0, bounds every leading intensity, and is 1 only when 1 is the
      leading maximum, when that maximum is 0, or when there are no rings. */
  function Anchor(vals: seq<real>): (a: real)
    ensures a != 0.0
    ensures forall k :: 0 <= k < LeadCount(|vals|) ==> vals[k] <= a
    ensures a != 1.0 ==> a in vals[..LeadCount(|vals|)]
    ensures a == 1.0 ==>
      || vals == []
      || 1.0 in vals[..LeadCount(|vals|)]
      || (0.0 in vals[..LeadCount(|vals|)] && forall k :: 0 <= k < LeadCount(|vals|) ==> vals[k] <= 0.0)
  {
    var iMax := if |vals| > 0 then Max(vals[..LeadCount(|vals|)]) else 1.0;
    if iMax == 0.0 then 1.0 else iMax
  }

  /** `i_binned / i_max`. */
  function Normalised(vals: seq<real>, a: real): (r: seq<real>)
    requires a != 0.0
    ensures |r| == |vals|
  {
    seq(|vals|, i requires 0 <= i < |vals| => vals[i] / a)
  }

  /** With non-negative intensities the leading rings normalise to at most 1. */
  lemma LeadingNormalisedAtMostOne(vals: seq<real>, k: nat)
    requires forall i :: 0 <= i < |vals| ==> 0.0 <= vals[i]
    requires k < LeadCount(|vals|)
    ensures Normalised(vals, Anchor(vals))[k] <= 1.0
  {
    var a := Anchor(vals);
    assert 0.0 <= vals[k] <= a;
    DivideWithin(vals[k], a, 0.0, 1.0);
  }

  // ---------------------------------------------------------------------
  // Ordering by mu

  function Zip(mu: seq<real>, vals: seq<real>): (s: seq<Sample>)
    requires |mu| == |vals|
    ensures |s| == |mu|
  {
    seq(|mu|, i requires 0 <= i < |mu| => Sample(mu[i], vals[i]))
  }

  predicate SortedByMu(s: seq<Sample>)
  {
    forall i, j :: 0 <= i < j < |s| ==> s[i].mu <= s[j].mu
  }

  /** A lower bound of `s` and of `x` bounds any rearrangement of them. */
  lemma LowerBoundKept(y: Sample, x: Sample, s: seq<Sample>, r: seq<Sample>)
    requires forall i :: 0 <= i < |s| ==> y.mu <= s[i].mu
    requires y.mu <= x.mu && multiset(r) == multiset(s) + multiset{x}
    ensures forall i :: 0 <= i < |r| ==> y.mu <= r[i].mu
  {
    forall i | 0 <= i < |r| ensures y.mu <= r[i].mu {
      assert r[i] in multiset(r);
      if r[i] != x {
        assert r[i] in s;
      }
    }
  }

  lemma SortedCons(y: Sample, s: seq<Sample>)
    requires SortedByMu(s) && forall i :: 0 <= i < |s| ==> y.mu <= s[i].mu
    ensures SortedByMu([y] + s)
  {
  }

  /** Places `x` before the first sample of larger mu. */
  function Insert(x: Sample, s: seq<Sample>): (r: seq<Sample>)
    requires SortedByMu(s)
    ensures SortedByMu(r)
    ensures |r| == |s| + 1
    ensures multiset(r) == multiset(s) + multiset{x}
  {
    if s == [] || x.mu <= s[0].mu then [x] + s
    else
      var rest := Insert(x, s[1..]);
      assert s == [s[0]] + s[1..];
      LowerBoundKept(s[0], x, s[1..], rest);
      SortedCons(s[0], rest);
      [s[0]] + rest
  }

  /** `argsort(mu_arr)` applied to both arrays: the samples ordered by mu. */
  function SortByMu(s: seq<Sample>): (r: seq<Sample>)
    ensures SortedByMu(r)
    ensures |r| == |s|
    ensures multiset(r) == multiset(s)
  {
    if s == [] then []
    else
      assert s == [s[0]] + s[1..];
      Insert(s[0], SortByMu(s[1..]))
  }

  function Reversed(s: seq<Sample>): (r: seq<Sample>)
    ensures |r| == |s|
  {
    if s == [] then [] else Reversed(s[1..]) + [s[0]]
  }

  predicate StrictlyDecreasingMu(s: seq<Sample>)
  {
    forall i, j :: 0 <= i < j < |s| ==> s[j].mu < s[i].mu
  }

  lemma {:induction false} InsertLargest(x: Sample, s: seq<Sample>)
    requires SortedByMu(s)
    requires forall y :: y in s ==> y.mu < x.mu
    ensures Insert(x, s) == s + [x]
  {
    if s != [] {
      assert s[0] in s;
      assert forall y :: y in s[1..] ==> y in s;
      InsertLargest(x, s[1..]);
    }
  }

  /** When mu strictly decreases along the samples the sort has no ties to
      break and simply reverses them. */
  lemma {:induction false} SortReversesDecreasing(s: seq<Sample>)
    requires StrictlyDecreasingMu(s)
    ensures SortByMu(s) == Reversed(s)
  {
    if s != [] {
      SortReversesDecreasing(s[1..]);
      forall y | y in multiset(SortByMu(s[1..])) ensures y.mu < s[0].mu {
        assert y in multiset(s[1..]);
      }
      InsertLargest(s[0], SortByMu(s[1..]));
    }
  }

  function MuOf(s: seq<Sample>): (mu: seq<real>)
    ensures |mu| == |s|
  {
    seq(|s|, i requires 0 <= i < |s| => s[i].mu)
  }

  function IntensityOf(s: seq<Sample>): (vals: seq<real>)
    ensures |vals| == |s|
  {
    seq(|s|, i requires 0 <= i < |s| => s[i].intensity)
  }

  // ---------------------------------------------------------------------
  // The whole extraction

  /** The samples before ordering: mu and normalised intensity of each kept ring. */
  function Unsorted(m: Maths, kept: Kept, radius: int): (s: seq<Sample>)
    requires |kept.radii| == |kept.intensities|
    requires 0 < radius || kept.radii == []
    ensures |s| == |kept.radii|
  {
    Zip(MuArray(m, kept.radii, radius), Normalised(kept.intensities, Anchor(kept.intensities)))
  }

  /** The rings that keep a value once the disk pixels are binned and clipped. */
  function KeptRings(m: Maths, ps: seq<Pixel>, cx: int, cy: int): (k: Kept)
    requires ps != []
  {
    DropInvalid(Rings(m, ps, cx, cy, MaxRing(ps, cx, cy)))
  }

  /** The kept rings are ascending occupied rings, each paired with the
      value its ring keeps after clipping. */
  lemma KeptRingsValues(m: Maths, ps: seq<Pixel>, cx: int, cy: int)
    requires ps != []
    ensures var k := KeptRings(m, ps, cx, cy);
      && |k.radii| == |k.intensities|
      && StrictlyIncreasing(k.radii)
      && forall i :: 0 <= i < |k.radii| ==>
        k.radii[i] <= MaxRing(ps, cx, cy) &&
        RingValue(m, RingValues(ps, cx, cy, k.radii[i])) == Some(k.intensities[i])
  {
  }

  /** Sample `i` pairs the mu of kept ring `i` with its intensity divided by
      the anchor. */
  lemma UnsortedSamples(m: Maths, kept: Kept, radius: int)
    requires |kept.radii| == |kept.intensities|
    requires 0 < radius || kept.radii == []
    ensures var s := Unsorted(m, kept, radius);
      forall i :: 0 <= i < |s| ==>
        s[i] == Sample(Mu(m, kept.radii[i], radius), kept.intensities[i] / Anchor(kept.intensities))
  {
  }

  /** When some leading ring is brighter than 0, the brightest leading ring
      normalises to exactly 1. */
  lemma PeakNormalisesToOne(vals: seq<real>)
    requires exists k :: 0 <= k < LeadCount(|vals|) && 0.0 < vals[k]
    ensures exists k :: 0 <= k < LeadCount(|vals|) && Normalised(vals, Anchor(vals))[k] == 1.0
  {
    var a := Anchor(vals);
    var lead := vals[..LeadCount(|vals|)];
    assert a in lead by {
      var k0 :| 0 <= k0 < LeadCount(|vals|) && 0.0 < vals[k0];
      assert lead[k0] == vals[k0] <= a;
    }
    var k :| 0 <= k < |lead| && lead[k] == a;
    DivideBySelf(a);
    assert Normalised(vals, a)[k] == vals[k] / a;
  }

  /** With a radius of 0 at most the centre pixel is in the disk, its ring is
      uniform and is dropped: no ring keeps a value. */
  lemma NoRingWithoutRadius(m: Maths, img: Image, cx: int, cy: int, radius: int)
    requires Lawful(m) && DiskPixels(img, cx, cy, radius) != []
    ensures radius <= 0 ==> KeptRings(m, DiskPixels(img, cx, cy, radius), cx, cy).radii == []
  {
    if radius <= 0 {
      var ps := DiskPixels(img, cx, cy, radius);
      CentreOnly(img, cx, cy, radius);
      var maxR := MaxRing(ps, cx, cy);
      assert maxR == 0;
      CentreRingUniform(m, ps, cx, cy, img[cy][cx]);
      var bins := Rings(m, ps, cx, cy, maxR);
      assert |bins| == 1 && bins[0].None?;
      NothingKept(bins);
    }
  }

  lemma CentreRingUniform(m: Maths, ps: seq<Pixel>, cx: int, cy: int, v: real)
    requires Lawful(m)
    requires forall p :: p in ps && Ring(p, cx, cy) == 0 ==> p.value == v
    ensures Uniform(RingValues(ps, cx, cy, 0))
    ensures RingValue(m, RingValues(ps, cx, cy, 0)).None?
  {
    var vs := RingValues(ps, cx, cy, 0);
    assert Uniform(vs) by {
      forall i | 0 <= i < |vs| ensures vs[i] == vs[0] {
        assert vs[i] in vs && vs[0] in vs;
      }
    }
    RingDroppedIff(m, vs);
  }

  /** Ring 0 never keeps a value: it holds only the centre pixel, whose
      single value the strict three-sigma test rejects. So the profile has no
      sample at mu = 1. */
  lemma CentreRingNeverKept(m: Maths, img: Image, cx: int, cy: int, radius: int)
    requires Lawful(m) && DiskPixels(img, cx, cy, radius) != []
    ensures 0 !in KeptRings(m, DiskPixels(img, cx, cy, radius), cx, cy).radii
  {
    var ps := DiskPixels(img, cx, cy, radius);
    var v := if 0 <= cy < |img| && 0 <= cx < |img[cy]| then img[cy][cx] else 0.0;
    forall p | p in ps && Ring(p, cx, cy) == 0 ensures p.value == v {
      assert SqDist(p.x, p.y, cx, cy) == 0;
      assert p in PixelsFrom(img, 0);
    }
    CentreRingUniform(m, ps, cx, cy, v);
    KeptRingIff(m, ps, cx, cy, 0);
  }

  /** Without a positive radius the only pixel the disk can hold is the centre. */
  lemma CentreOnly(img: Image, cx: int, cy: int, radius: int)
    requires radius <= 0
    ensures forall p :: p in DiskPixels(img, cx, cy, radius) ==>
      p.x == cx && p.y == cy && p.value == img[cy][cx] && Ring(p, cx, cy) == 0
  {
    forall p | p in DiskPixels(img, cx, cy, radius)
      ensures p.x == cx && p.y == cy && p.value == img[cy][cx] && Ring(p, cx, cy) == 0
    {
      assert p in PixelsFrom(img, 0);
      assert SqDist(p.x, p.y, cx, cy) == 0;
    }
  }

  /** Kept rings lie within the radius. */
  lemma KeptWithinRadius(m: Maths, img: Image, cx: int, cy: int, radius: int)
    requires DiskPixels(img, cx, cy, radius) != []
    ensures forall r :: r in KeptRings(m, DiskPixels(img, cx, cy, radius), cx, cy).radii ==> r <= radius
  {
    var ps := DiskPixels(img, cx, cy, radius);
    var maxR := MaxRing(ps, cx, cy);
    var p :| p in ps && Ring(p, cx, cy) == maxR;
    assert InDisk(SqDist(p.x, p.y, cx, cy), radius);
  }

  /** The specification of `extract_radial_profile`: it fails only on an
      empty disk, and otherwise returns as many mu values as intensities. */
  function RadialProfile(m: Maths, img: Image, cx: int, cy: int, radius: int): (res: Result<Profile, ProfileError>)
    requires Lawful(m)
    ensures res.Err? <==> DiskPixels(img, cx, cy, radius) == []
    ensures res.Ok? ==> |res.value.mu| == |res.value.intensity|
  {
    var ps := DiskPixels(img, cx, cy, radius);
    if ps == [] then Err(EmptyDisk)
    else
      var kept := KeptRings(m, ps, cx, cy);
      NoRingWithoutRadius(m, img, cx, cy, radius);
      var sorted := SortByMu(Unsorted(m, kept, radius));
      Ok(Profile(MuOf(sorted), IntensityOf(sorted)))
  }

  /** `extract_radial_profile`. */
  method ExtractRadialProfile(m: Maths, img: Image, cx: int, cy: int, radius: int)
    returns (res: Result<Profile, ProfileError>)
    requires Lawful(m)
    ensures res == RadialProfile(m, img, cx, cy, radius)
  {
    var ps := DiskPixels(img, cx, cy, radius);
    if ps == [] {
      return Err(EmptyDisk);
    }
    var maxR := MaxRing(ps, cx, cy);
    var bins := BinIntensities(m, ps, cx, cy, maxR);
    var kept := DropInvalid(bins);
    NoRingWithoutRadius(m, img, cx, cy, radius);
    var mu := MuArray(m, kept.radii, radius);
    var vals := Normalised(kept.intensities, Anchor(kept.intensities));
    var sorted := SortByMu(Zip(mu, vals));
    res := Ok(Profile(MuOf(sorted), IntensityOf(sorted)));
  }

  // ---------------------------------------------------------------------
  // Properties of the extraction

  /** The extraction fails exactly when no pixel of the image lies in the disk. */
  lemma ProfileFailsIffDiskEmpty(m: Maths, img: Image, cx: int, cy: int, radius: int)
    requires Lawful(m)
    ensures RadialProfile(m, img, cx, cy, radius).Err? <==>
      forall y, x :: 0 <= y < |img| && 0 <= x < |img[y]| ==> !InDisk(SqDist(x, y, cx, cy), radius)
  {
    var ps := DiskPixels(img, cx, cy, radius);
    if ps != [] {
      assert ps[0] in ps;
    }
    forall y, x | 0 <= y < |img| && 0 <= x < |img[y]| && InDisk(SqDist(x, y, cx, cy), radius)
      ensures ps != []
    {
      assert Pixel(x, y, img[y][x]) in PixelsFrom(img, 0);
      assert Pixel(x, y, img[y][x]) in ps;
    }
  }

  /** A ring keeps a value exactly when it is occupied and its pixels are not
      all equal. */
  lemma KeptRingIff(m: Maths, ps: seq<Pixel>, cx: int, cy: int, r: nat)
    requires Lawful(m) && ps != []
    ensures r in KeptRings(m, ps, cx, cy).radii <==>
      r <= MaxRing(ps, cx, cy) && RingValues(ps, cx, cy, r) != [] && !Uniform(RingValues(ps, cx, cy, r))
  {
    var bins := Rings(m, ps, cx, cy, MaxRing(ps, cx, cy));
    var kept := DropInvalid(bins);
    if r in kept.radii {
      var i :| 0 <= i < |kept.radii| && kept.radii[i] == r;
      assert bins[r].Some?;
    }
    RingDroppedIff(m, RingValues(ps, cx, cy, r));
  }

  /** Mu strictly decreases along the kept rings, so the samples reach the
      sort without ties. */
  lemma UnsortedDecreasing(m: Maths, img: Image, cx: int, cy: int, radius: int)
    requires Lawful(m) && 0 < radius && DiskPixels(img, cx, cy, radius) != []
    ensures StrictlyDecreasingMu(Unsorted(m, KeptRings(m, DiskPixels(img, cx, cy, radius), cx, cy), radius))
  {
    var kept := KeptRings(m, DiskPixels(img, cx, cy, radius), cx, cy);
    var s := Unsorted(m, kept, radius);
    KeptWithinRadius(m, img, cx, cy, radius);
    forall i, j | 0 <= i < j < |s| ensures s[j].mu < s[i].mu {
      assert kept.radii[j] in kept.radii;
      MuDecreasing(m, kept.radii[i], kept.radii[j], radius);
    }
  }

  /** The sort by mu simply reverses the kept rings: the profile runs from
      the outermost kept ring (smallest mu) to the innermost. */
  lemma ProfileReversesRings(m: Maths, img: Image, cx: int, cy: int, radius: int)
    requires Lawful(m) && 0 < radius && DiskPixels(img, cx, cy, radius) != []
    ensures var s := Unsorted(m, KeptRings(m, DiskPixels(img, cx, cy, radius), cx, cy), radius);
      RadialProfile(m, img, cx, cy, radius) == Ok(Profile(MuOf(Reversed(s)), IntensityOf(Reversed(s))))
  {
    UnsortedDecreasing(m, img, cx, cy, radius);
    SortReversesDecreasing(Unsorted(m, KeptRings(m, DiskPixels(img, cx, cy, radius), cx, cy), radius));
  }

  /** Every sample of the sorted profile has a mu in [0, 1]. */
  lemma SortedWithinUnit(m: Maths, kept: Kept, radius: int)
    requires Lawful(m) && 0 < radius && |kept.radii| == |kept.intensities|
    ensures forall i :: 0 <= i < |kept.radii| ==>
      0.0 <= MuOf(SortByMu(Unsorted(m, kept, radius)))[i] <= 1.0
  {
    var u := Unsorted(m, kept, radius);
    var sorted := SortByMu(u);
    forall i | 0 <= i < |sorted| ensures 0.0 <= sorted[i].mu <= 1.0 {
      assert sorted[i] in multiset(u);
      var k :| 0 <= k < |u| && u[k] == sorted[i];
      MuWithinUnit(m, kept.radii[k], radius);
    }
  }

  /** The sorted samples of any kept rings give arrays of equal length whose
      mu values lie in [0, 1] and never decrease. */
  lemma SortedSamplesWellFormed(m: Maths, kept: Kept, radius: int)
    requires Lawful(m) && |kept.radii| == |kept.intensities|
    requires 0 < radius || kept.radii == []
    ensures var sorted := SortByMu(Unsorted(m, kept, radius));
      && |MuOf(sorted)| == |IntensityOf(sorted)|
      && (forall i :: 0 <= i < |MuOf(sorted)| ==> 0.0 <= MuOf(sorted)[i] <= 1.0)
      && (forall i, j :: 0 <= i < j < |MuOf(sorted)| ==> MuOf(sorted)[i] <= MuOf(sorted)[j])
  {
    if 0 < radius {
      SortedWithinUnit(m, kept, radius);
    }
  }

  /** A profile has as many mu values as intensities, every mu lies in [0, 1],
      and mu never decreases along the profile. */
  lemma ProfileWellFormed(m: Maths, img: Image, cx: int, cy: int, radius: int)
    requires Lawful(m)
    ensures var res := RadialProfile(m, img, cx, cy, radius);
      res.Ok? ==>
        && |res.value.mu| == |res.value.intensity|
        && (forall i :: 0 <= i < |res.value.mu| ==> 0.0 <= res.value.mu[i] <= 1.0)
        && (forall i, j :: 0 <= i < j < |res.value.mu| ==> res.value.mu[i] <= res.value.mu[j])
  {
    var ps := DiskPixels(img, cx, cy, radius);
    if ps != [] {
      var kept := KeptRings(m, ps, cx, cy);
      NoRingWithoutRadius(m, img, cx, cy, radius);
      SortedSamplesWellFormed(m, kept, radius);
    }
  }
}

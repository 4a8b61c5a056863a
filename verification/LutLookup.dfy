/** lerp_lookup_unbounded of data/kernels/color_conversion.h over real numbers: tables of up to 65536 entries, each
    wrapped into 256 rows of a 256 wide image, are read with interpolation. */
module LutLookup {

  const WIDTH: int := 256

  // texel(column, row) of an image of the given height.
  datatype Image = Image(height: int, texel: (int, int) -> real)

  function ClampInt(x: int, low: int, high: int): int { if x < low then low else if x > high then high else x }
  function ClampReal(x: real, low: real, high: real): real { if x < low then low else if x > high then high else x }

  // Integer coordinates outside the image read its edge.
  function Nearest(image: Image, column: int, row: int): real
  {
    image.texel(ClampInt(column, 0, WIDTH - 1), ClampInt(row, 0, image.height - 1))
  }

  function Fma(a: real, b: real, c: real): real { a * b + c }

  // The linear filter of OpenCL (its "Addressing and Filter Modes") on unnormalised coordinates, edges clamped.
  function Linear(image: Image, u: real, v: real): real
  {
    var i, j := (u - 0.5).Floor, (v - 0.5).Floor;
    var a, b := u - 0.5 - i as real, v - 0.5 - j as real;
    (1.0 - a) * (1.0 - b) * Nearest(image, i, j)
    + a * (1.0 - b) * Nearest(image, i + 1, j)
    + (1.0 - a) * b * Nearest(image, i, j + 1)
    + a * b * Nearest(image, i + 1, j + 1)
  }

  // Entry k of table n, as the image stores it.
  function Entry(image: Image, n: nat, k: nat): real
  {
    image.texel(k % 256, k / 256 + n * 256)
  }

  predicate Fits(image: Image, n: nat, size: int)
  {
    2 <= size <= 65536 && (n + 1) * 256 <= image.height
  }

  function Position(x: real, size: int): real
    requires size >= 2
  {
    ClampReal(x * (size - 1) as real, 0.0, (size - 1) as real)
  }

  function LerpLookup(image: Image, x: real, n: nat, size: int): real
    requires size >= 2
  {
    var ft := Position(x, size);
    var t := (if ft < (size - 2) as real then ft else (size - 2) as real).Floor;
    var f := ft - t as real;
    var tx := t % 256;
    var ty := t / 256 + n * 256;
    if tx < 255 then
      Linear(image, tx as real + f + 0.5, ty as real + 0.5)
    else
      var l1 := Nearest(image, tx, ty);
      var l2 := Nearest(image, 0, ty + 1);
      Fma(f, l2 - l1, l1)
  }

  // The coefficients say how the curve goes on from 1.0; a negative first one marks a linear curve.
  function LerpLookupUnbounded(image: Image, powr: (real, real) -> real, x: real, c: (real, real, real), n: nat, size: int): real
    requires size >= 2
  {
    if c.0 >= 0.0 then
      if x < 1.0 then LerpLookup(image, x, n, size) else c.1 * powr(x * c.0, c.2)
    else x
  }

  // The straight line between entries k and k + 1.
  function Segment(image: Image, n: nat, k: nat, y: real): real
  {
    Fma(y - k as real, Entry(image, n, k + 1) - Entry(image, n, k), Entry(image, n, k))
  }

  lemma Product(f: real, l1: real, l2: real)
    ensures (1.0 - f) * l1 + f * l2 == Fma(f, l2 - l1, l1)
  {
  }

  // At the middle of a row the filter mixes two neighbours of that row only.
  lemma LinearOnRow(image: Image, column: int, row: int, f: real)
    requires 0.0 <= f < 1.0
    ensures Linear(image, column as real + f + 0.5, row as real + 0.5)
         == Fma(f, Nearest(image, column + 1, row) - Nearest(image, column, row), Nearest(image, column, row))
  {
    var u, v := column as real + f + 0.5, row as real + 0.5;
    assert u - 0.5 == column as real + f && (u - 0.5).Floor == column;
    assert v - 0.5 == row as real && (v - 0.5).Floor == row;
    assert u - 0.5 - column as real == f && v - 0.5 - row as real == 0.0;
    Product(f, Nearest(image, column, row), Nearest(image, column + 1, row));
  }

  lemma NearestIsEntry(image: Image, n: nat, size: int, k: nat)
    requires Fits(image, n, size) && k < size
    ensures Nearest(image, k % 256, k / 256 + n * 256) == Entry(image, n, k)
  {
  }

  // Both ways of reading two entries give the segment, the seam between two rows included.
  lemma ReadsSegment(image: Image, n: nat, size: int, t: nat, f: real)
    requires Fits(image, n, size) && t <= size - 2 && 0.0 <= f < 1.0
    ensures var tx, ty := t % 256, t / 256 + n * 256;
            (if tx < 255 then Linear(image, tx as real + f + 0.5, ty as real + 0.5)
             else Fma(f, Nearest(image, 0, ty + 1) - Nearest(image, tx, ty), Nearest(image, tx, ty)))
            == Fma(f, Entry(image, n, t + 1) - Entry(image, n, t), Entry(image, n, t))
  {
    hide Linear, Nearest, Entry, Fma;
    var tx, ty := t % 256, t / 256 + n * 256;
    NearestIsEntry(image, n, size, t);
    NearestIsEntry(image, n, size, t + 1);
    if tx < 255 {
      assert (t + 1) % 256 == tx + 1 && (t + 1) / 256 == t / 256;
      LinearOnRow(image, tx, ty, f);
    } else {
      assert (t + 1) % 256 == 0 && (t + 1) / 256 == t / 256 + 1;
    }
  }

  lemma ScaledBelow(x: real, m: real)
    requires x < 1.0 && m >= 1.0
    ensures x * m < m
  {
  }

  lemma PositionInTable(x: real, size: int)
    requires size >= 2 && x < 1.0
    ensures 0.0 <= Position(x, size) < (size - 1) as real
  {
    ScaledBelow(x, (size - 1) as real);
  }

  lemma StartsAt(ft: real, size: int, k: nat)
    requires size >= 2 && 0.0 <= ft < (size - 1) as real && k <= size - 2 && k as real <= ft <= (k + 1) as real
    ensures var t := (if ft < (size - 2) as real then ft else (size - 2) as real).Floor;
            0 <= t <= size - 2 && 0.0 <= ft - t as real < 1.0 && (t == k || (t == k + 1 && ft == t as real))
  {
    var t := (if ft < (size - 2) as real then ft else (size - 2) as real).Floor;
    assert k <= t <= k + 1;
  }

  // The lookup is interpolation on the flat table: on every segment that holds its position, it is on that segment.
  lemma LookupIsInterpolation(image: Image, x: real, n: nat, size: int, k: nat)
    requires Fits(image, n, size) && x < 1.0
    requires k <= size - 2 && k as real <= Position(x, size) <= (k + 1) as real
    ensures LerpLookup(image, x, n, size) == Segment(image, n, k, Position(x, size))
  {
    hide Position, Linear, Nearest, Entry, Fma;
    PositionInTable(x, size);
    var ft := Position(x, size);
    var t := (if ft < (size - 2) as real then ft else (size - 2) as real).Floor;
    StartsAt(ft, size, k);
    ReadsSegment(image, n, size, t, ft - t as real);
    if t != k {
      EndOfSegment(image, n, k);
    }
  }

  lemma EndOfSegment(image: Image, n: nat, k: nat)
    ensures Segment(image, n, k, (k + 1) as real) == Entry(image, n, k + 1) == Segment(image, n, k + 1, (k + 1) as real)
  {
    hide Entry;
  }

  // Which segment that is.
  function SegmentOf(x: real, size: int): (k: nat)
    requires size >= 2 && x < 1.0
    ensures k <= size - 2 && k as real <= Position(x, size) < (k + 1) as real
  {
    PositionInTable(x, size);
    Position(x, size).Floor
  }

  // Only the table's own rows matter.
  lemma ReadsItsRowsOnly(a: Image, b: Image, x: real, n: nat, size: int)
    requires Fits(a, n, size) && Fits(b, n, size) && x < 1.0
    requires forall i, j :: 0 <= i < 256 && n * 256 <= j < n * 256 + 256 ==> a.texel(i, j) == b.texel(i, j)
    ensures LerpLookup(a, x, n, size) == LerpLookup(b, x, n, size)
  {
    hide LerpLookup;
    var k := SegmentOf(x, size);
    LookupIsInterpolation(a, x, n, size, k);
    LookupIsInterpolation(b, x, n, size, k);
    assert 0 <= (k + 1) / 256 < 256 && 0 <= k / 256 < 256;
  }

  ghost predicate Rising(image: Image, n: nat, size: int)
  {
    forall i: nat, j: nat :: i <= j < size ==> Entry(image, n, i) <= Entry(image, n, j)
  }

  lemma Slope(f: real, g: real, d: real)
    requires f <= g && d >= 0.0
    ensures f * d <= g * d
  {
  }

  // On its own part of the table a segment stays between its ends.
  lemma SegmentBetweenEnds(image: Image, n: nat, size: int, k: nat, y: real)
    requires Rising(image, n, size) && k + 1 < size && k as real <= y <= (k + 1) as real
    ensures Entry(image, n, k) <= Segment(image, n, k, y) <= Entry(image, n, k + 1)
  {
    hide Entry;
    Slope(0.0, y - k as real, Entry(image, n, k + 1) - Entry(image, n, k));
    Slope(y - k as real, 1.0, Entry(image, n, k + 1) - Entry(image, n, k));
  }

  lemma PositionRises(x: real, y: real, size: int)
    requires size >= 2 && x <= y
    ensures Position(x, size) <= Position(y, size)
  {
    var m := (size - 1) as real;
    Slope(x, y, m);
    assert x * m <= y * m;
  }

  // A rising table makes a rising curve below 1.0, within the table's ends.
  lemma LookupRises(image: Image, x: real, y: real, n: nat, size: int)
    requires Fits(image, n, size) && Rising(image, n, size) && x <= y < 1.0
    ensures LerpLookup(image, x, n, size) <= LerpLookup(image, y, n, size)
    ensures Entry(image, n, 0) <= LerpLookup(image, x, n, size) <= Entry(image, n, size - 1)
  {
    hide LerpLookup, Segment, Entry, Position;
    var j, k := SegmentOf(x, size), SegmentOf(y, size);
    LookupIsInterpolation(image, x, n, size, j);
    LookupIsInterpolation(image, y, n, size, k);
    PositionRises(x, y, size);
    SegmentBetweenEnds(image, n, size, j, Position(x, size));
    SegmentBetweenEnds(image, n, size, k, Position(y, size));
    if j == k {
      SegmentRises(image, n, size, k, Position(x, size), Position(y, size));
    } else {
      assert Entry(image, n, j + 1) <= Entry(image, n, k);
    }
    assert Entry(image, n, 0) <= Entry(image, n, j) && Entry(image, n, j + 1) <= Entry(image, n, size - 1);
  }

  lemma SegmentRises(image: Image, n: nat, size: int, k: nat, y: real, z: real)
    requires Rising(image, n, size) && k + 1 < size && y <= z
    ensures Segment(image, n, k, y) <= Segment(image, n, k, z)
  {
    hide Entry;
    Slope(y - k as real, z - k as real, Entry(image, n, k + 1) - Entry(image, n, k));
  }

  // At a grid point the table's own entry comes out.
  lemma LookupAtGridPoint(image: Image, n: nat, size: int, k: nat)
    requires Fits(image, n, size) && k <= size - 2
    ensures LerpLookup(image, k as real / (size - 1) as real, n, size) == Entry(image, n, k)
  {
    hide LerpLookup, Entry;
    GridPosition(k as real, (size - 1) as real);
    LookupIsInterpolation(image, k as real / (size - 1) as real, n, size, k);
  }

  lemma GridPosition(k: real, m: real)
    requires 0.0 <= k < m
    ensures k / m < 1.0 && k / m * m == k
  {
  }

  lemma PositionIs(x: real, size: int, y: real)
    requires size >= 2 && x * (size - 1) as real == y
    ensures Position(x, size) == if y < 0.0 then 0.0 else if y > (size - 1) as real then (size - 1) as real else y
  {
  }

  // Between two grid points: where x falls a share t of the way from entry k to the next, the two are mixed by it.
  lemma LookupMixes(image: Image, x: real, n: nat, size: int, k: nat, t: real)
    requires Fits(image, n, size) && x < 1.0 && k <= size - 2 && 0.0 <= t <= 1.0
    requires x * (size - 1) as real == k as real + t
    ensures LerpLookup(image, x, n, size) == (1.0 - t) * Entry(image, n, k) + t * Entry(image, n, k + 1)
  {
    hide LerpLookup, Entry, Position;
    var y := k as real + t;
    assert y <= (size - 1) as real;
    PositionIs(x, size, y);
    LookupIsInterpolation(image, x, n, size, k);
    MixIsSegment(image, n, k, t);
    assert y - k as real == t;
  }

  lemma MixIsSegment(image: Image, n: nat, k: nat, t: real)
    ensures Segment(image, n, k, k as real + t) == (1.0 - t) * Entry(image, n, k) + t * Entry(image, n, k + 1)
  {
    hide Entry;
    Product(t, Entry(image, n, k), Entry(image, n, k + 1));
    assert k as real + t - k as real == t;
  }

  // Every input from 0 on lies between two grid points.
  lemma SharesOf(x: real, size: int) returns (k: nat, t: real)
    requires size >= 2 && 0.0 <= x < 1.0
    ensures k <= size - 2 && 0.0 <= t < 1.0 && x * (size - 1) as real == k as real + t
  {
    var m := (size - 1) as real;
    ScaledBelow(x, m);
    Slope(0.0, x, m);
    k := (x * m).Floor;
    t := x * m - k as real;
  }

  lemma LookupBelowZero(image: Image, x: real, n: nat, size: int)
    requires Fits(image, n, size) && x <= 0.0
    ensures LerpLookup(image, x, n, size) == Entry(image, n, 0)
  {
    hide LerpLookup, Entry, Position;
    var m := (size - 1) as real;
    Slope(x, 0.0, m);
    PositionIs(x, size, x * m);
    LookupIsInterpolation(image, x, n, size, 0);
    MixIsSegment(image, n, 0, 0.0);
    Product(0.0, Entry(image, n, 0), Entry(image, n, 1));
  }

  // The whole function below 1: which inputs the table decides, and how.
  lemma UnboundedParts(image: Image, powr: (real, real) -> real, x: real, c: (real, real, real), n: nat, size: int, k: nat, t: real)
    requires Fits(image, n, size)
    ensures c.0 < 0.0 ==> LerpLookupUnbounded(image, powr, x, c, n, size) == x
    ensures c.0 >= 0.0 && x <= 0.0 ==> LerpLookupUnbounded(image, powr, x, c, n, size) == Entry(image, n, 0)
    ensures c.0 >= 0.0 && x < 1.0 && k <= size - 2 && 0.0 <= t <= 1.0 && x * (size - 1) as real == k as real + t ==>
              LerpLookupUnbounded(image, powr, x, c, n, size) == (1.0 - t) * Entry(image, n, k) + t * Entry(image, n, k + 1)
  {
    hide LerpLookup, Entry;
    if x <= 0.0 {
      LookupBelowZero(image, x, n, size);
    }
    if x < 1.0 && k <= size - 2 && 0.0 <= t <= 1.0 && x * (size - 1) as real == k as real + t {
      LookupMixes(image, x, n, size, k, t);
    }
  }
}

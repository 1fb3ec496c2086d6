/**
 How an upload is cut into parts. The library divides in float64; `round` stands for its
 rounding, of which only the order, exactness on integers and the relative error are used, in the
 range from 2^-53 to 2^53.
*/
module PartSize {
  import opened Wrappers

  const ABS_MIN_PART_SIZE: int := 5 * 1024 * 1024
  const MIN_PART_SIZE: int := 128 * 1024 * 1024
  const MAX_PARTS_COUNT: int := 10000
  const MAX_PART_SIZE: int := 5 * 1024 * 1024 * 1024
  const MAX_MULTIPART_PUT_OBJECT_SIZE: int := 5 * 1024 * 1024 * 1024 * 1024
  const TWO_TO_53: int := 0x20_0000_0000_0000
  const TWO_TO_63: int := 0x8000_0000_0000_0000
  const TWO_TO_64: int := 0x1_0000_0000_0000_0000

  // ----- float64 -----

  /** Rounding to a format that, between 0 and m, keeps the order and holds the integers
      exactly, and between 1/m and m is off by at most one part in m. */
  ghost predicate RoundsTo(round: real -> real, m: int) {
    && m >= 1
    && (forall x, y :: 0.0 <= x <= y <= m as real ==> round(x) <= round(y))
    && (forall x: real :: x == x.Floor as real && 0.0 <= x <= m as real ==> round(x) == x)
    && (forall x :: 1.0 / m as real <= x <= m as real ==> SmallError(x, round(x), m as real))
  }

  predicate SmallError(x: real, y: real, m: real) {
    y * m >= x * (m - 1.0)
  }

  /** The rounding of float64. */
  ghost predicate IsRounding(round: real -> real) {
    RoundsTo(round, TWO_TO_53)
  }

  /** math.Ceil. */
  function Ceil(x: real): int {
    if x == x.Floor as real then x.Floor else x.Floor + 1
  }

  function CeilDiv(a: int, b: int): int
    requires b > 0
  {
    (a + b - 1) / b
  }

  lemma CeilBetween(x: real, q: int)
    requires q as real < x <= (q + 1) as real
    ensures Ceil(x) == q + 1
  {
  }

  // ----- division without the solver's help -----

  lemma MulAtLeast(k: int, b: int)
    requires b > 0
    ensures k >= 1 ==> k * b >= b
    ensures k <= -1 ==> k * b <= -b
    ensures k >= 0 ==> k * b >= k
  {
    if k >= 1 {
      assert (k - 1) * b >= 0;
    }
    if k >= 0 {
      assert k * (b - 1) >= 0;
    }
    if k <= -1 {
      assert (-k - 1) * b >= 0;
    }
  }

  lemma Nonnegative(a: int, b: int)
    requires a >= 0 && b >= 0
    ensures a * b >= 0
  {
  }

  lemma MulMonotone(x: real, y: real, c: real)
    requires x <= y && 0.0 <= c
    ensures x * c <= y * c
  {
  }

  lemma MulStrict(x: real, y: real, c: real)
    requires x < y && 0.0 < c
    ensures x * c < y * c
  {
  }

  lemma DivModUnique(b: int, q: int, r: int, q': int, r': int)
    requires 0 <= r < b && 0 <= r' < b && q * b + r == q' * b + r'
    ensures q == q'
  {
    assert (q - q') * b == q * b - q' * b;
    MulAtLeast(q - q', b);
  }

  lemma DivMod(a: int, b: int)
    requires b > 0
    ensures a == a / b * b + a % b && 0 <= a % b < b
  {
  }

  lemma DivIs(a: int, b: int, q: int, r: int)
    requires b > 0 && a == q * b + r && 0 <= r < b
    ensures a / b == q && a % b == r
  {
    DivMod(a, b);
    DivModUnique(b, q, r, a / b, a % b);
  }

  lemma CeilDivIs(a: int, b: int, q: int, r: int)
    requires b > 0 && a == q * b + r && 0 <= r < b
    ensures CeilDiv(a, b) == if r == 0 then q else q + 1
  {
    if r == 0 {
      DivIs(a + b - 1, b, q, b - 1);
    } else {
      assert (q + 1) * b == q * b + b;
      DivIs(a + b - 1, b, q + 1, r - 1);
    }
  }

  // ----- the rounded quotient -----

  /** The rounded quotient, rounded up, is the exact integer ceiling. */
  lemma CeilIsExact(round: real -> real, m: int, a: int, b: int)
    requires RoundsTo(round, m) && 0 <= a < m && 0 < b <= m
    ensures Ceil(round(a as real / b as real)) == CeilDiv(a, b)
  {
    var q, r := a / b, a % b;
    DivMod(a, b);
    CeilDivIs(a, b, q, r);
    CeilOfParts(round, m, a, b, q, r);
  }

  lemma CeilOfParts(round: real -> real, m: int, a: int, b: int, q: int, r: int)
    requires RoundsTo(round, m) && 0 <= a < m && 0 < b <= m
    requires a == q * b + r && 0 <= r < b
    ensures Ceil(round(a as real / b as real)) == if r == 0 then q else q + 1
  {
    MulAtLeast(q, b);
    ToReals(a, b, q, r);
    CeilOfRounded(round, m, a as real, b as real, q, r as real);
  }

  lemma CeilOfRounded(round: real -> real, m: int, a: real, b: real, q: int, r: real)
    requires RoundsTo(round, m) && 0.0 <= a < m as real && 1.0 <= b <= m as real
    requires a == q as real * b + r && (r == 0.0 || 1.0 <= r <= b - 1.0) && 0 <= q < m
    ensures Ceil(round(a / b)) == if r == 0.0 then q else q + 1
  {
    QuotientCases(round, m, a, b, q as real, r);
    CeilByCases(round, m, a / b, q, r == 0.0);
  }

  lemma QuotientCases(round: real -> real, m: int, a: real, b: real, q: real, r: real)
    requires RoundsTo(round, m) && 0.0 <= a < m as real && 1.0 <= b <= m as real
    requires a == q * b + r && (r == 0.0 || 1.0 <= r <= b - 1.0) && 0.0 <= q
    ensures if r == 0.0 then a / b == q else q < a / b < q + 1.0 && round(a / b) > q
  {
    if r == 0.0 {
      QuotientIs(a, b, q);
    } else {
      QuotientRounds(round, m, a, b, q, r);
    }
  }

  lemma CeilByCases(round: real -> real, m: int, x: real, q: int, exact: bool)
    requires RoundsTo(round, m) && 0 <= q < m
    requires if exact then x == q as real else q as real < x < q as real + 1.0 && round(x) > q as real
    ensures Ceil(round(x)) == if exact then q else q + 1
  {
    if exact {
      CeilOfInteger(round, m, x, q);
    } else {
      CeilOfBetween(round, m, x, q);
    }
  }

  lemma CeilOfInteger(round: real -> real, m: int, x: real, q: int)
    requires RoundsTo(round, m) && 0 <= q < m && x == q as real
    ensures Ceil(round(x)) == q
  {
    RoundsIntegers(round, m, q);
    assert (q as real).Floor == q;
  }

  lemma QuotientRounds(round: real -> real, m: int, a: real, b: real, q: real, r: real)
    requires RoundsTo(round, m) && 0.0 <= a < m as real && 1.0 <= b <= m as real
    requires a == q * b + r && 1.0 <= r <= b - 1.0 && 0.0 <= q
    ensures q < a / b < q + 1.0 && round(a / b) > q
  {
    QuotientIsBetween(a, b, q, r);
    RoundOfQuotient(round, m, a, b, q, r);
  }

  lemma CeilOfBetween(round: real -> real, m: int, x: real, q: int)
    requires RoundsTo(round, m) && 0 <= q < m && q as real < x < (q + 1) as real && round(x) > q as real
    ensures Ceil(round(x)) == q + 1
  {
    RoundStaysBelow(round, m, x, q + 1);
    CeilBetween(round(x), q);
  }

  lemma RoundOfQuotient(round: real -> real, m: int, a: real, b: real, q: real, r: real)
    requires RoundsTo(round, m) && 0.0 <= a < m as real && 1.0 <= b <= m as real
    requires a == q * b + r && 1.0 <= r && 0.0 <= q
    ensures round(a / b) > q
  {
    QuotientInRange(a, b, q, r, m as real);
    RoundStaysAbove(round(a / b), a / b, a, b, q, m as real);
  }

  lemma ToReals(a: int, b: int, q: int, r: int)
    requires a == q * b + r
    ensures a as real == q as real * b as real + r as real
  {
    assert (q * b) as real == q as real * b as real;
  }

  lemma RoundsIntegers(round: real -> real, m: int, n: int)
    requires RoundsTo(round, m) && 0 <= n <= m
    ensures round(n as real) == n as real
  {
    assert (n as real).Floor == n;
  }

  lemma RoundStaysBelow(round: real -> real, m: int, x: real, n: int)
    requires RoundsTo(round, m) && 0 <= n <= m && 0.0 <= x <= n as real
    ensures round(x) <= n as real
  {
    RoundsIntegers(round, m, n);
    assert round(x) <= round(n as real);
  }

  lemma QuotientIs(a: real, b: real, q: real)
    requires b > 0.0 && a == q * b + 0.0
    ensures a / b == q
  {
  }

  lemma QuotientIsBetween(a: real, b: real, q: real, r: real)
    requires b >= 1.0 && a == q * b + r && 1.0 <= r <= b - 1.0
    ensures q < a / b < q + 1.0
  {
    var x := a / b;
    assert x * b == a;
    Rearrange(x, 1.0, b, q);
    if x <= q {
      MulMonotone(x, q, b);
    }
    if x >= q + 1.0 {
      MulMonotone(q + 1.0, x, b);
    }
  }

  /** A quotient of integers up to m is 0 or in the range where the rounding error is small. */
  lemma QuotientInRange(a: real, b: real, q: real, r: real, m: real)
    requires 0.0 <= a < m && 1.0 <= b <= m && a == q * b + r && 0.0 <= q && 1.0 <= r
    ensures 1.0 / m <= a / b <= m
  {
    MulMonotone(0.0, q, b);
    assert a / b * b == a;
    FactorInRange(a / b, a, b, m);
    AtLeastReciprocal(a / b, m);
  }

  lemma FactorInRange(x: real, a: real, b: real, m: real)
    requires x * b == a && 1.0 <= a < m && 1.0 <= b <= m
    ensures x <= m && x * m >= 1.0
  {
    if x > m {
      MulStrict(m, x, b);
      MulMonotone(1.0, b, m);
    }
    if x < 0.0 {
      MulStrict(x, 0.0, b);
    }
    MulMonotone(b, m, x);
  }

  lemma AtLeastReciprocal(x: real, m: real)
    requires m > 0.0 && x * m >= 1.0
    ensures 1.0 / m <= x
  {
    var y := 1.0 / m;
    assert y * m == 1.0;
    if x < y {
      MulStrict(x, y, m);
    }
  }

  /** The gap between a quotient and the integer below it is wider than the rounding error. */
  lemma RoundStaysAbove(y: real, x: real, a: real, b: real, q: real, m: real)
    requires 0.0 <= a < m && b >= 1.0 && x == a / b
    requires a >= q * b + 1.0
    requires SmallError(x, y, m)
    ensures y > q
  {
    assert x * b == a;
    Rearrange(x, m, b, q);
    Distribute(a, m);
    if y <= q {
      MulMonotone(y, q, m);
      MulMonotone(x * (m - 1.0), q * m, b);
      MulMonotone(q * b, a - 1.0, m);
    }
  }

  lemma Distribute(a: real, m: real)
    ensures a * (m - 1.0) == a * m - a && (a - 1.0) * m == a * m - m
  {
  }

  lemma Rearrange(x: real, m: real, b: real, q: real)
    ensures (x * (m - 1.0)) * b == (x * b) * (m - 1.0)
    ensures (q * m) * b == (q * b) * m
    ensures (q + 1.0) * b == q * b + b
  {
  }

  // ----- optimalPartInfo -----

  datatype PartInfo = PartInfo(totalPartsCount: int, partSize: int, lastPartSize: int)

  datatype PartError = EntityTooLarge(size: int, max: int) | TooManyParts | PartTooSmall | PartTooBig

  /** The conversion of a uint64 to int64. */
  function ToInt64(u: int): int
    requires 0 <= u < TWO_TO_64
  {
    if u < TWO_TO_63 then u else u - TWO_TO_64
  }

  /** An int64 result that wraps around. */
  function Wrap64(n: int): int {
    ToInt64(n % TWO_TO_64)
  }

  /** A size the float64 division can be done for: it does not divide by zero. */
  predicate Divisible(objectSize: int, configuredPartSize: int) {
    configuredPartSize > 0 || objectSize == -1 || objectSize >= MAX_PARTS_COUNT
  }

  /** An unknown size counts as the largest one. */
  function SizeOf(objectSize: int): int {
    if objectSize == -1 then MAX_MULTIPART_PUT_OBJECT_SIZE else objectSize
  }

  /** The checks on a configured part size. */
  function ConfiguredError(size: int, configuredPartSize: int): Option<PartError>
    requires 0 <= configuredPartSize < TWO_TO_64
  {
    if ToInt64(configuredPartSize) > size then Some(EntityTooLarge(ToInt64(configuredPartSize), size))
    else if size > Wrap64(ToInt64(configuredPartSize) * MAX_PARTS_COUNT) then Some(TooManyParts)
    else if configuredPartSize < ABS_MIN_PART_SIZE then Some(PartTooSmall)
    else if configuredPartSize > MAX_PART_SIZE then Some(PartTooBig)
    else None
  }

  /** The smallest multiple of unit that is at least n, in float64. */
  function MultipleFlt(round: real -> real, n: int, unit: int): real
    requires unit > 0
  {
    ProductFlt(round, Ceil(round(round(n as real) / unit as real)), unit)
  }

  function ProductFlt(round: real -> real, a: int, b: int): real {
    round(a as real * b as real)
  }

  function OptimalPartInfo(round: real -> real, objectSize: int, configuredPartSize: int): Result<PartInfo, PartError>
    requires 0 <= configuredPartSize < TWO_TO_64 && Divisible(objectSize, configuredPartSize)
  {
    var size := SizeOf(objectSize);
    if size > MAX_MULTIPART_PUT_OBJECT_SIZE then Err(EntityTooLarge(size, MAX_MULTIPART_PUT_OBJECT_SIZE))
    else if configuredPartSize > 0 then
      match ConfiguredError(size, configuredPartSize)
      case Some(e) => Err(e)
      case None => Ok(Parts(round, size, round(configuredPartSize as real)))
    else Ok(Parts(round, size, MultipleFlt(round, size / MAX_PARTS_COUNT, MIN_PART_SIZE)))
  }

  /** The counts for a part size held in a float64. */
  function Parts(round: real -> real, size: int, partSizeFlt: real): PartInfo {
    var totalPartsCount := if partSizeFlt == 0.0 then 0 else Ceil(round(round(size as real) / partSizeFlt));
    var partSize := partSizeFlt.Floor;
    PartInfo(totalPartsCount, partSize, size - (totalPartsCount - 1) * partSize)
  }

  lemma CeilDivCovers(a: int, b: int)
    requires a > 0 && b > 0
    ensures var n := CeilDiv(a, b); n >= 1 && 0 < a - (n - 1) * b <= b
  {
    var q, r := a / b, a % b;
    DivMod(a, b);
    CeilDivIs(a, b, q, r);
    MulAtLeast(q, b);
    assert (q - 1) * b == q * b - b;
  }

  /** The counts in exact integers. */
  function ExactParts(size: int, partSize: int): PartInfo
    requires partSize > 0
  {
    var n := CeilDiv(size, partSize);
    PartInfo(n, partSize, size - (n - 1) * partSize)
  }

  lemma PartsAreExact(round: real -> real, size: int, partSize: int)
    requires IsRounding(round) && 0 < size < TWO_TO_53 && 0 < partSize <= TWO_TO_53
    ensures Parts(round, size, partSize as real) == ExactParts(size, partSize)
  {
    RoundsIntegers(round, TWO_TO_53, size);
    CeilIsExact(round, TWO_TO_53, size, partSize);
    assert (partSize as real).Floor == partSize;
  }

  /** The default part size: the smallest multiple of 128 MiB that is at least a
      ten-thousandth of the size, rounded down. */
  function DefaultPartSize(size: int): int {
    CeilDiv(size / MAX_PARTS_COUNT, MIN_PART_SIZE) * MIN_PART_SIZE
  }

  lemma DefaultPartSizeBounds(size: int)
    requires MAX_PARTS_COUNT <= size <= MAX_MULTIPART_PUT_OBJECT_SIZE
    ensures var share := size / MAX_PARTS_COUNT;
            && MIN_PART_SIZE <= DefaultPartSize(size) <= 5 * MIN_PART_SIZE
            && share <= DefaultPartSize(size) < share + MIN_PART_SIZE
            && (DefaultPartSize(size) == share <==> share % MIN_PART_SIZE == 0)
  {
  }

  /** The part size that is chosen. */
  function ChosenPartSize(size: int, configuredPartSize: int): int {
    if configuredPartSize > 0 then configuredPartSize else DefaultPartSize(size)
  }

  /** A configured part size passes the checks exactly when it is between 5 MiB and 5 GiB,
      no larger than the object, and big enough for 10000 parts: no wrap-around of the
      unsigned configuration value or of the product lets another one pass. */
  lemma ConfiguredPassesIff(size: int, configuredPartSize: int)
    requires 0 < configuredPartSize < TWO_TO_64 && size <= MAX_MULTIPART_PUT_OBJECT_SIZE
    ensures ConfiguredError(size, configuredPartSize) == None <==>
      && ABS_MIN_PART_SIZE <= configuredPartSize <= MAX_PART_SIZE
      && configuredPartSize <= size <= configuredPartSize * MAX_PARTS_COUNT
  {
  }

  /** A reason to refuse a configured part size is true of it. */
  lemma ConfiguredRefusalIsTrue(size: int, configuredPartSize: int)
    requires 0 < configuredPartSize < TWO_TO_64 && 0 <= size <= MAX_MULTIPART_PUT_OBJECT_SIZE
    requires ConfiguredError(size, configuredPartSize) != None
    ensures var c := configuredPartSize;
            match ConfiguredError(size, c).value
            case EntityTooLarge(n, max) => n == c > max == size && c < TWO_TO_63
            case TooManyParts => size > c * MAX_PARTS_COUNT || c > MAX_PART_SIZE
            case PartTooSmall => c < ABS_MIN_PART_SIZE
            case PartTooBig => c > MAX_PART_SIZE
  {
  }

  /** Which part sizes and objects are refused. */
  lemma OptimalPartInfoOkIff(round: real -> real, objectSize: int, configuredPartSize: int)
    requires 0 <= configuredPartSize < TWO_TO_64 && Divisible(objectSize, configuredPartSize)
    ensures OptimalPartInfo(round, objectSize, configuredPartSize).Ok? <==>
      && SizeOf(objectSize) <= MAX_MULTIPART_PUT_OBJECT_SIZE
      && (configuredPartSize > 0 ==>
            && ABS_MIN_PART_SIZE <= configuredPartSize <= MAX_PART_SIZE
            && configuredPartSize <= SizeOf(objectSize) <= configuredPartSize * MAX_PARTS_COUNT)
  {
    if configuredPartSize > 0 && SizeOf(objectSize) <= MAX_MULTIPART_PUT_OBJECT_SIZE {
      ConfiguredPassesIff(SizeOf(objectSize), configuredPartSize);
    }
  }

  lemma MultipleIsExact(round: real -> real, n: int, unit: int)
    requires IsRounding(round) && 0 <= n < TWO_TO_53 && 0 < unit <= TWO_TO_53
    requires 0 <= CeilDiv(n, unit) * unit <= TWO_TO_53
    ensures MultipleFlt(round, n, unit) == (CeilDiv(n, unit) * unit) as real
  {
    var k := CeilDiv(n, unit);
    RoundsIntegers(round, TWO_TO_53, n);
    CeilIsExact(round, TWO_TO_53, n, unit);
    ProductIsExact(round, k, unit);
    MultipleIs(round, n, unit, k);
  }

  lemma MultipleIs(round: real -> real, n: int, unit: int, k: int)
    requires unit > 0 && round(n as real) == n as real
    requires Ceil(round(n as real / unit as real)) == k
    requires ProductFlt(round, k, unit) == (k * unit) as real
    ensures MultipleFlt(round, n, unit) == (k * unit) as real
  {
    assert round(n as real) / unit as real == n as real / unit as real;
    assert Ceil(round(round(n as real) / unit as real)) == k;
  }

  lemma ProductIsExact(round: real -> real, a: int, b: int)
    requires IsRounding(round) && 0 <= a * b <= TWO_TO_53
    ensures ProductFlt(round, a, b) == (a * b) as real
  {
    ToReals(a * b, b, a, 0);
    RoundsIntegers(round, TWO_TO_53, a * b);
  }

  /** What optimalPartInfo computes, in exact integers. */
  lemma OptimalPartInfoIsExact(round: real -> real, objectSize: int, configuredPartSize: int)
    requires IsRounding(round)
    requires 0 <= configuredPartSize < TWO_TO_64 && Divisible(objectSize, configuredPartSize)
    requires OptimalPartInfo(round, objectSize, configuredPartSize).Ok?
    ensures var size := SizeOf(objectSize);
            var p := ChosenPartSize(size, configuredPartSize);
            && ABS_MIN_PART_SIZE <= p <= MAX_PART_SIZE
            && MAX_PARTS_COUNT <= size <= MAX_MULTIPART_PUT_OBJECT_SIZE
            && (configuredPartSize > 0 ==> size <= p * MAX_PARTS_COUNT)
            && OptimalPartInfo(round, objectSize, configuredPartSize) == Ok(ExactParts(size, p))
  {
    var size := SizeOf(objectSize);
    if configuredPartSize > 0 {
      ConfiguredPassesIff(size, configuredPartSize);
      RoundsIntegers(round, TWO_TO_53, configuredPartSize);
      PartsAreExact(round, size, configuredPartSize);
    } else {
      DefaultPartSizeBounds(size);
      MultipleIsExact(round, size / MAX_PARTS_COUNT, MIN_PART_SIZE);
      PartsAreExact(round, size, DefaultPartSize(size));
    }
  }

  /** The parts tile the object, and no part is larger than an upload allows. */
  lemma PartsTile(round: real -> real, objectSize: int, configuredPartSize: int)
    requires IsRounding(round)
    requires 0 <= configuredPartSize < TWO_TO_64 && Divisible(objectSize, configuredPartSize)
    requires OptimalPartInfo(round, objectSize, configuredPartSize).Ok?
    ensures var i := OptimalPartInfo(round, objectSize, configuredPartSize).value;
            && i.totalPartsCount >= 1
            && (i.totalPartsCount - 1) * i.partSize + i.lastPartSize == SizeOf(objectSize)
            && 0 < i.lastPartSize <= i.partSize <= MAX_PART_SIZE
  {
    OptimalPartInfoIsExact(round, objectSize, configuredPartSize);
    CeilDivCovers(SizeOf(objectSize), ChosenPartSize(SizeOf(objectSize), configuredPartSize));
  }

  /** One part too many: the ten-thousandth of the size is a whole multiple of 128 MiB, and
      the size is not a multiple of ten thousand. */
  predicate OnePartTooMany(objectSize: int, configuredPartSize: int) {
    && configuredPartSize == 0
    && objectSize >= MAX_PARTS_COUNT
    && objectSize / MAX_PARTS_COUNT % MIN_PART_SIZE == 0
    && objectSize % MAX_PARTS_COUNT != 0
  }

  /** The intended bound of 10000 parts holds exactly for the sizes that are not just above
      a multiple of 10000 times 128 MiB; those get 10001 parts. */
  lemma PartsCountBound(round: real -> real, objectSize: int, configuredPartSize: int)
    requires IsRounding(round)
    requires 0 <= configuredPartSize < TWO_TO_64 && Divisible(objectSize, configuredPartSize)
    requires OptimalPartInfo(round, objectSize, configuredPartSize).Ok?
    ensures var n := OptimalPartInfo(round, objectSize, configuredPartSize).value.totalPartsCount;
            && n <= MAX_PARTS_COUNT + 1
            && (n <= MAX_PARTS_COUNT <==> !OnePartTooMany(objectSize, configuredPartSize))
  {
    OptimalPartInfoIsExact(round, objectSize, configuredPartSize);
    var size := SizeOf(objectSize);
    if configuredPartSize > 0 {
      CeilDivAtMost(size, configuredPartSize, MAX_PARTS_COUNT);
    } else {
      DefaultPartSizeBounds(size);
      DefaultCount(size, DefaultPartSize(size));
      UnknownSizeIsFine();
    }
  }

  lemma UnknownSizeIsFine()
    ensures MAX_MULTIPART_PUT_OBJECT_SIZE / MAX_PARTS_COUNT % MIN_PART_SIZE != 0
  {
  }

  lemma CeilDivAtMost(a: int, b: int, n: int)
    requires 0 < a && 0 < b && a <= b * n
    ensures CeilDiv(a, b) <= n
  {
    CeilDivCovers(a, b);
    var k := CeilDiv(a, b);
    assert (k - 1 - n) * b == (k - 1) * b - n * b;
    MulAtLeast(k - 1 - n, b);
    assert k - 1 == n ==> (k - 1) * b == n * b;
  }

  lemma DefaultCount(size: int, p: int)
    requires MAX_PARTS_COUNT <= size && MIN_PART_SIZE <= p && size / MAX_PARTS_COUNT <= p
    ensures var n := CeilDiv(size, p);
            && n <= MAX_PARTS_COUNT + 1
            && (n == MAX_PARTS_COUNT + 1 <==> p == size / MAX_PARTS_COUNT && size % MAX_PARTS_COUNT != 0)
  {
    var share, r := size / MAX_PARTS_COUNT, size % MAX_PARTS_COUNT;
    if p == share && r != 0 {
      CeilDivIs(size, p, MAX_PARTS_COUNT, r);
    } else {
      CeilDivAtMost(size, p, MAX_PARTS_COUNT);
    }
  }

  // ----- the choice between one request and many -----

  datatype Route = Refuse | StreamParts | Single | Multipart

  /** Where putObjectCommon sends an upload that is signed with Signature Version 4. */
  function Dispatch(size: int, configuredPartSize: int): Route
    requires 0 <= configuredPartSize < TWO_TO_64
  {
    var partSize := if configuredPartSize == 0 then MIN_PART_SIZE else configuredPartSize;
    if size > MAX_MULTIPART_PUT_OBJECT_SIZE then Refuse
    else if size < 0 then StreamParts
    else if size < ToInt64(partSize) then Single
    else Multipart
  }

  /** The choice guards optimalPartInfo: what is sent to it never divides by zero, and is
      refused exactly for a configured part size out of bounds, or too small for the object. */
  lemma DispatchGuards(round: real -> real, size: int, configuredPartSize: int)
    requires 0 <= configuredPartSize < TWO_TO_64 && Dispatch(size, configuredPartSize) == Multipart
    ensures Divisible(size, configuredPartSize)
    ensures OptimalPartInfo(round, size, configuredPartSize).Ok? <==>
      configuredPartSize == 0 ||
      (&& ABS_MIN_PART_SIZE <= configuredPartSize <= MAX_PART_SIZE
       && size <= configuredPartSize * MAX_PARTS_COUNT)
  {
    if configuredPartSize > 0 {
      ConfiguredPassesIff(size, configuredPartSize);
    }
  }

  /** An object is sent in one request exactly if its size is known and it is smaller than the
      configured part size, and then as parts it would be refused; without a configured part
      size, exactly if it is smaller than 128 MiB. */
  lemma DispatchSingleIff(round: real -> real, size: int, configuredPartSize: int)
    requires 0 <= configuredPartSize < TWO_TO_64
    ensures Dispatch(size, configuredPartSize) == Single <==>
      && 0 <= size <= MAX_MULTIPART_PUT_OBJECT_SIZE
      && (if configuredPartSize == 0 then size < MIN_PART_SIZE
          else OptimalPartInfo(round, size, configuredPartSize) == Err(EntityTooLarge(configuredPartSize, size)))
    ensures Dispatch(size, configuredPartSize) == StreamParts <==> size < 0
    ensures Dispatch(size, configuredPartSize) == Refuse <==> size > MAX_MULTIPART_PUT_OBJECT_SIZE
  {
    if configuredPartSize > 0 && 0 <= size <= MAX_MULTIPART_PUT_OBJECT_SIZE
       && ConfiguredError(size, configuredPartSize) != None {
      ConfiguredRefusalIsTrue(size, configuredPartSize);
    }
  }
}

/** Range reduction of random values in two's-complement arithmetic (random_int64.go:14-38). */
module Int64Limiter {

  const TWO_63 := 0x8000_0000_0000_0000
  const TWO_64 := 0x1_0000_0000_0000_0000

  type Int64 = i: int | -TWO_63 <= i < TWO_63
  type Uint64 = u: int | 0 <= u < TWO_64

  datatype Result<T> = Ok(value: T) | WrongLimits

  /** Conversions keep the low 64 bits. */
  function ToInt64(x: int): Int64 {
    var u := x % TWO_64;
    if u < TWO_63 then u else u - TWO_64
  }

  function ToUint64(x: int): Uint64 {
    x % TWO_64
  }

  function Abs(x: int): nat {
    if x < 0 then -x else x
  }

  /** Truncated remainder: the sign is that of the dividend. */
  function Rem(a: int, b: int): int
    requires b != 0
  {
    if a >= 0 then a % Abs(b) else -(Abs(a) % Abs(b))
  }

  datatype Limiter = Limiter(minValue: Int64, maxValue: Int64, distance: Uint64) {
    predicate Valid() {
      minValue < maxValue && distance == maxValue - minValue
    }
  }

  method NewInt64Limiter(minValue: Int64, maxValue: Int64) returns (r: Result<Limiter>)
    ensures r.WrongLimits? <==> minValue >= maxValue
    ensures r.Ok? ==> r.value.Valid() && r.value.minValue == minValue && r.value.maxValue == maxValue
  {
    if minValue >= maxValue {
      return WrongLimits;
    }
    DistanceSurvives(minValue, maxValue);
    return Ok(Limiter(minValue, maxValue, ToUint64(ToInt64(maxValue - minValue))));
  }

  /** The difference may overflow a signed word, but its unsigned reading is exact. */
  lemma DistanceSurvives(minValue: Int64, maxValue: Int64)
    requires minValue < maxValue
    ensures ToUint64(ToInt64(maxValue - minValue)) == maxValue - minValue
  {
  }

  /** The signed word with the low 64 bits of `x` is the only one that differs from it by a multiple of 2^64. */
  lemma ToInt64Is(x: int, r: Int64, k: int)
    requires x == r + k * TWO_64
    ensures ToInt64(x) == r
  {
    assert x % TWO_64 == if r >= 0 then r else r + TWO_64;
  }

  /** Both conversion and addition may overflow, yet the sum is exact. */
  lemma SumSurvives(minValue: Int64, maxValue: Int64, offset: Uint64)
    requires minValue + offset < maxValue
    ensures ToInt64(minValue + ToInt64(offset)) == minValue + offset
  {
    var k := if offset < TWO_63 then 0 else -1;
    assert ToInt64(offset) == offset + k * TWO_64;
    ToInt64Is(minValue + ToInt64(offset), minValue + offset, k);
  }

  method Limit(l: Limiter, v: Uint64) returns (r: Int64)
    requires l.Valid()
    ensures r == Limited(l, v)
    ensures v % l.distance != 0 || l.minValue >= 0 ==>
              (r - l.minValue - v) % (l.maxValue - l.minValue) == 0 && l.minValue <= r < l.maxValue
    ensures v % l.distance == 0 && l.minValue < 0 ==> r == 0
  {
    OffsetMatters(l, v);
    var offset: Uint64 := v % l.distance;
    SumSurvives(l.minValue, l.maxValue, offset);
    var res := ToInt64(l.minValue + ToInt64(offset));
    if res < 0 {
      RemOfSmaller(res, l.minValue);
      return Rem(res, l.minValue);
    }
    RemOfSmaller(res, l.maxValue);
    return Rem(res, l.maxValue);
  }

  /** The result differs from the lower end by the random value, up to multiples of the distance. */
  lemma OffsetMatters(l: Limiter, v: Uint64)
    requires l.Valid()
    ensures (v % l.distance - v) % (l.maxValue - l.minValue) == 0
  {
    var d, q := l.distance, v / l.distance;
    assert v == d * q + v % d;
    assert v % d - v == d * -q;
    Multiple(d, -q);
  }

  lemma Multiple(d: nat, q: int)
    requires d > 0
    ensures (d * q) % d == 0
  {
    var r, k := (d * q) % d, (d * q) / d;
    assert d * q == d * k + r;
    assert r == d * (q - k);
    AtLeast(d, q - k);
    AtLeast(d, k - q);
    assert d * (k - q) == -r;
  }

  lemma AtLeast(d: nat, k: int)
    ensures k >= 1 ==> d * k >= d
  {
  }

  lemma RemOfSmaller(a: int, b: int)
    requires b <= a < 0 || 0 <= a < b
    ensures Rem(a, b) == if a == b then 0 else a
  {
    if a == b {
      assert Abs(b) % Abs(b) == 0;
    } else {
      SmallRemainder(Abs(a), Abs(b));
    }
  }

  lemma SmallRemainder(x: nat, y: nat)
    requires x < y
    ensures x % y == x
  {
  }

  // ---------------------------------------------------------------- the range

  /** The result of `Limit`, as that method proves it. */
  function Limited(l: Limiter, v: Uint64): int
    requires l.Valid()
  {
    if l.minValue < 0 && v % l.distance == 0 then 0 else l.minValue + v % l.distance
  }

  /** The result leaves the range exactly when zero is above it and the remainder is zero. */
  lemma InRangeIff(l: Limiter, v: Uint64)
    requires l.Valid()
    ensures l.minValue <= Limited(l, v) <= l.maxValue <==> !(l.maxValue < 0 && v % l.distance == 0)
  {
  }

  /** Every value of the half-open range comes up, except a negative lower end. */
  lemma EveryValueComesUp(l: Limiter, r: int) returns (v: Uint64)
    requires l.Valid() && l.minValue <= r < l.maxValue && (l.minValue < 0 ==> r != l.minValue)
    ensures Limited(l, v) == r
  {
    v := r - l.minValue;
    SmallRemainder(v, l.distance);
  }

  /** The upper end never comes up, unless it is zero; a negative lower end never does. */
  lemma EndsNeverComeUp(l: Limiter, v: Uint64)
    requires l.Valid()
    ensures l.minValue < 0 ==> Limited(l, v) != l.minValue
    ensures l.maxValue != 0 ==> Limited(l, v) != l.maxValue
  {
  }

  /** A range of negative values can give zero. */
  lemma NegativeRangeCanGiveZero()
    ensures var l := Limiter(-10, -5, 5); l.Valid() && Limited(l, 5) == 0 > l.maxValue
  {
  }
}

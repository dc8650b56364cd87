/** The categorical encoders of csv2nds/main.cpp and `linearScale`. Each
    encoder's result is stored in a `uint8_t`, so it is reduced modulo 256.
    Floating-point values are modelled as `real`. */
module Encoders {
  import opened CArith

  type Byte = x: int | 0 <= x < 256

  /** Conversion of an integer to `uint8_t` (modular in C++). */
  function ToByte(v: int): (b: Byte)
    ensures (b - v) % 256 == 0
    ensures 0 <= v < 256 ==> b == v
  {
    v % 256
  }

  /** `std::find(keys.begin(), keys.end(), token) - keys.begin()`. */
  function Find(keys: seq<string>, token: string): (i: nat)
    ensures i <= |keys|
    ensures i < |keys| ==> keys[i] == token
    ensures forall j :: 0 <= j < i ==> keys[j] != token
  {
    if keys == [] then 0
    else if keys[0] == token then 0
    else 1 + Find(keys[1..], token)
  }

  /** `std::lower_bound(bounds.begin(), bounds.end(), v) - bounds.begin()`: the
      first bound not less than `v`. This is what `std::lower_bound` returns
      whenever its precondition holds (the bounds less than `v` come first). */
  function LowerBound(bounds: seq<real>, v: real): (i: nat)
    ensures i <= |bounds|
    ensures forall j :: 0 <= j < i ==> bounds[j] < v
    ensures i < |bounds| ==> bounds[i] >= v
  {
    if bounds == [] then 0
    else if !(bounds[0] < v) then 0
    else 1 + LowerBound(bounds[1..], v)
  }

  predicate Ascending(s: seq<real>)
  {
    forall j, k :: 0 <= j < k < |s| ==> s[j] <= s[k]
  }

  /** Number of bounds strictly less than `v`. */
  function CountLess(bounds: seq<real>, v: real): (n: nat)
    ensures n <= |bounds|
  {
    if bounds == [] then 0
    else (if bounds[0] < v then 1 else 0) + CountLess(bounds[1..], v)
  }

  /** On ascending bounds the lower bound is the number of bounds below `v`. */
  lemma {:induction false} LowerBoundCountsLess(bounds: seq<real>, v: real)
    requires Ascending(bounds)
    ensures LowerBound(bounds, v) == CountLess(bounds, v)
  {
    if bounds != [] {
      assert Ascending(bounds[1..]);
      LowerBoundCountsLess(bounds[1..], v);
      if !(bounds[0] < v) {
        NoneLess(bounds[1..], v);
      }
    }
  }

  /** No bound of an ascending sequence is less than `v` when the first is not. */
  lemma {:induction false} NoneLess(bounds: seq<real>, v: real)
    requires forall j :: 0 <= j < |bounds| ==> bounds[j] >= v
    ensures CountLess(bounds, v) == 0
  {
    if bounds != [] {
      NoneLess(bounds[1..], v);
    }
  }

  /** `linearScale`: maps [min, max] onto [a, b] linearly and rounds down. A
      zero-width input range divides by zero in the source, whose result has no
      integer value. */
  function LinearScale(min: real, max: real, a: real, b: real, x: real): (r: int)
    requires max != min
    ensures max > min && b >= a && min <= x <= max ==> a.Floor <= r <= b.Floor
  {
    if max > min && b >= a && min <= x <= max then
      ScaledWithin(min, max, a, b, x);
      ((b - a) * (x - min) / (max - min) + a).Floor
    else
      ((b - a) * (x - min) / (max - min) + a).Floor
  }

  /** Inside the input range the scaled value lies in [a, b]. */
  lemma ScaledWithin(min: real, max: real, a: real, b: real, x: real)
    requires max > min && b >= a && min <= x <= max
    ensures a <= (b - a) * (x - min) / (max - min) + a <= b
  {
    var w, l, t := max - min, b - a, x - min;
    var q := t / w;
    assert 0.0 <= q <= 1.0;
    assert l * t / w == l * q;
    assert 0.0 <= l * q <= l;
  }

  /** The lower end of the input range maps to the lower end of the output range. */
  lemma LinearScaleAtMin(min: real, max: real, a: int, b: real)
    requires max != min
    ensures LinearScale(min, max, a as real, b, min) == a
  {
  }

  /** `linearScale` is non-decreasing in `x` for increasing ranges. */
  lemma LinearScaleMonotone(min: real, max: real, a: real, b: real, x: real, y: real)
    requires max > min && b >= a && x <= y
    ensures LinearScale(min, max, a, b, x) <= LinearScale(min, max, a, b, y)
  {
    var k := (b - a) / (max - min);
    assert (b - a) * (x - min) / (max - min) == k * (x - min);
    assert (b - a) * (y - min) / (max - min) == k * (y - min);
    assert k * (x - min) <= k * (y - min);
  }

  /** `uint32_t diff = second - first + 1` of the sequential encoder. */
  function SequentialWidth(first: int, second: int): (w: U32)
    ensures first <= second + 1 && second + 1 - first < U32_MODULUS ==> w == second - first + 1
  {
    ToU32(second - first + 1)
  }

  /** The sequential encoder, before the store into `uint8_t`. With its
      arguments the scale factor is one: the value is `x - first` rounded down. */
  function SequentialValue(first: int, second: int, x: real): (v: int)
    requires second + 1 != first
    ensures first <= second && second - first < U32_MODULUS - 1 ==> v == (x - first as real).Floor
  {
    if first <= second && second - first < U32_MODULUS - 1 then
      LinearScaleUnit(first as real, (second + 1) as real, SequentialWidth(first, second) as real, x);
      LinearScale(first as real, (second + 1) as real, 0.0, SequentialWidth(first, second) as real, x)
    else
      LinearScale(first as real, (second + 1) as real, 0.0, SequentialWidth(first, second) as real, x)
  }

  /** When the output range is as wide as the input range and starts at 0,
      `linearScale` only shifts: it rounds `x - min` down. */
  lemma LinearScaleUnit(min: real, max: real, w: real, x: real)
    requires max - min == w && w > 0.0
    ensures LinearScale(min, max, 0.0, w, x) == (x - min).Floor
  {
    var e := (w - 0.0) * (x - min) / (max - min) + 0.0;
    assert e == x - min;
    assert LinearScale(min, max, 0.0, w, x) == e.Floor;
  }

  /** Integers from `first` to `second` are numbered from 0 up; values outside
      the interval are not clamped. */
  lemma SequentialRange(first: int, second: int, n: int)
    requires first <= second && second - first < U32_MODULUS - 1
    ensures SequentialValue(first, second, n as real) == n - first
    ensures first <= n <= second ==> 0 <= SequentialValue(first, second, n as real) <= second - first
  {
  }

  /** The discrete encoder: the index of the first matching category, or the
      number of categories when none matches, as a `uint8_t`. */
  function EncodeDiscrete(keys: seq<string>, token: string): (b: Byte)
    ensures (exists i :: 0 <= i < |keys| && keys[i] == token) ==> b == ToByte(Find(keys, token)) && keys[Find(keys, token)] == token
    ensures (forall i :: 0 <= i < |keys| ==> keys[i] != token) ==> b == ToByte(|keys|)
  {
    ToByte(Find(keys, token))
  }

  /** The range encoder on a parsed value. */
  function EncodeRange(bounds: seq<real>, v: real): (b: Byte)
    ensures Ascending(bounds) ==> b == ToByte(CountLess(bounds, v))
  {
    if Ascending(bounds) then
      LowerBoundCountsLess(bounds, v);
      ToByte(LowerBound(bounds, v))
    else
      ToByte(LowerBound(bounds, v))
  }

  /** The binary encoder: the parsed integer, not checked to be 0 or 1. */
  function EncodeBinary(n: int): (b: Byte)
    ensures (b - n) % 256 == 0
  {
    ToByte(n)
  }

  /** The sequential encoder on a parsed value. */
  function EncodeSequential(first: int, second: int, x: real): (b: Byte)
    requires second + 1 != first
    ensures first <= second && second - first < U32_MODULUS - 1 ==> b == ToByte((x - first as real).Floor)
  {
    ToByte(SequentialValue(first, second, x))
  }
}

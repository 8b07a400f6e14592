/**
 Byte strings, their concatenation, and the decimal rendering that the
 reducers put in their markers.
 */
module Bytes {
  newtype byte = x: int | 0 <= x < 256

  type Text = seq<byte>

  const LF: byte := 10
  const CR: byte := 13

  function Concat(parts: seq<Text>): (r: Text) {
    if parts == [] then [] else parts[0] + Concat(parts[1..])
  }

  lemma {:induction false} ConcatAppend(a: seq<Text>, b: seq<Text>)
    ensures Concat(a + b) == Concat(a) + Concat(b)
  {
    if a == [] {
      assert a + b == b;
    } else {
      assert (a + b)[1..] == a[1..] + b;
      ConcatAppend(a[1..], b);
    }
  }

  lemma ConcatOne(p: Text)
    ensures Concat([p]) == p
  {
    assert Concat([p]) == p + Concat([]);
  }

  /** Cutting a sequence of parts in two cuts its concatenation in two. */
  lemma ConcatSlice(parts: seq<Text>, i: nat, j: nat)
    requires i <= j <= |parts|
    ensures Concat(parts[..j]) == Concat(parts[..i]) + Concat(parts[i..j])
  {
    assert parts[..j] == parts[..i] + parts[i..j];
    ConcatAppend(parts[..i], parts[i..j]);
  }

  /** `n` copies of a byte string. */
  function Repeat(p: Text, n: nat): (r: Text) {
    if n == 0 then [] else p + Repeat(p, n - 1)
  }

  lemma {:induction false} RepeatLength(p: Text, n: nat)
    ensures |Repeat(p, n)| == n * |p|
  {
    if n > 0 {
      RepeatLength(p, n - 1);
      assert n * |p| == |p| + (n - 1) * |p|;
    }
  }

  lemma {:induction false} RepeatConcat(parts: seq<Text>, p: Text)
    requires forall i :: 0 <= i < |parts| ==> parts[i] == p
    ensures Concat(parts) == Repeat(p, |parts|)
  {
    if parts != [] {
      RepeatConcat(parts[1..], p);
    }
  }

  lemma {:induction false} RepeatAppend(p: Text, a: nat, b: nat)
    ensures Repeat(p, a + b) == Repeat(p, a) + Repeat(p, b)
  {
    if a > 0 {
      RepeatAppend(p, a - 1, b);
    }
  }

  /** Decimal digits, most significant first, as `format!("{n}")` writes them. */
  function Decimal(n: nat): (r: Text)
    ensures |r| >= 1
  {
    if n < 10 then [(48 + n) as byte] else Decimal(n / 10) + [(48 + n % 10) as byte]
  }

  /** The number a decimal byte string denotes. */
  function Value(digits: Text): (r: int) {
    if digits == [] then 0
    else 10 * Value(digits[..|digits| - 1]) + (digits[|digits| - 1] as int - 48)
  }

  lemma {:induction false} DecimalValue(n: nat)
    ensures Value(Decimal(n)) == n
  {
    if n >= 10 {
      DecimalValue(n / 10);
      var d := Decimal(n);
      assert d[..|d| - 1] == Decimal(n / 10);
    } else {
      var d := Decimal(n);
      assert d[..|d| - 1] == [];
    }
  }

  /** Every byte is a digit. */
  predicate Digits(s: Text) {
    forall i :: 0 <= i < |s| ==> 48 <= s[i] <= 57
  }

  lemma {:induction false} DecimalDigitsOnly(n: nat)
    ensures Digits(Decimal(n))
  {
    if n >= 10 {
      DecimalDigitsOnly(n / 10);
    }
  }

  /** `decimal_digits`: counts digits by repeated division. */
  method DecimalDigits(value: nat) returns (digits: nat)
    ensures digits == |Decimal(value)|
  {
    digits := 1;
    var rest := value;
    while rest >= 10
      invariant digits + |Decimal(rest)| == 1 + |Decimal(value)|
    {
      rest := rest / 10;
      digits := digits + 1;
    }
  }

  /** Adding to a number lengthens its decimal form by no more than was added. */
  lemma {:induction false} DecimalGrowth(n: nat, m: nat)
    requires n <= m
    ensures |Decimal(n)| <= |Decimal(m)| <= |Decimal(n)| + (m - n)
    decreases m
  {
    if m >= 10 {
      if n >= 10 {
        DecimalGrowth(n / 10, m / 10);
      } else {
        DecimalGrowth(0, m / 10);
        if m < 20 {
          assert m / 10 == 1;
        }
      }
    }
  }
}

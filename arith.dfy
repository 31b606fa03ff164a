/** The integer arithmetic behind the codec's 40-bit accumulator: shifts,
    the `inject` fold that packs fixed-width fields into one integer, and the
    extraction of fields back out of it. Ruby's integers are unbounded and
    every value here is non-negative, so `x >> n` halves `x` `n` times
    (rounding down), `x << n` doubles it `n` times, and `x & (2^w - 1)` is
    `x % 2^w`. */
module Arith {
  import opened Seqs

  function Pow2(n: nat): (r: nat)
    ensures r >= 1
  {
    if n == 0 then 1 else 2 * Pow2(n - 1)
  }

  /** `x >> n` */
  function Shr(x: nat, n: nat): nat
  {
    if n == 0 then x else Shr(x / 2, n - 1)
  }

  /** `x << n` */
  function Shl(x: nat, n: nat): nat
  {
    if n == 0 then x else 2 * Shl(x, n - 1)
  }

  /** `s.inject(0) { |memo, d| (memo << w) + d }`: the elements of `s`, most
      significant first, packed `w` bits apart. An element wider than `w`
      bits spills into its left neighbour, as it does in Ruby. */
  function Accumulate(s: seq<nat>, w: nat): nat
  {
    if s == [] then 0 else Shl(Accumulate(s[..|s| - 1], w), w) + s[|s| - 1]
  }

  /** `x` shifted right by `i` fields of `w` bits, one field at a time. */
  function ShrW(x: nat, i: nat, w: nat): nat
    decreases i
  {
    if i == 0 then x else ShrW(Shr(x, w), i - 1, w)
  }

  /** `x` shifted left by `i` fields of `w` bits, one field at a time. */
  function ShlW(x: nat, i: nat, w: nat): nat
  {
    if i == 0 then x else Shl(ShlW(x, i - 1, w), w)
  }

  /** `n.times.map { |i| (x >> (i * w)) & (2^w - 1) }.reverse`: the low `n`
      fields of width `w` of `x`, most significant first. The shift by
      `i * w` bits is written as a shift by `i` fields (`ShrWIsShr`). */
  function Fields(x: nat, n: nat, w: nat): (r: seq<nat>)
    ensures |r| == n
    ensures forall j :: 0 <= j < n ==> r[j] < Pow2(w)
  {
    Reverse(seq(n, i requires 0 <= i => ShrW(x, i, w) % Pow2(w)))
  }

  /** Every element of `s` fits in `w` bits. */
  predicate FitIn(s: seq<nat>, w: nat)
  {
    forall i :: 0 <= i < |s| ==> s[i] < Pow2(w)
  }

  // ---------------------------------------------------------------------
  // Multiplication and division

  lemma MulLe(a: int, b: int, c: nat)
    requires a <= b
    ensures a * c <= b * c
  {
  }

  lemma MulStep(a: int, b: int, c: nat)
    requires a < b
    ensures a * c + c <= b * c
  {
    MulLe(a + 1, b, c);
  }

  lemma MulAssoc(a: int, b: int, c: int)
    ensures (a * b) * c == a * (b * c)
  {
  }

  lemma MulSucc(a: nat, k: nat, w: nat)
    requires a == k + 1
    ensures a * w == w + k * w
    ensures k * w >= 0
  {
  }

  /** Euclidean division is determined by quotient and remainder. */
  lemma DivModUnique(x: int, d: int, q: int, r: int)
    requires d > 0 && 0 <= r < d && x == q * d + r
    ensures x / d == q && x % d == r
  {
    var q', r' := x / d, x % d;
    assert x == q' * d + r';
    if q > q' {
      MulStep(q', q, d);
    } else if q < q' {
      MulStep(q, q', d);
    }
  }

  lemma DivDiv(x: nat, a: nat, b: nat)
    requires a > 0 && b > 0
    ensures x / (a * b) == x / a / b
  {
    var q, r := x / a, x % a;
    var q2, r2 := q / b, q % b;
    assert x == q2 * (a * b) + (r2 * a + r) by {
      assert x == q * a + r;
      assert q == q2 * b + r2;
    }
    MulLe(r2, b - 1, a);
    DivModUnique(x, a * b, q2, r2 * a + r);
  }

  // ---------------------------------------------------------------------
  // Shifts

  lemma Pow2Values()
    ensures Pow2(5) == 32 && Pow2(8) == 256
  {
    assert Pow2(5) == 32;
    assert Pow2(8) == 256;
  }

  lemma {:induction false} ShlIsMul(x: nat, n: nat)
    ensures Shl(x, n) == x * Pow2(n)
  {
    if n > 0 {
      ShlIsMul(x, n - 1);
      MulAssoc(x, Pow2(n - 1), 2);
    }
  }

  lemma {:induction false} ShrIsDiv(x: nat, n: nat)
    ensures Shr(x, n) == x / Pow2(n)
  {
    if n > 0 {
      ShrIsDiv(x / 2, n - 1);
      DivDiv(x, 2, Pow2(n - 1));
    }
  }

  /** Shifting right by `a + b` is shifting by `a`, then by `b`. */
  lemma {:induction false} ShrAdd(x: nat, a: nat, b: nat)
    ensures Shr(x, a + b) == Shr(Shr(x, a), b)
  {
    if a > 0 {
      ShrAdd(x / 2, a - 1, b);
    }
  }

  /** Shifting left by `a + b` is shifting by `b`, then by `a`. */
  lemma {:induction false} ShlAdd(x: nat, a: nat, b: nat)
    ensures Shl(x, a + b) == Shl(Shl(x, b), a)
  {
    if a > 0 {
      ShlAdd(x, a - 1, b);
    }
  }

  /** A right shift undoes a left shift by the same amount. */
  lemma {:induction false} ShrShl(x: nat, n: nat)
    ensures Shr(Shl(x, n), n) == x
  {
    if n > 0 {
      ShrShl(x, n - 1);
      assert Shl(x, n) / 2 == Shl(x, n - 1);
      ShrAdd(Shl(x, n), 1, n - 1);
    }
  }

  /** Shifting `a` left by `w` and adding `d < 2^w` keeps `a` above the low
      `w` bits and `d` in them. */
  lemma ShlPlusDigit(a: nat, w: nat, d: nat)
    requires d < Pow2(w)
    ensures Shr(Shl(a, w) + d, w) == a
    ensures (Shl(a, w) + d) % Pow2(w) == d
  {
    var x := Shl(a, w) + d;
    ShlIsMul(a, w);
    ShrIsDiv(x, w);
    DivModUnique(x, Pow2(w), a, d);
  }

  /** `x` is its part above the low `w` bits shifted back, plus those bits. */
  lemma ShrSplit(x: nat, w: nat)
    ensures x == Shl(Shr(x, w), w) + x % Pow2(w)
  {
    ShrIsDiv(x, w);
    ShlIsMul(x / Pow2(w), w);
  }

  /** Shifting by `i` fields of `w` bits is shifting by `i * w` bits. */
  lemma {:induction false} ShrWIsShr(x: nat, i: nat, w: nat)
    ensures ShrW(x, i, w) == Shr(x, i * w)
    decreases i
  {
    if i > 0 {
      ShrWIsShr(Shr(x, w), i - 1, w);
      MulSucc(i, i - 1, w);
      ShrAdd(x, w, (i - 1) * w);
    }
  }

  lemma {:induction false} ShlWIsShl(x: nat, i: nat, w: nat)
    ensures ShlW(x, i, w) == Shl(x, i * w)
  {
    if i > 0 {
      ShlWIsShl(x, i - 1, w);
      MulSucc(i, i - 1, w);
      ShlAdd(x, w, (i - 1) * w);
    }
  }

  // ---------------------------------------------------------------------
  // Packing and unpacking fields

  /** Element `j` of `Fields(x, n, w)` is the field `n - 1 - j` places up. */
  lemma FieldsAt(x: nat, n: nat, w: nat, j: nat)
    requires j < n
    ensures Fields(x, n, w)[j] == ShrW(x, n - 1 - j, w) % Pow2(w)
  {
  }

  /** `|s|` fields that fit in `w` bits pack into a value with nothing above
      its `|s|` fields. */
  lemma {:induction false} AccumulateBound(s: seq<nat>, w: nat)
    requires FitIn(s, w)
    ensures ShrW(Accumulate(s, w), |s|, w) == 0
  {
    if s != [] {
      var init := s[..|s| - 1];
      assert FitIn(init, w);
      AccumulateBound(init, w);
      ShlPlusDigit(Accumulate(init, w), w, s[|s| - 1]);
    }
  }

  /** Field `i` (counted from the least significant end) of a packed value
      is element `|s| - 1 - i` of what was packed. */
  lemma {:induction false} FieldOfAccumulate(s: seq<nat>, w: nat, i: nat)
    requires FitIn(s, w) && i < |s|
    ensures ShrW(Accumulate(s, w), i, w) % Pow2(w) == s[|s| - 1 - i]
  {
    var init := s[..|s| - 1];
    ShlPlusDigit(Accumulate(init, w), w, s[|s| - 1]);
    if i > 0 {
      assert FitIn(init, w);
      FieldOfAccumulate(init, w, i - 1);
    }
  }

  /** Extracting the fields of a packed value gives back what was packed. */
  lemma FieldsOfAccumulate(s: seq<nat>, w: nat)
    requires FitIn(s, w)
    ensures Fields(Accumulate(s, w), |s|, w) == s
  {
    var f := Fields(Accumulate(s, w), |s|, w);
    forall j | 0 <= j < |s|
      ensures f[j] == s[j]
    {
      FieldsAt(Accumulate(s, w), |s|, w, j);
      FieldOfAccumulate(s, w, |s| - 1 - j);
    }
  }

  lemma FieldsInitAt(x: nat, n: nat, w: nat, j: nat)
    requires j < n - 1
    ensures Fields(x, n, w)[j] == Fields(Shr(x, w), n - 1, w)[j]
  {
    var i := n - 1 - j;
    FieldsAt(x, n, w, j);
    FieldsAt(Shr(x, w), n - 1, w, j);
    assert n - 1 - 1 - j == i - 1;
    assert ShrW(x, i, w) == ShrW(Shr(x, w), i - 1, w);
  }

  /** Dropping the least significant field leaves the fields of `x >> w`. */
  lemma FieldsInit(x: nat, n: nat, w: nat)
    requires n > 0
    ensures Fields(x, n, w)[..n - 1] == Fields(Shr(x, w), n - 1, w)
  {
    forall j | 0 <= j < n - 1
      ensures Fields(x, n, w)[j] == Fields(Shr(x, w), n - 1, w)[j]
    {
      FieldsInitAt(x, n, w, j);
    }
  }

  /** A value with nothing above its low `n` fields is the packing of
      those fields. */
  lemma {:induction false} AccumulateOfFields(x: nat, n: nat, w: nat)
    requires ShrW(x, n, w) == 0
    ensures Accumulate(Fields(x, n, w), w) == x
    decreases n
  {
    if n > 0 {
      var f := Fields(x, n, w);
      AccumulateOfFields(Shr(x, w), n - 1, w);
      FieldsInit(x, n, w);
      FieldsAt(x, n, w, n - 1);
      ShrSplit(x, w);
    }
  }

  /** The leading `m` of the `n` fields of `x`, packed again, are `x` with
      its low `n - m` fields shifted out. */
  lemma {:induction false} FieldsPrefix(x: nat, n: nat, w: nat, m: nat)
    requires ShrW(x, n, w) == 0 && m <= n
    ensures Accumulate(Fields(x, n, w)[..m], w) == ShrW(x, n - m, w)
    decreases n
  {
    if m == n {
      assert Fields(x, n, w)[..m] == Fields(x, n, w);
      AccumulateOfFields(x, n, w);
    } else {
      FieldsInit(x, n, w);
      assert Fields(x, n, w)[..m] == Fields(Shr(x, w), n - 1, w)[..m];
      FieldsPrefix(Shr(x, w), n - 1, w, m);
    }
  }

  /** Trailing zero fields shift the packed value left by that many fields. */
  lemma {:induction false} AccumulateZeros(s: seq<nat>, m: nat, w: nat)
    ensures Accumulate(s + Zeros(m), w) == ShlW(Accumulate(s, w), m, w)
  {
    if m == 0 {
      assert s + Zeros(0) == s;
    } else {
      var t := s + Zeros(m);
      assert t[..|t| - 1] == s + Zeros(m - 1);
      AccumulateZeros(s, m - 1, w);
    }
  }

  /** A `w`-bit field that starts `e` bits up in a value shifted left by
      `e + w + rest` bits is zero. */
  lemma LowFieldZero(y: nat, e: nat, w: nat, rest: nat)
    ensures Shr(Shl(y, e + w + rest), e) % Pow2(w) == 0
  {
    assert e + w + rest == e + (w + rest);
    ShlAdd(y, e, w + rest);
    ShlAdd(y, w, rest);
    ShrShl(Shl(y, w + rest), e);
    ShlPlusDigit(Shl(y, rest), w, 0);
  }
}

/** Sign-and-magnitude numbers of five digits in base one billion, each kept in 32 bits. */
module BigNum {

  const LIMIT: nat := 1_000_000_000
  const DIGITS: nat := 5
  const TWO_32: nat := 0x1_0000_0000

  type Uint32 = n: nat | n < TWO_32

  function Base(n: nat): (b: nat)
    ensures 0 < b
  {
    if n == 0 then 1 else LIMIT * Base(n - 1)
  }

  /** A digit at its place. */
  function At(x: nat, i: nat): nat {
    x * Base(i)
  }

  /** The value of digits, least significant first. */
  function Val(d: seq<nat>): nat {
    if d == [] then 0 else Val(d[..|d| - 1]) + d[|d| - 1] * Base(|d| - 1)
  }

  predicate Normal(d: seq<nat>) {
    forall i :: 0 <= i < |d| ==> d[i] < LIMIT
  }

  lemma ValNext(d: seq<nat>, i: nat)
    requires i < |d|
    ensures Val(d[..i + 1]) == Val(d[..i]) + d[i] * Base(i)
  {
    assert d[..i + 1][..i] == d[..i];
  }

  lemma DigitFits(x: nat, y: nat, b: nat)
    requires x < y
    ensures x * b + b <= y * b
  {
    var k := y - 1 - x;
    assert y == x + 1 + k;
    assert (x + 1 + k) * b == x * b + b + k * b;
    assert 0 <= k * b;
  }

  lemma {:induction false} ValBound(d: seq<nat>)
    requires Normal(d)
    ensures Val(d) < Base(|d|)
  {
    if d != [] {
      var n := |d| - 1;
      ValBound(d[..n]);
      DigitFits(d[n], LIMIT, Base(n));
    }
  }

  // ---------------------------------------------------------------- order

  /** The more significant digits agree and the one at `i` decides. */
  lemma {:induction false} TopDigitDecides(a: seq<nat>, b: seq<nat>, i: nat)
    requires |a| == |b| && Normal(a) && Normal(b) && i < |a| && a[i] < b[i] && a[i + 1..] == b[i + 1..]
    ensures Val(a) < Val(b)
    decreases |a|
  {
    hide Base;
    var n := |a| - 1;
    if i == n {
      ValBound(a[..n]);
      DigitFits(a[n], b[n], Base(n));
    } else {
      assert a[n] == a[i + 1..][n - i - 1] == b[n];
      assert a[..n][i + 1..] == a[i + 1..][..n - i - 1] == b[..n][i + 1..];
      TopDigitDecides(a[..n], b[..n], i);
    }
  }

  /** On normal digits the value determines the digits. */
  lemma {:induction false} ValIsInjective(a: seq<nat>, b: seq<nat>)
    requires |a| == |b| && Normal(a) && Normal(b) && Val(a) == Val(b)
    ensures a == b
  {
    if j :| 0 <= j < |a| && a[j] != b[j] {
      var i := TopDifference(a, b, j);
      if a[i] < b[i] {
        TopDigitDecides(a, b, i);
      } else {
        TopDigitDecides(b, a, i);
      }
    }
  }

  lemma {:induction false} TopDifference(a: seq<nat>, b: seq<nat>, j: nat) returns (i: nat)
    requires |a| == |b| && j < |a| && a[j] != b[j]
    ensures i < |a| && a[i] != b[i] && a[i + 1..] == b[i + 1..]
  {
    var n := |a| - 1;
    if a[n] != b[n] {
      i := n;
    } else {
      i := TopDifference(a[..n], b[..n], j);
      assert a[i + 1..] == a[..n][i + 1..] + [a[n]] && b[i + 1..] == b[..n][i + 1..] + [b[n]];
    }
  }

  /** The order of the most significant digits that differ. */
  predicate Below(a: seq<nat>, b: seq<nat>)
    requires |a| == |b|
  {
    a != [] && var n := |a| - 1; a[n] < b[n] || (a[n] == b[n] && Below(a[..n], b[..n]))
  }

  lemma {:induction false} BelowAt(a: seq<nat>, b: seq<nat>, i: nat)
    requires |a| == |b| && i < |a| && a[i] != b[i] && a[i + 1..] == b[i + 1..]
    ensures Below(a, b) <==> a[i] < b[i]
  {
    var n := |a| - 1;
    if i < n {
      assert a[n] == a[i + 1..][n - i - 1] == b[n];
      assert a[..n][i + 1..] == a[i + 1..][..n - i - 1] == b[..n][i + 1..];
      BelowAt(a[..n], b[..n], i);
    }
  }

  lemma {:induction false} NotBelowItself(a: seq<nat>)
    ensures !Below(a, a)
  {
    if a != [] { NotBelowItself(a[..|a| - 1]); }
  }

  /** On normal digits the order of the digits is the order of the values. */
  lemma BelowIsLess(a: seq<nat>, b: seq<nat>)
    requires |a| == |b| && Normal(a) && Normal(b)
    ensures Below(a, b) <==> Val(a) < Val(b)
  {
    if j :| 0 <= j < |a| && a[j] != b[j] {
      var i := TopDifference(a, b, j);
      BelowAt(a, b, i);
      if a[i] < b[i] { TopDigitDecides(a, b, i); } else { TopDigitDecides(b, a, i); }
    } else {
      assert a == b;
      NotBelowItself(a);
    }
  }

  /** `_CFBigNumAbsoluteLessThan` */
  method AbsoluteLessThan(a: Num, b: Num) returns (less: bool)
    requires a.Valid() && b.Valid()
    ensures less <==> Below(a.digits[..], b.digits[..])
    ensures Normal(a.digits[..]) && Normal(b.digits[..]) ==> (less <==> a.Magnitude() < b.Magnitude())
  {
    hide Below, Val, Normal;
    var order := CompareMagnitudes(a, b);
    less := order < 0;
    if Normal(a.digits[..]) && Normal(b.digits[..]) { BelowIsLess(a.digits[..], b.digits[..]); }
  }

  /** The loop that `_CFBigNumAbsoluteLessThan` and `_CFBigNumCompare` share. */
  method CompareMagnitudes(a: Num, b: Num) returns (order: int)
    requires a.Valid() && b.Valid()
    ensures order == DigitOrder(a.digits[..], b.digits[..])
  {
    hide Below;
    ghost var x, y := a.digits[..], b.digits[..];
    var i := DIGITS;
    while 0 < i
      invariant 0 <= i <= DIGITS && x[i..] == y[i..]
    {
      i := i - 1;
      if a.digits[i] < b.digits[i] {
        BelowAt(x, y, i);
        return -1;
      }
      if a.digits[i] > b.digits[i] {
        BelowAt(x, y, i);
        return 1;
      }
      assert x[i..] == [x[i]] + x[i + 1..] && y[i..] == [y[i]] + y[i + 1..];
    }
    assert x == x[0..] && y == y[0..];
    NotBelowItself(x);
    order := 0;
  }

  /** -1, 0 or 1 by the most significant digits that differ. */
  function DigitOrder(a: seq<nat>, b: seq<nat>): int
    requires |a| == |b|
  {
    if Below(a, b) then -1 else if a == b then 0 else 1
  }

  function Signed(sign: int, magnitude: nat): int {
    if sign < 0 then 0 - magnitude else magnitude
  }

  /** -1, 0 or 1 as the first number is less than, equal to or greater than the second. */
  function Order(x: int, y: int): int {
    if x < y then -1 else if x == y then 0 else 1
  }

  /** `_CFBigNumCompare` is, on normal digits, the order of the values exactly when it does not compare a zero with a negative zero. */
  method Compare(a: Num, b: Num) returns (r: int)
    requires a.Valid() && b.Valid()
    ensures a.sign != b.sign ==> r == Order(a.sign, b.sign)
    ensures a.sign == b.sign ==> r == if a.sign < 0 then 0 - DigitOrder(a.digits[..], b.digits[..])
                                      else DigitOrder(a.digits[..], b.digits[..])
    ensures Normal(a.digits[..]) && Normal(b.digits[..]) ==>
              (r == Order(a.Int(), b.Int()) <==> a.sign == b.sign || a.Magnitude() != 0 || b.Magnitude() != 0)
  {
    hide Below, Val, Normal;
    if Normal(a.digits[..]) && Normal(b.digits[..]) { DigitOrderIsOrder(a.digits[..], b.digits[..]); }
    if a.sign == b.sign {
      r := CompareMagnitudes(a, b);
      if a.sign < 0 { r := 0 - r; }
    } else {
      r := if a.sign < b.sign then -1 else 1;
    }
  }

  lemma DigitOrderIsOrder(a: seq<nat>, b: seq<nat>)
    requires |a| == |b| && Normal(a) && Normal(b)
    ensures DigitOrder(a, b) == Order(Val(a), Val(b))
  {
    hide Below, Val, Normal;
    BelowIsLess(a, b);
    if Val(a) == Val(b) { ValIsInjective(a, b); }
  }

  /** A zero counts as greater than a negative zero. */
  method ZeroAboveNegativeZero() returns (a: Num, b: Num, r: int)
    ensures a.Int() == b.Int() == 0 && r == 1
  {
    a := new Num();
    b := new Num();
    b.sign := -1;
    ValOfZeros(a.digits[..]);
    r := Compare(a, b);
  }

  class Num {
    const digits: array<Uint32>
    var sign: int

    ghost predicate Valid()
      reads this
    {
      digits.Length == DIGITS && (sign == 0 || sign == -1)
    }

    ghost function Magnitude(): nat
      reads digits
    {
      Val(digits[..])
    }

    ghost function Int(): int
      reads this, digits
    {
      Signed(sign, Magnitude())
    }

    constructor ()
      ensures Valid() && fresh(digits) && sign == 0 && digits[..] == [0, 0, 0, 0, 0]
    {
      digits := new Uint32[5](_ => 0);
      sign := 0;
      new;
      assert digits[..] == [0, 0, 0, 0, 0];
    }
  }

  // ---------------------------------------------------------------- addition

  /** The sum at digit `i` before it is cut to 32 bits. */
  function DigitSum(a: seq<nat>, b: seq<nat>, i: nat): nat
    requires |a| == |b| && i < |a|
    decreases i, 1
  {
    a[i] + b[i] + Carry(a, b, i)
  }

  /** The carry into digit `i` of a sum: a digit sum, cut to 32 bits, carries only when it is greater than the base. */
  function Carry(a: seq<nat>, b: seq<nat>, i: nat): (c: nat)
    requires |a| == |b| && i <= |a|
    ensures c <= 1
    decreases i, 0
  {
    if i > 0 && LIMIT < DigitSum(a, b, i - 1) % TWO_32 then 1 else 0
  }

  function SumDigit(a: seq<nat>, b: seq<nat>, i: nat): int
    requires |a| == |b| && i < |a|
  {
    DigitSum(a, b, i) % TWO_32 - Carry(a, b, i + 1) * LIMIT
  }

  predicate SumDigits(a: seq<nat>, b: seq<nat>, r: seq<nat>, n: nat)
    requires |a| == |b|
  {
    n <= |a| && n <= |r| && forall i :: 0 <= i < n ==> r[i] == SumDigit(a, b, i)
  }

  /** What the first `n` digit sums lose by being cut to 32 bits. */
  function Lost(a: seq<nat>, b: seq<nat>, n: nat): nat
    requires |a| == |b| && n <= |a|
  {
    if n == 0 then 0
    else Lost(a, b, n - 1) + At(DigitSum(a, b, n - 1) - DigitSum(a, b, n - 1) % TWO_32, n - 1)
  }

  /** No digit sum leaves the 32 bits it is computed in. */
  predicate NoWrap(a: seq<nat>, b: seq<nat>, n: nat)
    requires |a| == |b| && n <= |a|
  {
    forall i :: 0 <= i < n ==> DigitSum(a, b, i) < TWO_32
  }

  lemma {:induction false} NothingLost(a: seq<nat>, b: seq<nat>, n: nat)
    requires |a| == |b| && n <= |a|
    ensures Lost(a, b, n) == 0 <==> NoWrap(a, b, n)
  {
    hide DigitSum, Base;
    if n > 0 {
      NothingLost(a, b, n - 1);
      var sum := DigitSum(a, b, n - 1);
      assert sum - sum % TWO_32 == 0 <==> sum < TWO_32;
      AtIsZero(sum - sum % TWO_32, n - 1);
      assert NoWrap(a, b, n) <==> NoWrap(a, b, n - 1) && sum < TWO_32;
    }
  }

  lemma AtIsZero(x: nat, i: nat)
    ensures At(x, i) == 0 <==> x == 0
  {
    if x > 0 { assert x * Base(i) == Base(i) + (x - 1) * Base(i); }
  }

  /** Whatever carries happen, the sum's value is exact but for what is lost. */
  lemma {:induction false} SumIsExact(a: seq<nat>, b: seq<nat>, r: seq<nat>, n: nat)
    requires |a| == |b| && SumDigits(a, b, r, n)
    ensures Val(r[..n]) + At(Carry(a, b, n), n) + Lost(a, b, n) == Val(a[..n]) + Val(b[..n])
  {
    assert Val(r[..0]) == 0 && Val(a[..0]) == 0 && Val(b[..0]) == 0 && Carry(a, b, 0) == 0 && At(0, 0) == 0;
    hide Carry, SumDigit, DigitSum, Val, At;
    if n > 0 {
      var i := n - 1;
      SumIsExact(a, b, r, i);
      ValGrows(r, i);
      ValGrows(a, i);
      ValGrows(b, i);
      SumDigitParts(a, b, i);
      assert r[i] == SumDigit(a, b, i);
      ScaleSum(r[i], Carry(a, b, n), DigitSum(a, b, i) - DigitSum(a, b, i) % TWO_32, a[i], b[i], Carry(a, b, i), i);
    }
  }

  lemma ValGrows(d: seq<nat>, i: nat)
    requires i < |d|
    ensures Val(d[..i + 1]) == Val(d[..i]) + At(d[i], i)
  {
    ValNext(d, i);
  }

  lemma SumDigitParts(a: seq<nat>, b: seq<nat>, i: nat)
    requires |a| == |b| && i < |a|
    ensures var sum := DigitSum(a, b, i);
            SumDigit(a, b, i) + Carry(a, b, i + 1) * LIMIT + (sum - sum % TWO_32) == a[i] + b[i] + Carry(a, b, i)
  {
    hide Carry;
  }

  /** One turn of the digit loop, scaled to its place. */
  lemma ScaleSum(r: nat, c: nat, w: nat, x: nat, y: nat, z: nat, i: nat)
    requires r + c * LIMIT + w == x + y + z
    ensures At(r, i) + At(c, i + 1) + At(w, i) == At(x, i) + At(y, i) + At(z, i)
  {
    var b := Base(i);
    calc {
      At(r, i) + At(c, i + 1) + At(w, i);
      r * b + c * LIMIT * b + w * b;
      { assert (r + c * LIMIT + w) * b == r * b + c * LIMIT * b + w * b; }
      (r + c * LIMIT + w) * b;
      (x + y + z) * b;
      At(x, i) + At(y, i) + At(z, i);
    }
  }

  /** The sum's digits are normal exactly when no digit sum, with its carry, is the base itself. */
  lemma SumIsNormalExactly(a: seq<nat>, b: seq<nat>, r: seq<nat>)
    requires |a| == |b| == |r| && Normal(a) && Normal(b) && SumDigits(a, b, r, |r|)
    ensures Normal(r) <==> forall i :: 0 <= i < |a| ==> DigitSum(a, b, i) != LIMIT
    ensures forall i :: 0 <= i < |r| ==> r[i] <= LIMIT
  {
    hide SumDigits, DigitSum;
    forall i | 0 <= i < |r|
      ensures r[i] <= LIMIT && (r[i] < LIMIT <==> DigitSum(a, b, i) != LIMIT)
    {
      NormalDigit(a, b, r, i);
    }
    if Normal(r) {
      forall i | 0 <= i < |a|
        ensures DigitSum(a, b, i) != LIMIT
      {
        assert r[i] < LIMIT;
      }
    } else {
      var i :| 0 <= i < |r| && LIMIT <= r[i];
      assert DigitSum(a, b, i) == LIMIT;
    }
  }

  lemma NormalDigit(a: seq<nat>, b: seq<nat>, r: seq<nat>, i: nat)
    requires |a| == |b| == |r| && Normal(a) && Normal(b) && SumDigits(a, b, r, |r|) && i < |r|
    ensures r[i] <= LIMIT && (r[i] < LIMIT <==> DigitSum(a, b, i) != LIMIT)
  {
    hide Carry, SumDigit;
    assert r[i] == SumDigit(a, b, i) && a[i] < LIMIT && b[i] < LIMIT;
    CarryNext(a, b, i);
    assert a[i] + b[i] + Carry(a, b, i) < TWO_32;
  }

  /** A sum whose lowest digit is the base itself: the right value in digits that are not normal. */
  lemma HalfBillionTwice()
    ensures var a := [500_000_000, 0, 0, 0, 0];
            SumDigit(a, a, 0) == LIMIT && Val([LIMIT, 0, 0, 0, 0]) == Val([0, 1, 0, 0, 0])
  {
    var p, q := [LIMIT, 0, 0, 0, 0], [0, 1, 0, 0, 0];
    forall i | 0 <= i < 5
      ensures Val(p[..i + 1]) == Val(p[..i]) + p[i] * Base(i) && Val(q[..i + 1]) == Val(q[..i]) + q[i] * Base(i)
    {
      ValNext(p, i);
      ValNext(q, i);
    }
    assert Base(1) == LIMIT * Base(0);
    assert Val(p[..1]) == LIMIT && Val(q[..1]) == 0;
    assert Val(p[..2]) == LIMIT == Val(q[..2]);
    assert Val(p[..3]) == LIMIT == Val(q[..3]);
    assert Val(p[..4]) == LIMIT == Val(q[..4]);
    assert p[..5] == p && q[..5] == q;
  }

  /** The first loop of `_CFBigNumAdd`; the result may be one of the operands. */
  method AddMagnitudes(r: Num, a: Num, b: Num) returns (carry: nat)
    requires r.Valid() && a.Valid() && b.Valid()
    requires (r != a ==> r.digits != a.digits) && (r != b ==> r.digits != b.digits)
    modifies r.digits
    ensures SumDigits(old(a.digits[..]), old(b.digits[..]), r.digits[..], DIGITS)
    ensures carry == Carry(old(a.digits[..]), old(b.digits[..]), DIGITS)
  {
    hide Carry, SumDigit;
    ghost var x, y := a.digits[..], b.digits[..];
    CarryStarts(x, y);
    carry := 0;
    var i := 0;
    while i < DIGITS
      invariant 0 <= i <= DIGITS && carry == Carry(x, y, i) && SumDigits(x, y, r.digits[..], i)
      invariant forall j :: i <= j < DIGITS ==> a.digits[j] == x[j] && b.digits[j] == y[j]
    {
      CarryNext(x, y, i);
      var result;
      result, carry := AddDigit(a.digits[i], b.digits[i], carry);
      r.digits[i] := result;
      i := i + 1;
    }
  }

  lemma CarryStarts(a: seq<nat>, b: seq<nat>)
    requires |a| == |b|
    ensures Carry(a, b, 0) == 0
  {
  }

  lemma CarryNext(a: seq<nat>, b: seq<nat>, i: nat)
    requires |a| == |b| && i < |a|
    ensures Carry(a, b, i + 1) == if LIMIT < (a[i] + b[i] + Carry(a, b, i)) % TWO_32 then 1 else 0
    ensures SumDigit(a, b, i) == (a[i] + b[i] + Carry(a, b, i)) % TWO_32 - Carry(a, b, i + 1) * LIMIT
  {
  }

  /** One digit sum in 32-bit arithmetic */
  method AddDigit(x: nat, y: nat, carryIn: nat) returns (result: Uint32, carry: nat)
    ensures carry == if LIMIT < (x + y + carryIn) % TWO_32 then 1 else 0
    ensures result == (x + y + carryIn) % TWO_32 - carry * LIMIT
  {
    result := (x + y + carryIn) % TWO_32;
    carry := 0;
    if result > LIMIT {
      carry := 1;
      result := result - LIMIT;
    }
  }

  // ---------------------------------------------------------------- subtraction of magnitudes

  function Borrow(a: seq<nat>, b: seq<nat>, i: nat): (c: nat)
    requires |a| == |b| && i <= |a|
    ensures c <= 1
  {
    if i == 0 then 0
    else if a[i - 1] < b[i - 1] + Borrow(a, b, i - 1) then 1 else 0
  }

  function DifferenceDigit(a: seq<nat>, b: seq<nat>, i: nat): int
    requires |a| == |b| && i < |a|
  {
    a[i] - b[i] - Borrow(a, b, i) + Borrow(a, b, i + 1) * LIMIT
  }

  /** The digits are cut to 32 bits when they are stored. */
  predicate DifferenceDigits(a: seq<nat>, b: seq<nat>, r: seq<nat>, n: nat)
    requires |a| == |b|
  {
    n <= |a| && n <= |r| && forall i :: 0 <= i < n ==> r[i] == DifferenceDigit(a, b, i) % TWO_32
  }

  /** Every digit is within 32 bits. */
  predicate Cut(a: seq<nat>) {
    forall i :: 0 <= i < |a| ==> a[i] < TWO_32
  }

  /** What the first `n` digits gain by being cut: a negative one comes out 2^32 too large. */
  function Gained(a: seq<nat>, b: seq<nat>, n: nat): nat
    requires |a| == |b| && n <= |a|
  {
    if n == 0 then 0
    else Gained(a, b, n - 1) + At(if DifferenceDigit(a, b, n - 1) < 0 then TWO_32 else 0, n - 1)
  }

  /** One borrow from the next digit always suffices. */
  predicate NoDeficit(a: seq<nat>, b: seq<nat>) {
    |a| == |b| && forall i :: 0 <= i < |a| ==> b[i] + Borrow(a, b, i) <= a[i] + LIMIT
  }

  lemma {:induction false} NothingGained(a: seq<nat>, b: seq<nat>, n: nat)
    requires |a| == |b| && n <= |a|
    ensures Gained(a, b, n) == 0 <==> forall i :: 0 <= i < n ==> b[i] + Borrow(a, b, i) <= a[i] + LIMIT
  {
    if n > 0 {
      NothingGained(a, b, n - 1);
      AtIsZero(TWO_32, n - 1);
      assert DifferenceDigit(a, b, n - 1) < 0 <==> a[n - 1] + LIMIT < b[n - 1] + Borrow(a, b, n - 1);
    }
  }

  lemma {:induction false} DifferenceIsExact(a: seq<nat>, b: seq<nat>, r: seq<nat>, n: nat)
    requires |a| == |b| && Cut(a) && Cut(b) && DifferenceDigits(a, b, r, n)
    ensures Val(r[..n]) + Val(b[..n]) == Val(a[..n]) + At(Borrow(a, b, n), n) + Gained(a, b, n)
  {
    assert Val(r[..0]) == 0 && Val(a[..0]) == 0 && Val(b[..0]) == 0 && Borrow(a, b, 0) == 0 && At(0, 0) == 0;
    hide Borrow, DifferenceDigit, Val, At;
    if n > 0 {
      var i := n - 1;
      DifferenceIsExact(a, b, r, i);
      ValGrows(r, i);
      ValGrows(a, i);
      ValGrows(b, i);
      CutDigit(a, b, r, i);
      ScaleSum(a[i], Borrow(a, b, n), if DifferenceDigit(a, b, i) < 0 then TWO_32 else 0, r[i], b[i], Borrow(a, b, i), i);
    }
  }

  lemma CutDigit(a: seq<nat>, b: seq<nat>, r: seq<nat>, i: nat)
    requires |a| == |b| && Cut(a) && Cut(b) && i < |a| && i < |r| && r[i] == DifferenceDigit(a, b, i) % TWO_32
    ensures r[i] + b[i] + Borrow(a, b, i)
         == a[i] + Borrow(a, b, i + 1) * LIMIT + if DifferenceDigit(a, b, i) < 0 then TWO_32 else 0
  {
    assert a[i] < TWO_32 && b[i] < TWO_32;
  }

  lemma DifferenceIsNormal(a: seq<nat>, b: seq<nat>, r: seq<nat>)
    requires |a| == |b| == |r| && Normal(a) && Normal(b) && DifferenceDigits(a, b, r, |r|)
    ensures Normal(r)
  {
    forall i | 0 <= i < |r|
      ensures r[i] < LIMIT
    {
      assert r[i] == DifferenceDigit(a, b, i);
    }
  }

  /** Taking what is not above from what is not below leaves no borrow, whatever the digits. */
  lemma {:induction false} NoFinalBorrow(a: seq<nat>, b: seq<nat>)
    requires |a| == |b| && !Below(a, b)
    ensures Borrow(a, b, |a|) == 0
  {
    if a != [] {
      var n := |a| - 1;
      if a[n] == b[n] {
        NoFinalBorrow(a[..n], b[..n]);
        BorrowOfPrefix(a, b, n, n);
      }
    }
  }

  lemma {:induction false} BorrowOfPrefix(a: seq<nat>, b: seq<nat>, n: nat, i: nat)
    requires |a| == |b| && i <= n <= |a|
    ensures Borrow(a[..n], b[..n], i) == Borrow(a, b, i)
  {
    if i > 0 { BorrowOfPrefix(a, b, n, i - 1); }
  }

  /** The difference is exact but for what is gained; on normal digits nothing is, and the result is normal. */
  lemma DifferenceOfLarger(a: seq<nat>, b: seq<nat>, r: seq<nat>)
    requires |a| == |b| == |r| && Cut(a) && Cut(b) && DifferenceDigits(a, b, r, |r|) && !Below(a, b)
    ensures Borrow(a, b, |r|) == 0 && Val(r) == Val(a) - Val(b) + Gained(a, b, |r|)
    ensures Gained(a, b, |r|) == 0 <==> NoDeficit(a, b)
    ensures Normal(a) && Normal(b) ==> Normal(r)
  {
    hide Val, Base, Borrow, DifferenceDigits, Normal, Gained, Below, Cut;
    NoFinalBorrow(a, b);
    DifferenceIsExact(a, b, r, |r|);
    assert r[..|r|] == r && a[..|r|] == a && b[..|r|] == b;
    NothingGained(a, b, |r|);
    if Normal(a) && Normal(b) { DifferenceIsNormal(a, b, r); }
  }

  /** The second loop of `_CFBigNumAdd` */
  method SubtractMagnitudes(r: Num, a: Num, b: Num) returns (borrow: nat)
    requires r.Valid() && a.Valid() && b.Valid()
    requires (r != a ==> r.digits != a.digits) && (r != b ==> r.digits != b.digits)
    modifies r.digits
    ensures DifferenceDigits(old(a.digits[..]), old(b.digits[..]), r.digits[..], DIGITS)
    ensures borrow == Borrow(old(a.digits[..]), old(b.digits[..]), DIGITS)
  {
    ghost var x, y := a.digits[..], b.digits[..];
    borrow := 0;
    var i := 0;
    while i < DIGITS
      invariant 0 <= i <= DIGITS && borrow == Borrow(x, y, i) && DifferenceDigits(x, y, r.digits[..], i)
      invariant forall j :: i <= j < DIGITS ==> a.digits[j] == x[j] && b.digits[j] == y[j]
    {
      var result: int := a.digits[i] - b.digits[i] - borrow;
      if result < 0 {
        borrow := 1;
        result := result + LIMIT;
      } else {
        borrow := 0;
      }
      r.digits[i] := result % TWO_32;
      i := i + 1;
    }
  }

  /** When adding gives the sum: with equal signs no digit sum is cut, otherwise one borrow always suffices. */
  predicate AddsExactly(alike: bool, x: seq<nat>, y: seq<nat>)
    requires |x| == |y|
  {
    if alike then NoWrap(x, y, |x|) else if Below(x, y) then NoDeficit(y, x) else NoDeficit(x, y)
  }

  /** By how much the magnitude of the result is too small. */
  function Missing(alike: bool, x: seq<nat>, y: seq<nat>): int
    requires |x| == |y|
  {
    if alike then Lost(x, y, |x|) else if Below(x, y) then 0 - Gained(y, x, |x|) else 0 - Gained(x, y, |x|)
  }

  function SignedInt(sign: int, n: int): int {
    if sign < 0 then 0 - n else n
  }

  /** `_CFBigNumAdd`: the exact sum if and only if the digits add exactly, and else off by what is missing. */
  method Add(r: Num, a: Num, b: Num) returns (carry: nat)
    requires r.Valid() && a.Valid() && b.Valid()
    requires (r != a ==> r.digits != a.digits) && (r != b ==> r.digits != b.digits)
    modifies r, r.digits
    ensures r.Valid() && carry <= 1
    ensures var alike, x, y := old(a.sign) == old(b.sign), old(a.digits[..]), old(b.digits[..]);
            && r.Int() + SignedInt(r.sign, carry * Base(DIGITS) + Missing(alike, x, y)) == old(a.Int()) + old(b.Int())
            && (Missing(alike, x, y) == 0 <==> AddsExactly(alike, x, y))
            && (r.Int() + Signed(r.sign, carry * Base(DIGITS)) == old(a.Int()) + old(b.Int()) <==> AddsExactly(alike, x, y))
            && (alike ==> r.sign == old(a.sign) && SumDigits(x, y, r.digits[..], DIGITS))
            && (!alike ==> carry == 0 && r.sign == if Below(x, y) then old(b.sign) else old(a.sign))
            && (!alike && Normal(x) && Normal(y) ==> Normal(r.digits[..]))
  {
    hide Val, Base, SumDigits, Normal, NoWrap, NoDeficit, Below, Lost, Gained;
    if a.sign == b.sign {
      carry := AddAlike(r, a, b);
    } else {
      carry := AddUnlike(r, a, b);
    }
  }

  /** The branch for equal signs */
  method AddAlike(r: Num, a: Num, b: Num) returns (carry: nat)
    requires r.Valid() && a.Valid() && b.Valid() && a.sign == b.sign
    requires (r != a ==> r.digits != a.digits) && (r != b ==> r.digits != b.digits)
    modifies r, r.digits
    ensures r.Valid() && carry <= 1 && r.sign == old(a.sign)
    ensures var x, y := old(a.digits[..]), old(b.digits[..]);
            && r.Magnitude() + carry * Base(DIGITS) + Lost(x, y, DIGITS) == old(a.Magnitude()) + old(b.Magnitude())
            && (Lost(x, y, DIGITS) == 0 <==> NoWrap(x, y, |x|))
            && SumDigits(x, y, r.digits[..], DIGITS)
  {
    hide Val, Base, Carry, SumDigits, Lost, NoWrap;
    ghost var x, y := a.digits[..], b.digits[..];
    carry := AddMagnitudes(r, a, b);
    SumIsExact(x, y, r.digits[..], DIGITS);
    NothingLost(x, y, DIGITS);
    assert x[..DIGITS] == x && y[..DIGITS] == y && r.digits[..][..DIGITS] == r.digits[..];
    r.sign := a.sign;
  }

  /** The branch for different signs: the number with the lesser digits is taken from the other, whose sign the result gets. */
  method AddUnlike(r: Num, a: Num, b: Num) returns (borrow: nat)
    requires r.Valid() && a.Valid() && b.Valid() && a.sign != b.sign
    requires (r != a ==> r.digits != a.digits) && (r != b ==> r.digits != b.digits)
    modifies r, r.digits
    ensures r.Valid() && borrow == 0
    ensures var x, y := old(a.digits[..]), old(b.digits[..]);
            && r.sign == (if Below(x, y) then old(b.sign) else old(a.sign))
            && r.Int() + SignedInt(r.sign, Missing(false, x, y)) == old(a.Int()) + old(b.Int())
            && (Missing(false, x, y) == 0 <==> AddsExactly(false, x, y))
            && (Normal(x) && Normal(y) ==> Normal(r.digits[..]))
  {
    hide Val, Borrow, DifferenceDigits, Normal, Below, Gained, NoDeficit, Cut;
    ghost var x, y := a.digits[..], b.digits[..];
    CutDigits(a);
    CutDigits(b);
    var less := AbsoluteLessThan(a, b);
    if less { NotBothBelow(x, y); }
    var big, small := if less then b else a, if less then a else b;
    borrow := SubtractMagnitudes(r, big, small);
    DifferenceOfLarger(if less then y else x, if less then x else y, r.digits[..]);
    r.sign := if big.sign < 0 then -1 else 0;
  }

  lemma CutDigits(a: Num)
    ensures Cut(a.digits[..])
  {
  }

  lemma {:induction false} NotBothBelow(a: seq<nat>, b: seq<nat>)
    requires |a| == |b| && Below(a, b)
    ensures !Below(b, a)
  {
    var n := |a| - 1;
    if a[n] == b[n] { NotBothBelow(a[..n], b[..n]); }
  }

  /** Normal digits always add exactly. */
  lemma NormalAddsExactly(alike: bool, x: seq<nat>, y: seq<nat>)
    requires |x| == |y| && Normal(x) && Normal(y)
    ensures AddsExactly(alike, x, y)
  {
  }

  /**
    Digits up to the base, which is what sums of normal digits have, add exactly when the signs agree.
    When they do not, it takes a borrow into a zero below which the base itself is to be taken off.
   */
  lemma NearlyNormalAdds(alike: bool, x: seq<nat>, y: seq<nat>)
    requires |x| == |y| && (forall i :: 0 <= i < |x| ==> x[i] <= LIMIT && y[i] <= LIMIT)
    ensures alike ==> AddsExactly(alike, x, y)
    ensures !alike ==>
              var big, small := if Below(x, y) then y else x, if Below(x, y) then x else y;
              AddsExactly(alike, x, y) <==>
              forall i :: 0 <= i < |x| ==> !(small[i] == LIMIT && big[i] == 0 && Borrow(big, small, i) == 1)
  {
    hide Below;
  }

  /** 500000000500000000 doubled, from which 10^18 is taken: the second digit would be -1. */
  lemma DoubledLessBillionSquared()
    ensures var half, doubled, square := [500_000_000, 500_000_000, 0, 0, 0], [LIMIT, LIMIT, 0, 0, 0], [0, 0, 1, 0, 0];
            && SumDigits(half, half, doubled, 5) && Below(doubled, square)
            && DifferenceDigit(square, doubled, 1) == -1 && !AddsExactly(false, doubled, square)
  {
    var doubled, square := [LIMIT, LIMIT, 0, 0, 0], [0, 0, 1, 0, 0];
    HalvesDoubled();
    BelowAt(doubled, square, 2);
    hide SumDigits, Below;
    assert Borrow(square, doubled, 1) == 1 && Borrow(square, doubled, 2) == 1;
    assert square[1] + LIMIT < doubled[1] + Borrow(square, doubled, 1);
  }

  lemma HalvesDoubled()
    ensures SumDigits([500_000_000, 500_000_000, 0, 0, 0], [500_000_000, 500_000_000, 0, 0, 0], [LIMIT, LIMIT, 0, 0, 0], 5)
  {
    var half := [500_000_000, 500_000_000, 0, 0, 0];
    hide Carry;
    CarryStarts(half, half);
    CarryNext(half, half, 0);
    CarryNext(half, half, 1);
    CarryNext(half, half, 2);
    CarryNext(half, half, 3);
    CarryNext(half, half, 4);
  }

  predicate AllZero(d: seq<nat>) {
    forall i :: 0 <= i < |d| ==> d[i] == 0
  }

  /** `_CFBigNumNeg`: a zero keeps its sign. */
  method Neg(r: Num, a: Num)
    requires r.Valid() && a.Valid() && (r != a ==> r.digits != a.digits)
    modifies r, r.digits
    ensures r.Valid() && r.digits[..] == old(a.digits[..]) && r.Int() == -old(a.Int())
    ensures r.sign != old(a.sign) <==> !AllZero(old(a.digits[..]))
  {
    ghost var x := a.digits[..];
    forall i | 0 <= i < DIGITS { r.digits[i] := a.digits[i]; }
    r.sign := a.sign;
    assert r.digits[..] == x;
    var aIsZero := true;
    var i := 0;
    while i < DIGITS
      invariant 0 <= i <= DIGITS && aIsZero && forall j :: 0 <= j < i ==> x[j] == 0
    {
      if r.digits[i] != 0 {
        aIsZero := false;
        break;
      }
      i := i + 1;
    }
    if aIsZero {
      ValOfZeros(x);
    } else {
      r.sign := r.sign * r.sign - 1;
    }
  }

  lemma {:induction false} ValOfZeros(d: seq<nat>)
    requires forall i :: 0 <= i < |d| ==> d[i] == 0
    ensures Val(d) == 0
  {
    if d != [] { ValOfZeros(d[..|d| - 1]); }
  }

  /** `_CFBigNumSub`: adding the negated number, where a zero keeps its sign. */
  method Sub(r: Num, a: Num, b: Num) returns (carry: nat)
    requires r.Valid() && a.Valid() && b.Valid()
    requires (r != a ==> r.digits != a.digits) && (r != b ==> r.digits != b.digits)
    modifies r, r.digits
    ensures r.Valid() && carry <= 1
    ensures var x, y := old(a.digits[..]), old(b.digits[..]);
            var alike := (old(a.sign) == old(b.sign)) == AllZero(y);
            && (r.Int() + Signed(r.sign, carry * Base(DIGITS)) == old(a.Int()) - old(b.Int()) <==> AddsExactly(alike, x, y))
            && (!alike ==> carry == 0)
            && (!alike && Normal(x) && Normal(y) ==> Normal(r.digits[..]))
  {
    hide Val, Base, SumDigits, Normal, AddsExactly, Missing, Below;
    var nb := new Num();
    Neg(nb, b);
    carry := Add(r, a, nb);
  }
}

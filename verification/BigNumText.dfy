/** Big numbers as machine integers and as decimal text. */
module BigNumText {
  import opened BigNum
  import Bytes

  // ---------------------------------------------------------------- machine integers

  const TWO_127: nat := 0x8000_0000_0000_0000_0000_0000_0000_0000
  const TWO_128: nat := 0x1_0000_0000_0000_0000_0000_0000_0000_0000
  const LIMIT_2: nat := LIMIT * LIMIT
  const LIMIT_3: nat := LIMIT_2 * LIMIT
  const LIMIT_4: nat := LIMIT_3 * LIMIT

  lemma ValOfFive(d: seq<nat>)
    requires |d| == 5
    ensures Val(d) == d[0] + d[1] * LIMIT + d[2] * LIMIT_2 + d[3] * LIMIT_3 + d[4] * LIMIT_4
  {
    ValNext(d, 0);
    ValNext(d, 1);
    ValNext(d, 2);
    ValNext(d, 3);
    ValNext(d, 4);
    assert d[..0] == [] && d[..5] == d;
    assert Base(1) == LIMIT && Base(2) == LIMIT_2 && Base(3) == LIMIT_3 && Base(4) == LIMIT_4;
  }

  /** `_CFBigNumInitWithInt128`: exact and normal for every number; the narrower forms split off fewer digits the same way. */
  method InitWithInt128(r: Num, inNum: int)
    requires r.Valid() && 0 - TWO_127 <= inNum < TWO_127
    modifies r, r.digits
    ensures r.Valid() && Normal(r.digits[..]) && r.Int() == inNum && (r.sign < 0 <==> inNum < 0)
  {
    hide Val;
    r.sign := 0;
    var n: nat := if inNum < 0 then -inNum else inNum;
    if inNum < 0 { r.sign := -1; }
    var dig4, rest4 := SplitOff(n, LIMIT_4);
    var dig3, rest3 := SplitOff(rest4, LIMIT_3);
    var dig2, rest2 := SplitOff(rest3, LIMIT_2);
    var dig1, rest1 := SplitOff(rest2, LIMIT);
    r.digits[0], r.digits[1], r.digits[2], r.digits[3], r.digits[4] := rest1, dig1, dig2, dig3, dig4;
    ValOfFive(r.digits[..]);
  }

  /** One digit and the remainder below it, as the `GET_…_DIGIT` macros compute them. */
  method SplitOff(n: nat, unit: nat) returns (digit: nat, rest: nat)
    requires 0 < unit && n < LIMIT * unit
    ensures n == digit * unit + rest && rest < unit && digit < LIMIT
  {
    digit := n / unit;
    rest := n - digit * unit;
    assert (LIMIT - digit) * unit == LIMIT * unit - digit * unit > 0;
  }

  /** The two's complement number of 128 bits with the residue of `n`. */
  function Wrap128(n: int): int {
    var m := n % TWO_128;
    if m < TWO_127 then m else m - TWO_128
  }

  /** `_CFBigNumGetInt128` is exact for every number that fits 128 bits. */
  method GetInt128(num: Num) returns (result: int)
    requires num.Valid()
    ensures result == Wrap128(num.Int())
    ensures 0 - TWO_127 <= result < TWO_127 && (num.Int() - result) % TWO_128 == 0
    ensures 0 - TWO_127 <= num.Int() < TWO_127 ==> result == num.Int()
  {
    hide Val, Wrap128;
    ValOfFive(num.digits[..]);
    var n: int := num.digits[0] + num.digits[1] * LIMIT + num.digits[2] * LIMIT_2 + num.digits[3] * LIMIT_3
                + num.digits[4] * LIMIT_4;
    if num.sign < 0 { n := -n; }
    WrapsExactly(n);
    result := Wrap128(n);
  }

  lemma WrapsExactly(n: int)
    ensures 0 - TWO_127 <= Wrap128(n) < TWO_127 && (n - Wrap128(n)) % TWO_128 == 0
    ensures 0 - TWO_127 <= n < TWO_127 ==> Wrap128(n) == n
  {
    var q, m := n / TWO_128, n % TWO_128;
    assert n - m == TWO_128 * q && n - (m - TWO_128) == TWO_128 * (q + 1);
  }

  // ---------------------------------------------------------------- decimal text

  predicate Digit(c: char) {
    '0' <= c <= '9'
  }

  predicate Decimal(s: string) {
    forall i :: 0 <= i < |s| ==> Digit(s[i])
  }

  function Pow10(n: nat): (p: nat)
    ensures 0 < p
  {
    if n == 0 then 1 else 10 * Pow10(n - 1)
  }

  /** The number a string of digits denotes: what `atol` returns for it. */
  function DecVal(s: string): nat
    requires Decimal(s)
  {
    if s == [] then 0 else 10 * DecVal(s[..|s| - 1]) + (s[|s| - 1] as int - '0' as int)
  }

  /** `d` in `w` digits: `%09u` for `w` of 9 and a digit below one billion */
  function Padded(d: nat, w: nat): (s: string)
    ensures |s| == w && Decimal(s)
  {
    if w == 0 then [] else Padded(d / 10, w - 1) + [(d % 10 + '0' as int) as char]
  }

  lemma {:induction false} DecValOfPadded(d: nat, w: nat)
    requires d < Pow10(w)
    ensures DecVal(Padded(d, w)) == d
  {
    if w > 0 {
      DecValOfPadded(d / 10, w - 1);
    }
  }

  lemma {:induction false} DecValConcat(s: string, t: string)
    requires Decimal(s) && Decimal(t)
    ensures Decimal(s + t) && DecVal(s + t) == DecVal(s) * Pow10(|t|) + DecVal(t)
    decreases |t|
  {
    if t == [] {
      assert s + t == s;
    } else {
      var n := |t| - 1;
      DecValConcat(s, t[..n]);
      assert (s + t)[..|s| + n] == s + t[..n];
      TimesTen(DecVal(s), Pow10(n), DecVal(t[..n]));
    }
  }

  lemma TimesTen(x: nat, p: nat, y: nat)
    ensures 10 * (x * p + y) == x * (10 * p) + 10 * y
  {
  }

  lemma {:induction false} DecValBound(s: string)
    requires Decimal(s)
    ensures DecVal(s) < Pow10(|s|)
  {
    if s != [] { DecValBound(s[..|s| - 1]); }
  }

  /** Without a leading zero, the number of digits bounds the value from below. */
  lemma {:induction false} DecValAtLeast(s: string)
    requires Decimal(s) && s != [] && s[0] != '0'
    ensures Pow10(|s| - 1) <= DecVal(s)
  {
    if |s| > 1 { DecValAtLeast(s[..|s| - 1]); } else { assert s[..0] == []; }
  }

  lemma {:induction false} DecValOfZeros(s: string)
    requires forall i :: 0 <= i < |s| ==> s[i] == '0'
    ensures Decimal(s) && DecVal(s) == 0
  {
    if s != [] { DecValOfZeros(s[..|s| - 1]); }
  }

  lemma {:induction false} Pow10Grows(i: nat, j: nat)
    requires i <= j
    ensures Pow10(i) <= Pow10(j)
    decreases j
  {
    if i < j { Pow10Grows(i, j - 1); }
  }

  lemma {:induction false} Pow10Base(n: nat)
    ensures Pow10(9 * n) == Base(n)
  {
    if n > 0 {
      Pow10Base(n - 1);
      Pow10Nine(9 * (n - 1));
    }
  }

  lemma Pow10Three(k: nat)
    ensures Pow10(k + 3) == 1000 * Pow10(k)
  {
    assert Pow10(k + 1) == 10 * Pow10(k);
    assert Pow10(k + 2) == 10 * Pow10(k + 1);
    assert Pow10(k + 3) == 10 * Pow10(k + 2);
  }

  lemma Pow10Nine(k: nat)
    ensures Pow10(k + 9) == LIMIT * Pow10(k)
  {
    Pow10Three(k);
    Pow10Three(k + 3);
    Pow10Three(k + 6);
  }

  /** `%09u`: nine digits, or the ten a number from one billion on has. */
  function Printed(d: nat): (s: string)
    ensures Decimal(s) && 9 <= |s|
  {
    Padded(d, if d < LIMIT then 9 else 10)
  }

  /** All digits, most significant first. */
  function Text(d: seq<nat>): (s: string)
    ensures 9 * |d| <= |s| && Decimal(s)
  {
    if d == [] then [] else Printed(d[|d| - 1]) + Text(d[..|d| - 1])
  }

  /** What a buffer for nine characters a digit takes of them. */
  function Tmp(d: seq<nat>): (s: string)
    ensures |s| == 9 * |d| && Decimal(s)
  {
    Text(d)[..9 * |d|]
  }

  /** The buffer spells the value exactly when the digits are normal, and else a lesser number. */
  lemma {:induction false} TextDenotes(d: seq<nat>)
    requires Cut(d)
    ensures DecVal(Tmp(d)) <= Val(d) && (DecVal(Tmp(d)) == Val(d) <==> Normal(d))
  {
    hide DecVal, Padded, Pow10, Base;
    if d == [] {
      EmptyDenotes();
    } else {
      var n := |d| - 1;
      TextDenotes(d[..n]);
      if d[n] < LIMIT {
        NormalTop(d);
      } else {
        LargeTop(d);
        assert !Normal(d);
      }
    }
  }

  lemma EmptyDenotes()
    ensures DecVal([]) == 0
  {
  }

  lemma NormalTop(d: seq<nat>)
    requires d != [] && d[|d| - 1] < LIMIT
    ensures var n := |d| - 1; DecVal(Tmp(d)) == DecVal(Tmp(d[..n])) + d[n] * Base(n)
  {
    hide DecVal, Padded, Pow10, Base;
    var n := |d| - 1;
    var top, rest := Padded(d[n], 9), Text(d[..n]);
    assert (top + rest)[..9 * n + 9] == top + rest[..9 * n];
    LimitIsPow10();
    DecValOfPadded(d[n], 9);
    DecValConcat(top, rest[..9 * n]);
    Pow10Base(n);
  }

  lemma LargeTop(d: seq<nat>)
    requires d != [] && LIMIT <= d[|d| - 1] < TWO_32
    ensures DecVal(Tmp(d)) < Val(d)
  {
    hide DecVal, Tmp, Pow10, Base, Val;
    var n := |d| - 1;
    if n == 0 {
      LargeAlone(d);
    } else {
      LargeAbove(d);
      ValNext(d, n);
      assert d[..n + 1] == d;
      Pow10Base(n);
      TenFold(9 * n - 1);
      TimesTenIsMore(d[n], Pow10(9 * n - 1));
    }
  }

  lemma LargeAlone(d: seq<nat>)
    requires |d| == 1 && LIMIT <= d[0] < TWO_32
    ensures DecVal(Tmp(d)) < Val(d)
  {
    hide DecVal, Padded, Pow10, Base, Val;
    Pow10Ten();
    PaddedPrefix(d[0]);
    DecValOfPadded(d[0] / 10, 9);
    assert Tmp(d) == Padded(d[0], 10)[..9];
    OneDigit(d);
  }

  /** With ten characters for the top digit, the buffer ends one character early. */
  lemma LargeAbove(d: seq<nat>)
    requires 1 < |d| && LIMIT <= d[|d| - 1] < TWO_32
    ensures var n := |d| - 1; DecVal(Tmp(d)) < d[n] * Pow10(9 * n - 1) + Pow10(9 * n - 1)
  {
    hide DecVal, Padded, Pow10, Text;
    var n := |d| - 1;
    var top, low := Padded(d[n], 10), Text(d[..n])[..9 * n - 1];
    TmpOfLarge(d);
    Pow10Ten();
    DecValOfPadded(d[n], 10);
    DecValConcat(top, low);
    DecValBound(low);
  }

  lemma TmpOfLarge(d: seq<nat>)
    requires 1 < |d| && LIMIT <= d[|d| - 1]
    ensures var n := |d| - 1; Tmp(d) == Padded(d[n], 10) + Text(d[..n])[..9 * n - 1]
  {
    var n := |d| - 1;
    var top, rest := Padded(d[n], 10), Text(d[..n]);
    assert Text(d) == top + rest;
    assert (top + rest)[..9 * n + 9] == top + rest[..9 * n - 1];
  }

  lemma Pow10Ten()
    ensures Pow10(9) == LIMIT && Pow10(10) == 10 * LIMIT
  {
    LimitIsPow10();
  }

  lemma TenFold(k: nat)
    ensures Pow10(k + 1) == 10 * Pow10(k)
  {
  }

  lemma PaddedPrefix(d: nat)
    ensures Padded(d, 10)[..9] == Padded(d / 10, 9)
  {
  }

  lemma OneDigit(d: seq<nat>)
    requires |d| == 1
    ensures Val(d) == d[0]
  {
    assert d[..0] == [] && Base(0) == 1;
  }

  lemma TimesTenIsMore(x: nat, p: nat)
    requires 0 < x && 0 < p
    ensures x * p + p <= x * (10 * p)
  {
    assert x * (10 * p) == 10 * (x * p);
    assert x * p == p + (x - 1) * p && 0 <= (x - 1) * p;
  }

  // ---------------------------------------------------------------- writing

  function DigitChar(d: nat): (c: char)
    requires d < 10
    ensures Digit(c) && c as int == d + '0' as int
  {
    (d + '0' as int) as char
  }

  /** A number in decimal, without leading zeros. */
  function Decimals(n: nat): (s: string)
    ensures s != [] && Decimal(s)
  {
    (if n < 10 then [] else Decimals(n / 10)) + [DigitChar(n % 10)]
  }

  lemma {:induction false} DecimalsDenote(n: nat)
    ensures DecVal(Decimals(n)) == n && (n == 0 || Decimals(n)[0] != '0')
  {
    var s := Decimals(n);
    DecValLast(s);
    hide DecVal, DigitChar;
    if n < 10 {
      NoDigits();
      assert s[..0] == [];
    } else {
      DecimalsDenote(n / 10);
      assert s[..|s| - 1] == Decimals(n / 10);
    }
  }

  function DigitVal(c: char): (d: nat)
    requires Digit(c)
    ensures d < 10
  {
    c as int - '0' as int
  }

  lemma CharOfVal(c: char)
    requires Digit(c)
    ensures DigitChar(DigitVal(c)) == c
  {
  }

  lemma DecValLast(s: string)
    requires Decimal(s) && s != []
    ensures var k := |s| - 1; Decimal(s[..k]) && Digit(s[k]) && DecVal(s) == 10 * DecVal(s[..k]) + DigitVal(s[k])
  {
  }

  /** There is only one such text: digits without a leading zero are the decimals of their number. */
  lemma {:induction false} ShortestIsDecimals(s: string)
    requires Decimal(s) && s != [] && (s == "0" || s[0] != '0')
    ensures s == Decimals(DecVal(s))
  {
    hide DecVal, Decimals, Decimal, Digit, DigitVal;
    var k := |s| - 1;
    DecValLast(s);
    if k == 0 {
      OnlyDigit(s);
    } else {
      ShortestFront(s);
      ShortestIsDecimals(s[..k]);
      DecimalsNext(DecVal(s[..k]), s[k]);
      assert s == s[..k] + [s[k]];
    }
  }

  lemma OnlyDigit(s: string)
    requires |s| == 1 && Decimal(s)
    ensures s == Decimals(DecVal(s))
  {
    hide Decimals, DigitVal;
    assert Digit(s[0]) && s[..0] == [];
    DecValLast(s);
    NoDigits();
    OneDecimal(s[0]);
    assert s == [s[0]];
  }

  lemma ShortestFront(s: string)
    requires Decimal(s) && 1 < |s| && s[0] != '0'
    ensures var t := s[..|s| - 1]; Decimal(t) && t != [] && t[0] != '0' && 1 <= DecVal(t)
  {
    hide DecVal, Pow10;
    DecValAtLeast(s[..|s| - 1]);
  }

  lemma OneDecimal(c: char)
    requires Digit(c)
    ensures Decimals(DigitVal(c)) == [c]
  {
    hide DigitChar, DigitVal;
    CharOfVal(c);
  }

  lemma DecimalsNext(x: nat, c: char)
    requires 1 <= x && Digit(c)
    ensures Decimals(10 * x + DigitVal(c)) == Decimals(x) + [c]
  {
    hide DigitChar, DigitVal;
    TenAndOne(x, DigitVal(c));
    CharOfVal(c);
  }

  lemma TenAndOne(x: nat, d: nat)
    requires d < 10
    ensures (10 * x + d) / 10 == x && (10 * x + d) % 10 == d
  {
  }

  /** What `%09u` prints: the decimals of the number, padded with zeros to nine characters. */
  lemma PrintedIsPadded(d: nat)
    requires d < TWO_32
    ensures var digits := Decimals(d); Printed(d) == Zeros(if |digits| < 9 then 9 - |digits| else 0) + digits
  {
    hide DecVal, Pow10, Padded, Decimals;
    var s, w := Printed(d), if d < LIMIT then 9 else 10;
    Pow10Ten();
    DecValOfPadded(d, w);
    DropZerosKeeps(s);
    DropsOnlyZeros(s);
    if DropZeros(s) == [] {
      AllDropped(s);
      NoDigits();
      assert s == Zeros(8) + "0";
      ShortestIsDecimals("0");
      OneZero();
    } else {
      ShortestIsDecimals(DropZeros(s));
      LargeKeepsAll(d, s);
    }
  }

  lemma OneZero()
    ensures DecVal("0") == 0
  {
    assert "0"[..0] == [];
  }

  /** Ten digits that denote one billion or more start with none that is zero. */
  lemma LargeKeepsAll(d: nat, s: string)
    requires Decimal(s) && DecVal(s) == d && |s| == (if d < LIMIT then 9 else 10) && DropZeros(s) != []
    ensures LIMIT <= d ==> |DropZeros(s)| == 10
  {
    hide DecVal, Pow10;
    DropZerosKeeps(s);
    if |DropZeros(s)| <= 9 { NineDigits(DropZeros(s)); }
  }

  lemma {:induction false} DropsOnlyZeros(s: string)
    ensures |DropZeros(s)| <= |s| && s == Zeros(|s| - |DropZeros(s)|) + DropZeros(s)
  {
    if s != [] && s[0] == '0' {
      DropsOnlyZeros(s[1..]);
      assert s == ['0'] + s[1..];
    }
  }

  function SignText(sign: int, leadingPlus: bool): string {
    if sign < 0 then "-" else if leadingPlus then "+" else ""
  }

  function Zeros(n: nat): string {
    seq(n, _ => '0')
  }

  function DropZeros(s: string): string {
    if s != [] && s[0] == '0' then DropZeros(s[1..]) else s
  }

  /** The digits from the first one that is not zero, or the last zero. */
  function Shortest(s: string): string
    requires s != []
  {
    if DropZeros(s) == [] then s[|s| - 1..] else DropZeros(s)
  }

  lemma {:induction false} DropZerosKeeps(s: string)
    requires Decimal(s)
    ensures var t := DropZeros(s); |t| <= |s| && Decimal(t) && DecVal(t) == DecVal(s) && (t != [] ==> t[0] != '0')
  {
    if s != [] && s[0] == '0' {
      DropZerosKeeps(s[1..]);
      assert s == s[..1] + s[1..];
      DecValOfZeros(s[..1]);
      DecValConcat(s[..1], s[1..]);
    }
  }

  lemma {:induction false} AllDropped(s: string)
    requires DropZeros(s) == []
    ensures forall i :: 0 <= i < |s| ==> s[i] == '0'
  {
    if s != [] { AllDropped(s[1..]); }
  }

  lemma ShortestKeeps(s: string)
    requires Decimal(s) && s != []
    ensures var t := Shortest(s); 0 < |t| <= |s| && Decimal(t) && DecVal(t) == DecVal(s) && (t == "0" || t[0] != '0')
  {
    hide DecVal;
    DropZerosKeeps(s);
    if DropZeros(s) == [] {
      AllDropped(s);
      DecValOfZeros(s);
      DecValOfZeros(s[|s| - 1..]);
    }
  }

  /** The last `m` digits of a text are its number modulo 10^m. */
  lemma TailIsMod(s: string, m: nat)
    requires Decimal(s) && m <= |s|
    ensures var t := s[|s| - m..]; Decimal(t) && DecVal(t) <= DecVal(s) && (DecVal(t) == DecVal(s) <==> DecVal(s) < Pow10(m))
    ensures DecVal(s[|s| - m..]) == DecVal(s) % Pow10(m)
  {
    hide DecVal, Pow10;
    var front, t := s[..|s| - m], s[|s| - m..];
    assert s == front + t;
    DecValConcat(front, t);
    DecValBound(t);
    SplitAt(DecVal(front), Pow10(m), DecVal(t));
  }

  lemma SplitAt(x: nat, p: nat, y: nat)
    requires y < p
    ensures (x * p + y) % p == y && y <= x * p + y && (y == x * p + y <==> x * p + y < p)
  {
    if x > 0 { assert x * p == p + (x - 1) * p && 0 <= (x - 1) * p; }
    assert x * p + y == p * x + y;
    Bytes.ModUnique(x * p + y, p, x, y);
  }

  /** The first `m` digits of a shortest text are its number exactly when there are no more. */
  lemma CutText(full: string, m: nat)
    requires Decimal(full) && full != [] && (full == "0" || full[0] != '0')
    ensures var t := full[..if m < |full| then m else |full|];
            Decimal(t) && DecVal(t) <= DecVal(full) && (DecVal(t) == DecVal(full) <==> DecVal(full) < Pow10(m))
  {
    hide DecVal, Pow10;
    if m < |full| {
      var t, rest := full[..m], full[m..];
      assert full == t + rest;
      DecValConcat(t, rest);
      DecValBound(t);
      AtLeastOnce(DecVal(t), Pow10(|rest|));
      if m == 0 {
        NoDigits();
      } else {
        DecValAtLeast(full);
        Pow10Grows(m, |full| - 1);
      }
    } else {
      DecValBound(full);
      Pow10Grows(|full|, m);
      assert full[..|full|] == full;
    }
  }

  lemma NoDigits()
    ensures DecVal([]) == 0 && Pow10(0) == 1
  {
  }

  lemma AtLeastOnce(x: nat, p: nat)
    requires 0 < p
    ensures x <= x * p
  {
    assert x * p == x + x * (p - 1) && 0 <= x * (p - 1);
  }

  /** What `_CFBigNumToCString` puts after the sign into a buffer for `room` bytes, the final zero byte included. */
  function Body(tmp: string, leadingZeros: bool, room: nat): string
    requires tmp != [] && 0 < room
  {
    if leadingZeros then
      var all := Zeros(room) + tmp;
      all[|all| - (room - 1)..]
    else
      var full := Shortest(tmp);
      full[..if room - 1 < |full| then room - 1 else |full|]
  }

  /**
    What follows the sign for the number `n` and `m` characters of room: the first ones of its decimals,
    or, with leading zeros, exactly `m` characters, which are the last ones of its decimals after zeros.
   */
  ghost predicate ToText(body: string, leadingZeros: bool, n: nat, m: nat) {
    var digits := Decimals(n);
    if !leadingZeros then body == digits[..if m < |digits| then m else |digits|]
    else if m < |digits| then body == digits[|digits| - m..]
    else body == Zeros(m - |digits|) + digits
  }

  lemma NoLeadingZero(body: string, n: nat, m: nat)
    requires ToText(body, false, n, m)
    ensures body == "" || body == "0" || body[0] != '0'
  {
    DecimalsDenote(n);
    if n == 0 { assert Decimals(0) == "0"; }
  }

  lemma BodyIsText(tmp: string, leadingZeros: bool, room: nat)
    requires Decimal(tmp) && tmp != [] && 0 < room
    ensures ToText(Body(tmp, leadingZeros, room), leadingZeros, DecVal(tmp), room - 1)
  {
    hide DecVal, Decimals, DropZeros, Shortest, Zeros, Decimal, Digit;
    ShortestKeeps(tmp);
    var full := Shortest(tmp);
    ShortestIsDecimals(full);
    assert Decimals(DecVal(tmp)) == full;
    if leadingZeros {
      PaddedShortest(tmp);
      LastOfPadded(tmp, full, room);
    }
  }

  lemma LastOfPadded(tmp: string, digits: string, room: nat)
    requires |digits| <= |tmp| && tmp == Zeros(|tmp| - |digits|) + digits && 0 < room
    ensures var all, m := Zeros(room) + tmp, room - 1;
            all[|all| - m..] == if m < |digits| then digits[|digits| - m..] else Zeros(m - |digits|) + digits
  {
    var all, m := Zeros(room) + tmp, room - 1;
    var tail := all[|all| - m..];
    if m < |digits| {
      var want := digits[|digits| - m..];
      assert forall i :: 0 <= i < m ==> tail[i] == want[i];
    } else {
      var want := Zeros(m - |digits|) + digits;
      forall i | 0 <= i < m
        ensures tail[i] == want[i]
      {
        assert tail[i] == all[|all| - m + i];
      }
    }
  }

  lemma PaddedShortest(tmp: string)
    requires tmp != []
    ensures |Shortest(tmp)| <= |tmp| && tmp == Zeros(|tmp| - |Shortest(tmp)|) + Shortest(tmp)
  {
    DropsOnlyZeros(tmp);
  }

  lemma BodyDenotes(tmp: string, leadingZeros: bool, room: nat)
    requires Decimal(tmp) && tmp != [] && 0 < room
    ensures var body, n := Body(tmp, leadingZeros, room), DecVal(tmp);
            && |body| < room && Decimal(body) && DecVal(body) <= n && (DecVal(body) == n <==> n < Pow10(room - 1))
            && (leadingZeros ==> |body| == room - 1 && DecVal(body) == n % Pow10(room - 1))
  {
    hide DecVal, Pow10, Shortest;
    if leadingZeros {
      DecValOfZeros(Zeros(room));
      DecValConcat(Zeros(room), tmp);
      TailIsMod(Zeros(room) + tmp, room - 1);
    } else {
      ShortestKeeps(tmp);
      CutText(Shortest(tmp), room - 1);
    }
  }

  /**
    `_CFBigNumToCString` into a buffer that has room for the sign and the final zero byte. The text spells
    the magnitude exactly when the digits are normal and the magnitude has no more digits than there is room for.
   */
  method ToCString(num: Num, leadingZeros: bool, leadingPlus: bool, buflen: nat) returns (s: string)
    requires num.Valid() && |SignText(num.sign, leadingPlus)| < buflen
    ensures var head := SignText(num.sign, leadingPlus);
            var room := buflen - |head|;
            && s == head + Body(Tmp(num.digits[..]), leadingZeros, room)
            && |s| < buflen && Decimal(s[|head|..]) && DecVal(s[|head|..]) < Base(DIGITS)
            && ToText(s[|head|..], leadingZeros, DecVal(Tmp(num.digits[..])), room - 1)
            && (Normal(num.digits[..]) ==> ToText(s[|head|..], leadingZeros, num.Magnitude(), room - 1))
            && (DecVal(s[|head|..]) == num.Magnitude() <==> Normal(num.digits[..]) && num.Magnitude() < Pow10(room - 1))
    ensures !leadingZeros ==>
              var body := s[|SignText(num.sign, leadingPlus)|..]; body == "" || body == "0" || body[0] != '0'
    ensures num.sign < 0 <==> "-" <= s
    ensures 0 <= num.sign && leadingPlus <==> "+" <= s
  {
    hide ToText, Tmp, DecVal, Val, Normal, Body, Base, Cut, Pow10;
    var head := SignText(num.sign, leadingPlus);
    var room := buflen - |head|;
    var tmp := Tmp(num.digits[..]);
    CutDigits(num);
    TextDenotes(num.digits[..]);
    DecValBound(tmp);
    Pow10Base(DIGITS);
    var body;
    if leadingZeros {
      body := FillAndCopy(tmp, room);
    } else {
      body := CopyStripped(tmp, room);
    }
    BodyDenotes(tmp, leadingZeros, room);
    BodyIsText(tmp, leadingZeros, room);
    s := head + body;
    assert s[|head|..] == body;
    SignIsFirst(num.sign, leadingPlus, body);
    if !leadingZeros { NoLeadingZero(body, DecVal(tmp), room - 1); }
  }

  lemma SignIsFirst(sign: int, leadingPlus: bool, body: string)
    requires Decimal(body)
    ensures var s := SignText(sign, leadingPlus) + body;
            (sign < 0 <==> "-" <= s) && (0 <= sign && leadingPlus <==> "+" <= s)
  {
    var s := SignText(sign, leadingPlus) + body;
    assert s != [] && body != [] && s[0] == body[0] ==> s[0] != '-' && s[0] != '+';
  }

  /** The buffer filled with zeros, and over its end the end of the text with the final zero byte. */
  method FillAndCopy(tmp: string, room: nat) returns (body: string)
    requires |tmp| == 45 && 0 < room
    ensures body == Body(tmp, true, room)
  {
    var tocopy := if 46 < room then 46 else room;
    body := Zeros(room - tocopy) + tmp[46 - tocopy..];
    var all := Zeros(room) + tmp;
    var tail := all[|all| - (room - 1)..];
    assert forall i :: 0 <= i < room - 1 ==> body[i] == tail[i];
  }

  /** The pointer loop over leading zeros, keeping one when there is nothing else, and `strlcpy`. */
  method CopyStripped(tmp: string, room: nat) returns (body: string)
    requires tmp != [] && 0 < room
    ensures body == Body(tmp, false, room)
  {
    hide Shortest;
    var k := SkipZeros(tmp, 0);
    ShortestFrom(tmp, k);
    if k == |tmp| { k := k - 1; }
    var full := tmp[k..];
    body := full[..if room - 1 < |full| then room - 1 else |full|];
  }

  lemma ShortestFrom(tmp: string, k: nat)
    requires tmp != [] && k <= |tmp| && DropZeros(tmp) == tmp[k..]
    ensures Shortest(tmp) == if k == |tmp| then tmp[k - 1..] else tmp[k..]
  {
  }

  method SkipZeros(s: string, from: nat) returns (k: nat)
    requires from <= |s|
    ensures from <= k <= |s| && s[k..] == DropZeros(s[from..])
  {
    k := from;
    while k < |s| && s[k] == '0'
      invariant from <= k <= |s| && DropZeros(s[k..]) == DropZeros(s[from..])
    {
      assert s[k..][1..] == s[k + 1..];
      k := k + 1;
    }
  }

  // ---------------------------------------------------------------- reading

  const LONG_MAX: nat := 0x7FFF_FFFF_FFFF_FFFF

  /** `isspace` */
  predicate Space(c: char) {
    c == ' ' || '\t' <= c <= '\r'
  }

  function SkipSpace(s: string): string {
    if s != [] && Space(s[0]) then SkipSpace(s[1..]) else s
  }

  /** The text after an optional sign. */
  function Unsigned(s: string): string {
    if s != [] && (s[0] == '-' || s[0] == '+') then s[1..] else s
  }

  /** The digits a text starts with. */
  function Leading(s: string): (t: string)
    ensures Decimal(t)
  {
    if s != [] && Digit(s[0]) then [s[0]] + Leading(s[1..]) else []
  }

  /** `atol`: space, a sign, digits, and anything after them ignored; the result stays within 64 bits. */
  function Atol(s: string): int {
    var t := SkipSpace(s);
    var n := DecVal(Leading(Unsigned(t)));
    if t != [] && t[0] == '-' then (if LONG_MAX < n then 0 - LONG_MAX - 1 else 0 - n)
    else if LONG_MAX < n then LONG_MAX else n
  }

  /** The number `atol` finds: after any space an optional sign, then digits, up to the first other character. */
  lemma AtolReads(spaces: string, sign: string, digits: string, rest: string)
    requires forall i :: 0 <= i < |spaces| ==> Space(spaces[i])
    requires sign == "" || sign == "-" || sign == "+"
    requires Decimal(digits) && (rest != [] ==> !Digit(rest[0]))
    requires sign == "" && digits == "" && rest != [] ==> !Space(rest[0]) && rest[0] != '-' && rest[0] != '+'
    ensures var n := DecVal(digits);
            Atol(spaces + sign + digits + rest) == if sign == "-" then (if LONG_MAX < n then 0 - LONG_MAX - 1 else 0 - n)
                                                   else if LONG_MAX < n then LONG_MAX else n
  {
    hide DecVal, SkipSpace, Leading, Decimal, Digit, Space, Unsigned;
    var t := sign + digits + rest;
    assert spaces + sign + digits + rest == spaces + t;
    SignAndDigits(sign, digits, rest);
    SkipsSpace(spaces, t);
    LeadingDigits(digits, rest);
  }

  lemma SignAndDigits(sign: string, digits: string, rest: string)
    requires (sign == "" || sign == "-" || sign == "+") && Decimal(digits)
    requires sign == "" && digits == "" && rest != [] ==> !Space(rest[0]) && rest[0] != '-' && rest[0] != '+'
    ensures var t := sign + digits + rest;
            && (t != [] ==> !Space(t[0])) && Unsigned(t) == digits + rest
            && (t != [] && t[0] == '-' <==> sign == "-")
  {
    var t := sign + digits + rest;
    if sign == "" {
      assert t == digits + rest;
      if digits != [] { assert Digit(digits[0]) && t[0] == digits[0]; }
    } else {
      assert t[0] == sign[0] && t[1..] == digits + rest;
    }
  }

  lemma {:induction false} SkipsSpace(spaces: string, t: string)
    requires (forall i :: 0 <= i < |spaces| ==> Space(spaces[i])) && (t != [] ==> !Space(t[0]))
    ensures SkipSpace(spaces + t) == t
  {
    if spaces == [] {
      assert spaces + t == t;
    } else {
      assert (spaces + t)[1..] == spaces[1..] + t;
      SkipsSpace(spaces[1..], t);
    }
  }

  lemma {:induction false} LeadingDigits(digits: string, rest: string)
    requires Decimal(digits) && (rest != [] ==> !Digit(rest[0]))
    ensures Leading(digits + rest) == digits
  {
    if digits == [] {
      assert digits + rest == rest;
    } else {
      assert (digits + rest)[1..] == digits[1..] + rest;
      LeadingDigits(digits[1..], rest);
    }
  }

  /** A text read as one digit, cut to 32 bits. */
  function ReadDigit(s: string): Uint32 {
    Atol(s) % TWO_32
  }

  /** Nine characters a digit from the end of the text; the last digit takes what is left. */
  function ReadDigits(w: string, n: nat): (d: seq<Uint32>)
    ensures |d| == n
  {
    if n == 0 then []
    else if n == 1 || |w| <= 9 then [ReadDigit(w)] + seq(n - 1, _ => 0)
    else [ReadDigit(w[|w| - 9..])] + ReadDigits(w[..|w| - 9], n - 1)
  }

  lemma {:induction false} LeadingOfDecimal(s: string)
    requires Decimal(s)
    ensures Leading(s) == s
  {
    if s != [] { LeadingOfDecimal(s[1..]); }
  }

  lemma ReadOfDecimal(s: string)
    requires Decimal(s)
    ensures ReadDigit(s) == (if LONG_MAX < DecVal(s) then LONG_MAX else DecVal(s)) % TWO_32
  {
    hide DecVal, Leading;
    assert s != [] ==> Digit(s[0]);
    LeadingOfDecimal(s);
  }

  /** Few enough digits are read as they are; the digit read is the number exactly below 2^32. */
  lemma ReadIsExact(s: string)
    requires Decimal(s)
    ensures ReadDigit(s) == DecVal(s) <==> DecVal(s) < TWO_32
    ensures |s| <= 9 ==> ReadDigit(s) == DecVal(s) < LIMIT
  {
    hide DecVal, ReadDigit;
    ReadOfDecimal(s);
    if |s| <= 9 { NineDigits(s); }
  }

  lemma NineDigits(s: string)
    requires Decimal(s) && |s| <= 9
    ensures DecVal(s) < LIMIT
  {
    hide DecVal, Pow10;
    DecValBound(s);
    Pow10Grows(|s|, 9);
    LimitIsPow10();
  }

  lemma LimitIsPow10()
    ensures Pow10(9) == LIMIT
  {
    Pow10Base(1);
    assert Base(1) == LIMIT * Base(0);
  }

  lemma {:induction false} ValCons(x: nat, d: seq<nat>)
    ensures Val([x] + d) == x + LIMIT * Val(d)
  {
    var s := [x] + d;
    if d == [] {
      assert s[..0] == [] && Base(0) == 1;
    } else {
      var n := |d| - 1;
      ValCons(x, d[..n]);
      assert s[..|s| - 1] == [x] + d[..n] && s[|s| - 1] == d[n];
      assert LIMIT * (d[n] * Base(n)) == d[n] * Base(n + 1);
    }
  }

  /** Reading decimal text is exact if and only if the top digit's part of the number fits 32 bits. */
  lemma {:induction false} ReadIsExactWhen(w: string, n: nat)
    requires Decimal(w) && 0 < n
    ensures Val(ReadDigits(w, n)) == DecVal(w) <==> DecVal(w) < TWO_32 * Base(n - 1)
    ensures DecVal(w) < Base(n) ==> Normal(ReadDigits(w, n))
  {
    hide DecVal, ReadDigit, Val;
    ReadIsExact(w);
    if n == 1 || |w| <= 9 {
      var zeros: seq<nat> := seq(n - 1, _ => 0);
      ValOfZeros(zeros);
      ValCons(ReadDigit(w), zeros);
      assert ReadDigits(w, n) == [ReadDigit(w)] + zeros;
      BaseIsLarge(n);
    } else {
      var last, rest := w[|w| - 9..], w[..|w| - 9];
      assert w == rest + last;
      DecValConcat(rest, last);
      LimitIsPow10();
      ReadIsExact(last);
      ReadIsExactWhen(rest, n - 1);
      ValCons(ReadDigit(last), ReadDigits(rest, n - 1));
      NextLimit(DecVal(rest), DecVal(last), TWO_32 * Base(n - 2));
      NextLimit(DecVal(rest), DecVal(last), Base(n - 1));
      assert TWO_32 * Base(n - 1) == LIMIT * (TWO_32 * Base(n - 2));
    }
  }

  lemma BaseIsLarge(n: nat)
    requires 0 < n
    ensures TWO_32 <= TWO_32 * Base(n - 1) && (n == 1 ==> TWO_32 * Base(n - 1) == TWO_32 && Base(n) == LIMIT)
  {
    assert Base(n - 1) >= 1;
    if n == 1 { assert Base(0) == 1 && Base(1) == LIMIT * Base(0); }
  }

  lemma NextLimit(x: nat, y: nat, b: nat)
    requires y < LIMIT
    ensures x * LIMIT + y < LIMIT * b <==> x < b
  {
    if x < b {
      DigitFits(x, b, LIMIT);
    } else {
      assert LIMIT * b <= LIMIT * x;
    }
  }

  /** `_CFBigNumFromCString`, of a text without its final zero byte */
  method FromCString(s: string) returns (r: Num)
    requires '\0' !in s
    ensures r.Valid() && fresh(r) && fresh(r.digits) && (r.sign < 0 <==> s != [] && s[0] == '-')
    ensures r.digits[..] == ReadDigits(DropZeros(Unsigned(s)), DIGITS)
    ensures Decimal(Unsigned(s)) ==>
              && (r.Magnitude() == DecVal(Unsigned(s)) <==> DecVal(Unsigned(s)) < TWO_32 * Base(DIGITS - 1))
              && (DecVal(Unsigned(s)) < Base(DIGITS) ==> Normal(r.digits[..]))
  {
    hide DecVal, Base, Val, ReadDigits, Normal;
    r := new Num();
    var w := 0;
    if s != [] && s[0] == '-' {
      r.sign := -1;
      w := 1;
    } else if s != [] && s[0] == '+' {
      w := 1;
    }
    assert Unsigned(s) == s[w..];
    w := SkipZeros(s, w);
    var working := s[w..];
    if Decimal(Unsigned(s)) {
      DropZerosKeeps(Unsigned(s));
      ReadIsExactWhen(working, DIGITS);
    }
    FillDigits(r, working);
  }

  /** Nine characters at a time from the end; the last digit takes what is left. */
  method FillDigits(r: Num, working: string)
    requires r.Valid() && r.digits[..] == [0, 0, 0, 0, 0]
    modifies r.digits
    ensures r.digits[..] == ReadDigits(working, DIGITS)
  {
    hide ReadDigit, ReadDigits, Reading;
    if |working| == 0 {
      NothingRead();
      return;
    }
    ghost var all: seq<nat> := ReadDigits(working, DIGITS);
    var length := |working|;
    var cur := 0;
    StartReading(all, r.digits[..], working);
    while cur + 1 < DIGITS && 9 < length
      invariant 0 <= cur < DIGITS && 0 < length <= |working| && Reading(all, r.digits[..], working, length, cur)
    {
      ghost var d := r.digits[..];
      var digit := ReadDigit(working[length - 9..length]);
      DigitsNext(all, d, working, length, cur);
      r.digits[cur] := digit;
      assert r.digits[..] == d[cur := digit];
      length, cur := length - 9, cur + 1;
    }
    ghost var d := r.digits[..];
    var digit := ReadDigit(working[..length]);
    DigitsLast(all, d, working, length, cur);
    r.digits[cur] := digit;
    assert r.digits[..] == d[cur := digit];
  }

  /** The digits below `cur` are read, the others are still zero and come from the first `length` characters. */
  ghost predicate Reading(all: seq<nat>, d: seq<nat>, working: string, length: nat, cur: nat) {
    && |d| == DIGITS && cur < DIGITS && 0 < length <= |working|
    && (forall i :: cur <= i < DIGITS ==> d[i] == 0)
    && all == d[..cur] + ReadDigits(working[..length], DIGITS - cur)
  }

  lemma StartReading(all: seq<nat>, d: seq<nat>, working: string)
    requires d == [0, 0, 0, 0, 0] && working != [] && all == ReadDigits(working, DIGITS)
    ensures Reading(all, d, working, |working|, 0)
  {
    hide ReadDigits;
    assert working[..|working|] == working && d[..0] == [];
  }

  lemma DigitsNext(all: seq<nat>, d: seq<nat>, working: string, length: nat, cur: nat)
    requires Reading(all, d, working, length, cur) && cur + 1 < DIGITS && 9 < length
    ensures Reading(all, d[cur := ReadDigit(working[length - 9..length])], working, length - 9, cur + 1)
  {
    hide ReadDigit, ReadDigits;
    ReadNext(working[..length], DIGITS - cur);
    var w := working[..length];
    assert w[..length - 9] == working[..length - 9] && w[length - 9..] == working[length - 9..length];
    var now := d[cur := ReadDigit(working[length - 9..length])];
    assert now[..cur + 1] == d[..cur] + [now[cur]];
  }

  lemma DigitsLast(all: seq<nat>, d: seq<nat>, working: string, length: nat, cur: nat)
    requires Reading(all, d, working, length, cur) && (cur + 1 == DIGITS || length <= 9)
    ensures all == d[cur := ReadDigit(working[..length])]
  {
    hide ReadDigit, ReadDigits;
    ReadLast(working[..length], DIGITS - cur);
    var x, zeros := ReadDigit(working[..length]), seq(DIGITS - cur - 1, _ => 0);
    assert d[cur := x] == d[..cur] + ([x] + zeros);
  }

  lemma NothingRead()
    ensures ReadDigits([], 5) == [0, 0, 0, 0, 0]
  {
    assert Leading([]) == [] && ReadDigit([]) == 0;
  }

  lemma ReadNext(w: string, n: nat)
    requires 1 < n && 9 < |w|
    ensures ReadDigits(w, n) == [ReadDigit(w[|w| - 9..])] + ReadDigits(w[..|w| - 9], n - 1)
  {
  }

  lemma ReadLast(w: string, n: nat)
    requires 0 < n && (n == 1 || |w| <= 9)
    ensures ReadDigits(w, n) == [ReadDigit(w)] + seq(n - 1, _ => 0)
  {
  }

  /**
    Text written with or without leading zeros and plus reads back with the same sign, and as the same
    digits exactly when they are normal and the buffer has room for the number.
   */
  method TextRoundTrip(num: Num, leadingZeros: bool, leadingPlus: bool, buflen: nat) returns (r: Num)
    requires num.Valid() && |SignText(num.sign, leadingPlus)| < buflen
    ensures r.Valid() && r.sign == num.sign
    ensures r.digits[..] == num.digits[..] <==>
            Normal(num.digits[..]) && num.Magnitude() < Pow10(buflen - |SignText(num.sign, leadingPlus)| - 1)
  {
    hide DecVal, Val, Body, Tmp, ReadDigits, DropZeros, Pow10, Base;
    var s := ToCString(num, leadingZeros, leadingPlus, buflen);
    ghost var head := SignText(num.sign, leadingPlus);
    ghost var body := s[|head|..];
    assert s == head + body;
    assert body != [] ==> Digit(body[0]);
    assert Unsigned(s) == body && '\0' !in s;
    r := FromCString(s);
    BaseIsLess();
    if Normal(num.digits[..]) && r.Magnitude() == num.Magnitude() {
      ValIsInjective(r.digits[..], num.digits[..]);
    }
  }

  lemma BaseIsLess()
    ensures Base(DIGITS) < TWO_32 * Base(DIGITS - 1)
  {
    assert Base(DIGITS) == LIMIT * Base(DIGITS - 1);
  }
}

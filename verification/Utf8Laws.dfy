/** What fixes the UTF-8 conversion from outside: order, well-formedness by neighbours, and where reading stops. */
module Utf8Laws {
  import opened Bytes
  import opened Utf8
  import opened Utf8Convert
  import opened Utf8Text
  import opened Wrappers

  // ---------------------------------------------------------------- order

  /** The first place where the two differ is in favour of the second. */
  predicate Before(a: seq<int>, b: seq<int>) {
    a != [] && b != [] && (a[0] < b[0] || (a[0] == b[0] && Before(a[1..], b[1..])))
  }

  lemma BeforeAt(a: seq<int>, b: seq<int>, i: nat)
    requires i < |a| && i < |b| && a[i] < b[i] && forall j :: 0 <= j < i ==> a[j] == b[j]
    ensures Before(a, b)
  {
    if i > 0 { BeforeAt(a[1..], b[1..], i - 1); }
  }

  /**
    The bytes of scalar values have the order of the values, by section 1 of RFC 3629. Only one assignment of
    the legal sequences to the scalar values has that property.
   */
  lemma EncodingKeepsOrder(s: Scalar, t: Scalar)
    requires s < t
    ensures Before(Encode8(s), Encode8(t))
  {
    if Width(s) < Width(t) {
      LeadIsGreater(s, t);
      BeforeAt(Encode8(s), Encode8(t), 0);
    } else if Width(s) == 1 {
      BeforeAt(Encode8(s), Encode8(t), 0);
    } else if Width(s) == 2 {
      TwoBytes(s, t);
    } else if Width(s) == 3 {
      ThreeBytes(s, t);
    } else {
      FourBytes(s, t);
    }
  }

  lemma LeadIsGreater(s: Scalar, t: Scalar)
    requires Width(s) < Width(t)
    ensures Encode8(s)[0] < Encode8(t)[0]
  {
  }

  /** A greater number has a greater quotient, or the same one and a greater remainder. */
  lemma Sixty4(s: nat, t: nat)
    requires s < t
    ensures s / 0x40 < t / 0x40 || (s / 0x40 == t / 0x40 && s % 0x40 < t % 0x40)
  {
  }

  lemma TwoBytes(s: Scalar, t: Scalar)
    requires s < t && Width(s) == Width(t) == 2
    ensures Before(Encode8(s), Encode8(t))
  {
    Sixty4(s, t);
    BeforeAt(Encode8(s), Encode8(t), if s / 0x40 < t / 0x40 then 0 else 1);
  }

  lemma ThreeBytes(s: Scalar, t: Scalar)
    requires s < t && Width(s) == Width(t) == 3
    ensures Before(Encode8(s), Encode8(t))
  {
    var a: nat, c: nat := s / 0x40, t / 0x40;
    Sixty4(s, t);
    if a < c { Sixty4(a, c); }
    BeforeAt(Encode8(s), Encode8(t), if a / 0x40 < c / 0x40 then 0 else if a < c then 1 else 2);
  }

  lemma FourBytes(s: Scalar, t: Scalar)
    requires s < t && Width(s) == Width(t) == 4
    ensures Before(Encode8(s), Encode8(t))
  {
    var a: nat, c: nat := s / 0x40, t / 0x40;
    var d: nat, e: nat := a / 0x40, c / 0x40;
    Sixty4(s, t);
    if a < c { Sixty4(a, c); }
    if d < e { Sixty4(d, e); }
    BeforeAt(Encode8(s), Encode8(t), if d / 0x40 < e / 0x40 then 0 else if d < e then 1 else if a < c then 2 else 3);
  }

  predicate High(u: Unit) {
    0xD800 <= u <= 0xDBFF
  }

  predicate Low(u: Unit) {
    0xDC00 <= u <= 0xDFFF
  }

  /** Up to U+FFFF a scalar value is its own code unit; above, a high and a low surrogate that keep the order. */
  lemma PairsKeepOrder(s: Scalar, t: Scalar)
    ensures s < 0x1_0000 ==> Encode16(s) == [s]
    ensures 0x1_0000 <= s ==> High(Encode16(s)[0]) && Low(Encode16(s)[1])
    ensures 0x1_0000 <= s < t ==> Before(Encode16(s), Encode16(t))
  {
    if 0x1_0000 <= s < t {
      var a: nat, c: nat := s - 0x1_0000, t - 0x1_0000;
      assert a / 0x400 < c / 0x400 || (a / 0x400 == c / 0x400 && a % 0x400 < c % 0x400);
      BeforeAt(Encode16(s), Encode16(t), if a / 0x400 < c / 0x400 then 0 else 1);
    }
  }

  // ---------------------------------------------------------------- well-formed UTF-16

  /** Every high surrogate is followed by a low one, and every low one follows a high one. */
  predicate NoLone(u: seq<Unit>) {
    && (forall i :: 0 <= i < |u| && High(u[i]) ==> i + 1 < |u| && Low(u[i + 1]))
    && (forall i :: 0 <= i < |u| && Low(u[i]) ==> 0 < i && High(u[i - 1]))
  }

  lemma NoLoneAfterOne(u: seq<Unit>)
    requires u != [] && !High(u[0]) && !Low(u[0])
    ensures NoLone(u) <==> NoLone(u[1..])
  {
    var v := u[1..];
    assert forall i :: 0 <= i < |v| ==> v[i] == u[i + 1];
    if NoLone(v) {
      forall i | 0 <= i < |u| && High(u[i])
        ensures i + 1 < |u| && Low(u[i + 1])
      {
        assert v[i - 1] == u[i];
      }
      forall i | 0 <= i < |u| && Low(u[i])
        ensures 0 < i && High(u[i - 1])
      {
        assert v[i - 1] == u[i];
      }
    }
  }

  lemma NoLoneAfterPair(u: seq<Unit>)
    requires 2 <= |u| && High(u[0]) && Low(u[1])
    ensures NoLone(u) <==> NoLone(u[2..])
  {
    var v := u[2..];
    assert forall i :: 0 <= i < |v| ==> v[i] == u[i + 2];
    if NoLone(v) {
      forall i | 0 <= i < |u| && High(u[i])
        ensures i + 1 < |u| && Low(u[i + 1])
      {
        if 2 <= i { assert v[i - 2] == u[i]; }
      }
      forall i | 0 <= i < |u| && Low(u[i])
        ensures 0 < i && High(u[i - 1])
      {
        if 2 <= i { assert v[i - 2] == u[i]; }
      }
    }
  }

  /** What is read completely is exactly the text without lone surrogates. */
  lemma {:induction false} WellFormedExactly(u: seq<Unit>)
    ensures WellFormed16(u) <==> NoLone(u)
    decreases |u|
  {
    if u != [] {
      var r := First16(u);
      if r.Some? {
        var s := r.value;
        First16IsEncoded(u);
        var rest := u[|Encode16(s)|..];
        assert u == Encode16(s) + rest;
        Utf16Cons(s, Scan16(rest));
        WellFormedExactly(rest);
        SameRest(Encode16(s), Utf16Of(Scan16(rest)), rest);
        if |Encode16(s)| == 1 { NoLoneAfterOne(u); } else { NoLoneAfterPair(u); }
      }
    }
  }

  lemma SameRest(a: seq<Unit>, x: seq<Unit>, y: seq<Unit>)
    ensures a + x == a + y <==> x == y
  {
    if a + x == a + y {
      assert x == (a + x)[|a|..] && y == (a + y)[|a|..];
    }
  }

  /** The text starts with a surrogate that has no partner, unless it is empty. */
  predicate StartsLone(u: seq<Unit>) {
    u != [] ==> Low(u[0]) || (High(u[0]) && (1 < |u| ==> !Low(u[1])))
  }

  lemma AfterPrefix<T>(u: seq<T>, e: seq<T>, x: seq<T>)
    requires |e| <= |u| && u[..|e|] == e && |x| <= |u| - |e| && u[|e|..][..|x|] == x
    ensures u[..|e + x|] == e + x && u[|e + x|..] == u[|e|..][|x|..]
  {
    var p := |e|;
    assert u[..p + |x|] == u[..p] + u[p..][..|x|];
  }

  /** Reading code units stops at the end or at a lone surrogate, and what it took is what comes before. */
  lemma {:induction false} Scan16Stops(u: seq<Unit>)
    ensures var taken := Utf16Of(Scan16(u)); |taken| <= |u| && u[..|taken|] == taken && StartsLone(u[|taken|..])
    decreases |u|
  {
    if u == [] || First16(u).None? {
      assert u[0..] == u;
    } else {
      var s := First16(u).value;
      First16IsEncoded(u);
      var rest := u[|Encode16(s)|..];
      Scan16Stops(rest);
      Utf16Cons(s, Scan16(rest));
      Scan16First(u);
      hide Scan16, Utf16Of, Encode16, First16, StartsLone;
      AfterPrefix(u, Encode16(s), Utf16Of(Scan16(rest)));
    }
  }

  lemma Scan16First(u: seq<Unit>)
    requires u != [] && First16(u).Some?
    ensures var s := First16(u).value; Scan16(u) == [s] + Scan16(u[|Encode16(s)|..])
  {
  }

  /** The bytes counted for one code unit, by its neighbours: half a pair counts two, a lone surrogate three. */
  function UnitCost(u: seq<Unit>, i: nat): nat
    requires i < |u|
  {
    if u[i] < 0x80 then 1
    else if u[i] < 0x800 then 2
    else if High(u[i]) && i + 1 < |u| && Low(u[i + 1]) then 2
    else if Low(u[i]) && 0 < i && High(u[i - 1]) then 2
    else 3
  }

  function CostFrom(u: seq<Unit>, i: nat): nat
    requires i <= |u|
    decreases |u| - i
  {
    if i == |u| then 0 else UnitCost(u, i) + CostFrom(u, i + 1)
  }

  /** The length is the sum of those costs. */
  lemma LengthIsSum(u: seq<Unit>)
    ensures Length16(u) == CostFrom(u, 0)
  {
    LengthFrom(u, 0);
    assert u[0..] == u;
  }

  lemma {:induction false} LengthFrom(u: seq<Unit>, i: nat)
    requires i <= |u| && (0 < i < |u| && High(u[i - 1]) ==> !Low(u[i]))
    ensures Length16(u[i..]) == CostFrom(u, i)
    decreases |u| - i
  {
    if i < |u| {
      LengthNext(u, i);
      if First16(u[i..]).None? || !High(u[i]) {
        LengthFrom(u, i + 1);
      } else {
        assert u[i..][1] == u[i + 1];
        LengthFrom(u, i + 2);
      }
    }
  }

  // ---------------------------------------------------------------- reading bytes

  lemma {:induction false} BytesCons(t: Token, ts: seq<Token>)
    ensures BytesOf([t] + ts) == TokenBytes(t) + BytesOf(ts)
  {
    hide TokenBytes;
    if ts == [] {
      assert [t] + ts == [t] && [t][..0] == [];
    } else {
      var n := |ts| - 1;
      BytesCons(t, ts[..n]);
      assert ([t] + ts)[..n + 1] == [t] + ts[..n];
      assert TokenBytes(t) + BytesOf(ts[..n]) + TokenBytes(ts[n]) == TokenBytes(t) + (BytesOf(ts[..n]) + TokenBytes(ts[n]));
    }
  }

  lemma {:induction false} BytesConcat(ts: seq<Token>, us: seq<Token>)
    ensures BytesOf(ts + us) == BytesOf(ts) + BytesOf(us)
    decreases |us|
  {
    hide TokenBytes;
    if us == [] {
      assert ts + us == ts && BytesOf(ts) + [] == BytesOf(ts);
    } else {
      var n := |us| - 1;
      BytesConcat(ts, us[..n]);
      assert (ts + us)[..|ts| + n] == ts + us[..n];
      assert BytesOf(ts) + BytesOf(us[..n]) + TokenBytes(us[n]) == BytesOf(ts) + (BytesOf(us[..n]) + TokenBytes(us[n]));
    }
  }

  lemma {:induction false} UnitsConcat(ts: seq<Token>, us: seq<Token>)
    ensures UnitsOf(ts + us) == UnitsOf(ts) + UnitsOf(us)
    decreases |us|
  {
    hide TokenUnits;
    if us == [] {
      assert ts + us == ts && UnitsOf(ts) + [] == UnitsOf(ts);
    } else {
      var n := |us| - 1;
      UnitsConcat(ts, us[..n]);
      assert (ts + us)[..|ts| + n] == ts + us[..n];
      assert UnitsOf(ts) + UnitsOf(us[..n]) + TokenUnits(us[n]) == UnitsOf(ts) + (UnitsOf(us[..n]) + TokenUnits(us[n]));
    }
  }

  lemma First8OfToken(t: Token, rest: seq<Byte>)
    ensures First8(TokenBytes(t) + rest) == Some(t)
  {
    match t
    case Char(s) => First8OfEncoded(s, rest);
    case Copyright => assert ([0xA9] + rest)[..1] == [0xA9];
  }

  /** Any mixture of legal sequences and lone 0xA9 bytes is taken apart into exactly those. */
  lemma {:induction false} Scan8OfTokens(ts: seq<Token>)
    ensures Scan8(BytesOf(ts)) == ts
  {
    if ts != [] {
      var t, rest := ts[0], ts[1..];
      assert ts == [t] + rest;
      BytesCons(t, rest);
      First8OfToken(t, BytesOf(rest));
      assert (TokenBytes(t) + BytesOf(rest))[|TokenBytes(t)|..] == BytesOf(rest);
      Scan8OfTokens(rest);
    }
  }

  /** A lone 0xA9 in the middle of a text is read as one U+FFFD, and the text goes on after it. */
  lemma AroundCopyright(ss: seq<Scalar>, tt: seq<Scalar>)
    ensures var b := Utf8Of(ss) + [0xA9] + Utf8Of(tt);
            && BytesOf(Scan8(b)) == b
            && UnitsOf(Scan8(b)) == Utf16Of(ss) + [0xFFFD] + Utf16Of(tt)
  {
    var one := [Copyright];
    assert one[..0] == [];
    assert BytesOf(one) == [0xA9] && UnitsOf(one) == [0xFFFD];
    BytesConcat(Chars(ss), one);
    BytesConcat(Chars(ss) + one, Chars(tt));
    UnitsConcat(Chars(ss), one);
    UnitsConcat(Chars(ss) + one, Chars(tt));
    BytesOfChars(ss);
    BytesOfChars(tt);
    UnitsOfChars(ss);
    UnitsOfChars(tt);
    Scan8OfTokens(Chars(ss) + one + Chars(tt));
  }

  /** Reading such a text into a buffer of the right size consumes all of it. */
  method ReadAroundCopyright(ss: seq<Scalar>, tt: seq<Scalar>, chars: array<Unit>) returns (consumed: nat, used: nat)
    requires chars.Length == |Utf16Of(ss)| + 1 + |Utf16Of(tt)|
    modifies chars
    ensures consumed == |Utf8Of(ss)| + 1 + |Utf8Of(tt)|
    ensures used == chars.Length && chars[..] == Utf16Of(ss) + [0xFFFD] + Utf16Of(tt)
  {
    hide Scan8, BytesOf, UnitsOf;
    var b := Utf8Of(ss) + [0xA9] + Utf8Of(tt);
    AroundCopyright(ss, tt);
    ghost var k;
    consumed, used, k := FromUtf8(b, chars, chars.Length);
    CountedUnitsAreEnough(Scan8(b), k, used, chars.Length);
    assert Scan8(b)[..k] == Scan8(b);
  }

  /** Neither a legal sequence nor 0xA9 is at the start, unless there is nothing. */
  predicate Stuck(b: seq<Byte>) {
    b != [] ==> b[0] != 0xA9 && NoneLegal(b)
  }

  /** Reading bytes stops at the end, or where no legal sequence and no 0xA9 starts. */
  lemma {:induction false} Scan8Stops(b: seq<Byte>)
    ensures var taken := BytesOf(Scan8(b)); |taken| <= |b| && b[..|taken|] == taken && Stuck(b[|taken|..])
    decreases |b|
  {
    if b == [] {
      assert b[0..] == b;
    } else if First8(b).None? {
      NoneStarts(b);
      assert b[0..] == b;
    } else {
      var t := First8(b).value;
      First8IsEncoded(b);
      var rest := b[|TokenBytes(t)|..];
      Scan8Stops(rest);
      BytesCons(t, Scan8(rest));
      Scan8First(b);
      hide Scan8, BytesOf, TokenBytes, First8, Stuck;
      AfterPrefix(b, TokenBytes(t), BytesOf(Scan8(rest)));
    }
  }

  lemma Scan8First(b: seq<Byte>)
    requires b != [] && First8(b).Some?
    ensures var t := First8(b).value; Scan8(b) == [t] + Scan8(b[|TokenBytes(t)|..])
  {
  }

  /** No legal sequence is a prefix. */
  predicate NoneLegal(b: seq<Byte>) {
    forall n :: 0 <= n <= |b| ==> !Char8(b[..n])
  }

  lemma NoneStarts(b: seq<Byte>)
    requires b != [] && First8(b).None?
    ensures b[0] != 0xA9 && NoneLegal(b)
  {
    forall n | 0 <= n <= |b|
      ensures !Char8(b[..n])
    {
      if Char8(b[..n]) { LegalIsEncoded(b[..n]); }
    }
  }
}

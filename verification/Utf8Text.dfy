/** Whole texts in UTF-16 and UTF-8: what is read from code units and from bytes, and how the two agree. */
module Utf8Text {
  import opened Bytes
  import opened Utf8
  import opened Wrappers

  function Utf8Of(ss: seq<Scalar>): seq<Byte> {
    if ss == [] then [] else Utf8Of(ss[..|ss| - 1]) + Encode8(ss[|ss| - 1])
  }

  function Utf16Of(ss: seq<Scalar>): seq<Unit> {
    if ss == [] then [] else Utf16Of(ss[..|ss| - 1]) + Encode16(ss[|ss| - 1])
  }

  /** The scalar values of a sequence of code units, up to the first lone surrogate. */
  function Scan16(u: seq<Unit>): (ss: seq<Scalar>)
    decreases |u|
  {
    if u == [] then []
    else match First16(u)
      case None => []
      case Some(s) => [s] + Scan16(u[|Encode16(s)|..])
  }

  predicate WellFormed16(u: seq<Unit>) {
    Utf16Of(Scan16(u)) == u
  }

  lemma {:induction false} Utf8Cons(s: Scalar, ss: seq<Scalar>)
    ensures Utf8Of([s] + ss) == Encode8(s) + Utf8Of(ss)
  {
    hide Encode8;
    if ss == [] {
      assert [s] + ss == [s] && [s][..0] == [];
    } else {
      var last := |ss| - 1;
      Utf8Cons(s, ss[..last]);
      assert ([s] + ss)[..last + 1] == [s] + ss[..last];
      assert Encode8(s) + Utf8Of(ss[..last]) + Encode8(ss[last]) == Encode8(s) + (Utf8Of(ss[..last]) + Encode8(ss[last]));
    }
  }

  lemma {:induction false} Utf16Cons(s: Scalar, ss: seq<Scalar>)
    ensures Utf16Of([s] + ss) == Encode16(s) + Utf16Of(ss)
  {
    hide Encode16;
    if ss == [] {
      assert [s] + ss == [s] && [s][..0] == [];
    } else {
      var last := |ss| - 1;
      Utf16Cons(s, ss[..last]);
      assert ([s] + ss)[..last + 1] == [s] + ss[..last];
      assert Encode16(s) + Utf16Of(ss[..last]) + Encode16(ss[last]) == Encode16(s) + (Utf16Of(ss[..last]) + Encode16(ss[last]));
    }
  }

  /** Reading back what encoding as UTF-16 wrote. */
  lemma {:induction false} Scan16OfUtf16(ss: seq<Scalar>)
    ensures Scan16(Utf16Of(ss)) == ss
  {
    if ss != [] {
      var s, rest := ss[0], ss[1..];
      assert ss == [s] + rest;
      Utf16Cons(s, rest);
      First16OfEncoded(s, Utf16Of(rest));
      assert (Encode16(s) + Utf16Of(rest))[|Encode16(s)|..] == Utf16Of(rest);
      Scan16OfUtf16(rest);
    }
  }

  // ---------------------------------------------------------------- bytes

  /** What the reader takes from the bytes at one place: a legal sequence, or a lone 0xA9 it lets pass. */
  datatype Token = Char(s: Scalar) | Copyright

  function TokenBytes(t: Token): (b: seq<Byte>)
    ensures 0 < |b| <= 4
  {
    match t
    case Char(s) => Encode8(s)
    case Copyright => [0xA9]
  }

  function TokenUnits(t: Token): (u: seq<Unit>)
    ensures 0 < |u| <= 2
  {
    match t
    case Char(s) => Encode16(s)
    case Copyright => [REPLACEMENT]
  }

  function BytesOf(ts: seq<Token>): seq<Byte> {
    if ts == [] then [] else BytesOf(ts[..|ts| - 1]) + TokenBytes(ts[|ts| - 1])
  }

  function UnitsOf(ts: seq<Token>): seq<Unit> {
    if ts == [] then [] else UnitsOf(ts[..|ts| - 1]) + TokenUnits(ts[|ts| - 1])
  }

  function First8(b: seq<Byte>): (r: Option<Token>)
    requires b != []
    ensures r.Some? ==> |TokenBytes(r.value)| <= |b|
  {
    var n := Trailing(b[0]) + 1;
    if |b| < n then None
    else if Char8(b[..n]) then
      LegalIsEncoded(b[..n]);
      Some(Char(Value8(b[..n])))
    else if b[0] == 0xA9 then Some(Copyright)
    else None
  }

  lemma First8IsEncoded(b: seq<Byte>)
    requires b != [] && First8(b).Some?
    ensures var e := TokenBytes(First8(b).value); b[..|e|] == e
  {
    if Char8(b[..Trailing(b[0]) + 1]) {
      LegalIsEncoded(b[..Trailing(b[0]) + 1]);
    }
  }

  lemma First8OfEncoded(s: Scalar, rest: seq<Byte>)
    ensures First8(Encode8(s) + rest) == Some(Char(s))
  {
    EncodedIsLegal(s);
    var b := Encode8(s) + rest;
    assert b[..Trailing(b[0]) + 1] == Encode8(s);
  }

  /** What the reader takes from a byte string, up to the first sequence that is illegal or cut off. */
  function Scan8(b: seq<Byte>): (ts: seq<Token>)
    decreases |b|
  {
    if b == [] then []
    else match First8(b)
      case None => []
      case Some(t) => [t] + Scan8(b[|TokenBytes(t)|..])
  }

  function Chars(ss: seq<Scalar>): seq<Token> {
    seq(|ss|, i requires 0 <= i < |ss| => Char(ss[i]))
  }

  lemma {:induction false} Scan8OfUtf8(ss: seq<Scalar>)
    ensures Scan8(Utf8Of(ss)) == Chars(ss)
  {
    if ss != [] {
      var s, rest := ss[0], ss[1..];
      assert ss == [s] + rest;
      Utf8Cons(s, rest);
      First8OfEncoded(s, Utf8Of(rest));
      assert (Encode8(s) + Utf8Of(rest))[|Encode8(s)|..] == Utf8Of(rest);
      Scan8OfUtf8(rest);
      assert Chars(ss) == [Char(s)] + Chars(rest);
    }
  }

  lemma {:induction false} UnitsOfChars(ss: seq<Scalar>)
    ensures UnitsOf(Chars(ss)) == Utf16Of(ss)
  {
    if ss != [] {
      UnitsOfChars(ss[..|ss| - 1]);
      assert Chars(ss)[..|ss| - 1] == Chars(ss[..|ss| - 1]);
    }
  }

  /** Well-formed UTF-16 survives the way to UTF-8 and back. */
  lemma RoundTrip(u: seq<Unit>)
    requires WellFormed16(u)
    ensures UnitsOf(Scan8(Utf8Of(Scan16(u)))) == u
  {
    Scan8OfUtf8(Scan16(u));
    UnitsOfChars(Scan16(u));
  }

  /** So do bytes that the reader takes completely and that hold no lone 0xA9. */
  lemma RoundTripFromBytes(b: seq<Byte>, ss: seq<Scalar>)
    requires Scan8(b) == Chars(ss) && BytesOf(Scan8(b)) == b
    ensures Utf8Of(Scan16(UnitsOf(Scan8(b)))) == b
  {
    UnitsOfChars(ss);
    Scan16OfUtf16(ss);
    BytesOfChars(ss);
  }

  lemma {:induction false} BytesOfChars(ss: seq<Scalar>)
    ensures BytesOf(Chars(ss)) == Utf8Of(ss)
  {
    if ss != [] {
      BytesOfChars(ss[..|ss| - 1]);
      assert Chars(ss)[..|ss| - 1] == Chars(ss[..|ss| - 1]);
    }
  }
}

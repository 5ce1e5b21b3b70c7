/**
  The UTF-8 converter: between UTF-16 code units and UTF-8 bytes, with no flags set. The encodings
  follow section 3 of RFC 3629 and section 2 of RFC 2781, the byte grammar section 4 of RFC 3629.
 */
module Utf8 {
  import opened Bytes
  import opened Wrappers

  /** A Unicode scalar value: a code point that is not a surrogate. */
  type Scalar = x: int | 0 <= x <= 0x10_FFFF && !(0xD800 <= x <= 0xDFFF)

  const REPLACEMENT: Unit := 0xFFFD

  // ---------------------------------------------------------------- one scalar value

  /** `__CFUTF8BytesToWriteForCharacter` */
  function Width(ch: nat): (n: nat) {
    if ch < 0x80 then 1
    else if ch < 0x800 then 2
    else if ch < 0x1_0000 then 3
    else if ch < 0x20_0000 then 4
    else if ch < 0x400_0000 then 5
    else if ch <= 0x7FFF_FFFF then 6
    else 0
  }

  /** A continuation byte with the low six bits of `ch`: `(ch | 0x80) & 0xBF` */
  function Mark(ch: nat): Byte {
    0x80 + ch % 0x40
  }

  function Encode8(s: Scalar): (b: seq<Byte>)
    ensures |b| == Width(s)
  {
    if s < 0x80 then [s]
    else
      var t: nat := s / 0x40;
      if s < 0x800 then [0xC0 + t, Mark(s)]
      else
        var v: nat := t / 0x40;
        if s < 0x1_0000 then [0xE0 + v, Mark(t), Mark(s)] else [0xF0 + v / 0x40, Mark(v), Mark(t), Mark(s)]
  }

  function Encode16(s: Scalar): (u: seq<Unit>)
    ensures |u| == if s < 0x1_0000 then 1 else 2
  {
    if s < 0x1_0000 then [s]
    else [0xD800 + (s - 0x1_0000) / 0x400, 0xDC00 + (s - 0x1_0000) % 0x400]
  }

  /** The scalar value a sequence of code units starts with, if it does not start with a lone surrogate. */
  function First16(u: seq<Unit>): (r: Option<Scalar>)
    requires u != []
    ensures r.Some? ==> |Encode16(r.value)| <= |u|
  {
    if u[0] < 0xD800 || 0xDFFF < u[0] then Some(u[0])
    else if u[0] <= 0xDBFF && 1 < |u| && 0xDC00 <= u[1] <= 0xDFFF then
      Some(0x400 * (u[0] as int - 0xD800) + (u[1] as int - 0xDC00) + 0x1_0000)
    else None
  }

  lemma First16IsEncoded(u: seq<Unit>)
    requires u != [] && First16(u).Some?
    ensures var e := Encode16(First16(u).value); |e| <= |u| && u[..|e|] == e
  {
  }

  lemma First16OfEncoded(s: Scalar, rest: seq<Unit>)
    ensures First16(Encode16(s) + rest) == Some(s)
  {
  }

  // ---------------------------------------------------------------- the byte grammar

  predicate Tail(b: Byte) {
    0x80 <= b <= 0xBF
  }

  /** UTF8-char of section 4 of RFC 3629 */
  predicate Char8(s: seq<Byte>) {
    || (|s| == 1 && s[0] <= 0x7F)
    || (|s| == 2 && 0xC2 <= s[0] <= 0xDF && Tail(s[1]))
    || (|s| == 3 && Tail(s[2])
        && (|| (s[0] == 0xE0 && 0xA0 <= s[1] <= 0xBF)
            || (0xE1 <= s[0] <= 0xEC && Tail(s[1]))
            || (s[0] == 0xED && 0x80 <= s[1] <= 0x9F)
            || (0xEE <= s[0] <= 0xEF && Tail(s[1]))))
    || (|s| == 4 && Tail(s[2]) && Tail(s[3])
        && (|| (s[0] == 0xF0 && 0x90 <= s[1] <= 0xBF)
            || (0xF1 <= s[0] <= 0xF3 && Tail(s[1]))
            || (s[0] == 0xF4 && 0x80 <= s[1] <= 0x8F)))
  }

  /** `trailingBytesForUTF8` */
  function Trailing(head: Byte): (n: nat)
    ensures n <= 5
  {
    if head < 0xC0 then 0 else if head < 0xE0 then 1 else if head < 0xF0 then 2
    else if head < 0xF8 then 3 else if head < 0xFC then 4 else 5
  }

  /** `__CFIsLegalUTF8` accepts exactly the grammar, when the length is the one the first byte calls for. */
  method IsLegal(s: seq<Byte>) returns (legal: bool)
    requires s != [] && |s| == Trailing(s[0]) + 1
    ensures legal <==> Char8(s)
  {
    if |s| > 4 {
      return false;
    }
    var head := s[0];
    var p := |s| - 1;
    while p > 0
      invariant 0 <= p < |s| && forall i :: p < i < |s| ==> Tail(s[i])
    {
      if s[p] / 0x40 != 2 {
        return false;
      }
      p := p - 1;
    }
    if (0x80 <= head < 0xC2) || 0xF4 < head {
      return false;
    }
    if || (head == 0xE0 && s[1] < 0xA0) || (head == 0xED && s[1] > 0x9F)
       || (head == 0xF0 && s[1] < 0x90) || (head == 0xF4 && s[1] > 0x8F) {
      return false;
    }
    legal := true;
  }

  /** `offsetsFromUTF8`: what the mark bits of the bytes add up to. */
  function MagicOffset(extra: nat): nat {
    match extra
    case 0 => 0
    case 1 => 0x3080
    case 2 => 0xE2080
    case _ => 0x3C8_2080
  }

  /** The bytes with their mark bits, six bits apart. */
  function Gathered(s: seq<Byte>): nat {
    if s == [] then 0 else Gathered(s[..|s| - 1]) * 0x40 + s[|s| - 1]
  }

  /** The scalar value of a legal sequence, as the reader computes it. */
  function Value8(s: seq<Byte>): (v: Scalar)
    requires Char8(s)
  {
    GatheredOf(s);
    Gathered(s) - MagicOffset(|s| - 1)
  }

  lemma GatheredOf(s: seq<Byte>)
    requires 1 <= |s| <= 4
    ensures |s| == 1 ==> Gathered(s) == s[0]
    ensures |s| == 2 ==> Gathered(s) == Join(s[0], s[1])
    ensures |s| == 3 ==> Gathered(s) == Join(Join(s[0], s[1]), s[2])
    ensures |s| == 4 ==> Gathered(s) == Join(Join(Join(s[0], s[1]), s[2]), s[3])
  {
    if |s| > 1 {
      GatheredOf(s[..|s| - 1]);
    } else {
      assert s[..0] == [];
    }
  }

  function Join(n: nat, b: nat): nat {
    n * 0x40 + b
  }

  lemma Sextet(q: nat, r: nat)
    requires r < 0x40
    ensures (q * 0x40 + r) / 0x40 == q && (q * 0x40 + r) % 0x40 == r
  {
  }

  /** Encoding and the reader's arithmetic are inverse, and the grammar is exactly what encoding produces. */
  lemma EncodedIsLegal(s: Scalar)
    ensures Char8(Encode8(s)) && Value8(Encode8(s)) == s && |Encode8(s)| == Trailing(Encode8(s)[0]) + 1
  {
    GatheredOf(Encode8(s));
  }

  lemma LegalIsEncoded(b: seq<Byte>)
    requires Char8(b)
    ensures Encode8(Value8(b)) == b && |b| == Trailing(b[0]) + 1
  {
    if |b| == 1 {
      GatheredOf(b);
    } else if |b| == 2 {
      Legal2(b);
    } else if |b| == 3 {
      Legal3(b);
    } else {
      Legal4(b);
    }
  }

  lemma Legal2(b: seq<Byte>)
    requires Char8(b) && |b| == 2
    ensures Encode8(Value8(b)) == b
  {
    GatheredOf(b);
    Sextet(b[0] - 0xC0, b[1] - 0x80);
  }

  lemma Legal3(b: seq<Byte>)
    requires Char8(b) && |b| == 3
    ensures Encode8(Value8(b)) == b
  {
    GatheredOf(b);
    var x: nat, y: nat, z: nat := b[0] - 0xE0, b[1] - 0x80, b[2] - 0x80;
    assert Value8(b) == (x * 0x40 + y) * 0x40 + z >= 0x800;
    Sextet(x, y);
    Sextet(x * 0x40 + y, z);
  }

  lemma Legal4(b: seq<Byte>)
    requires Char8(b) && |b| == 4
    ensures Encode8(Value8(b)) == b
  {
    GatheredOf(b);
    var x: nat, y: nat, z: nat, w: nat := b[0] - 0xF0, b[1] - 0x80, b[2] - 0x80, b[3] - 0x80;
    assert Value8(b) == ((x * 0x40 + y) * 0x40 + z) * 0x40 + w >= 0x1_0000;
    Sextet(x, y);
    Sextet(x * 0x40 + y, z);
    Sextet((x * 0x40 + y) * 0x40 + z, w);
  }
}

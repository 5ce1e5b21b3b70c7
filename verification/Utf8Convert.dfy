/** The loops of the UTF-8 converter, proved against the texts they read and write. */
module Utf8Convert {
  import opened Bytes
  import opened Sequences
  import opened Utf8
  import opened Utf8Text
  import opened Wrappers

  // ---------------------------------------------------------------- to UTF-8

  /** After `k` scalar values, at code unit `i`. */
  ghost predicate Reading16(u: seq<Unit>, k: nat, i: nat) {
    var all := Scan16(u);
    k <= |all| && i <= |u| && u[..i] == Utf16Of(all[..k]) && all[k..] == Scan16(u[i..])
  }

  lemma ReadNext16(u: seq<Unit>, k: nat, i: nat)
    requires Reading16(u, k, i) && i < |u|
    ensures var all := Scan16(u);
            match First16(u[i..])
            case None => k == |all|
            case Some(s) => k < |all| && all[k] == s && i + |Encode16(s)| <= |u| && Reading16(u, k + 1, i + |Encode16(s)|)
  {
    hide First16, Encode16;
    var all := Scan16(u);
    match First16(u[i..])
    case None =>
    case Some(s) =>
      var n := |Encode16(s)|;
      First16IsEncoded(u[i..]);
      assert u[i..][n..] == u[i + n..];
      assert all[k..][1..] == all[k + 1..];
      assert all[..k + 1][..k] == all[..k];
      assert u[..i + n] == u[..i] + u[i..][..n];
  }

  /** The surrogate branches of `__CFToUTF8` */
  method NextScalar(u: seq<Unit>, i: nat) returns (r: Option<Scalar>, next: nat)
    requires i < |u|
    ensures r == First16(u[i..]) && (r.Some? ==> next == i + |Encode16(r.value)|)
  {
    var ch: nat := u[i];
    next := i + 1;
    if 0xD800 <= ch {
      if ch <= 0xDBFF {
        if next < |u| && 0xDC00 <= u[next] <= 0xDFFF {
          ch := 0x400 * (ch - 0xD800) + (u[next] - 0xDC00) + 0x1_0000;
          next := next + 1;
        } else {
          return None, next;
        }
      } else if ch <= 0xDFFF {
        return None, next;
      }
    }
    r := Some(ch);
  }

  function FirstMark(n: nat): nat {
    match n
    case 2 => 0xC0
    case 3 => 0xE0
    case 4 => 0xF0
    case _ => 0
  }

  /** `__CFToUTF8Core`; the room is cut to 32 bits. */
  method WriteScalar(ch: Scalar, bytes: array<Byte>, pos: nat, room: nat) returns (n: nat)
    requires pos + room <= bytes.Length
    modifies bytes
    ensures n == if room % TWO_32 < Width(ch) then 0 else Width(ch)
    ensures n == 0 ==> bytes[..] == old(bytes[..])
    ensures n != 0 ==> n <= room && bytes[..] == Placed(old(bytes[..]), pos, Encode8(ch))
  {
    n := Width(ch);
    if room % TWO_32 < n {
      return 0;
    }
    var c: nat := ch;
    if 4 <= n { bytes[pos + 3] := Mark(c); c := c / 0x40; }
    if 3 <= n { bytes[pos + 2] := Mark(c); c := c / 0x40; }
    if 2 <= n { bytes[pos + 1] := Mark(c); c := c / 0x40; }
    bytes[pos] := c + FirstMark(n);
    assert bytes[..] == Placed(old(bytes[..]), pos, Encode8(ch));
  }

  method WriteAscii(ch: Scalar, bytes: array<Byte>, pos: nat)
    requires pos < bytes.Length && ch < 0x80
    modifies bytes
    ensures Width(ch) == 1 && bytes[..] == Placed(old(bytes[..]), pos, Encode8(ch))
  {
    bytes[pos] := ch;
  }

  /** What has been written: the encoding of `k` scalar values, then what was there. */
  ghost predicate Written8(all: seq<Scalar>, k: nat, before: seq<Byte>, now: seq<Byte>, pos: nat) {
    && k <= |all| && pos == |Utf8Of(all[..k])| <= |before|
    && now == Utf8Of(all[..k]) + before[pos..]
  }

  lemma WriteNext8(all: seq<Scalar>, k: nat, before: seq<Byte>, now: seq<Byte>, pos: nat)
    requires Written8(all, k, before, now, pos) && k < |all| && pos + |Encode8(all[k])| <= |before|
    ensures |now| == |before|
    ensures Written8(all, k + 1, before, Placed(now, pos, Encode8(all[k])), pos + |Encode8(all[k])|)
  {
    hide Encode8;
    assert all[..k + 1][..k] == all[..k];
    var e := Encode8(all[k]);
    assert now[..pos] == Utf8Of(all[..k]);
    assert now[pos + |e|..] == before[pos + |e|..];
  }

  lemma CountNext8(all: seq<Scalar>, k: nat)
    requires k < |all|
    ensures |Utf8Of(all[..k + 1])| == |Utf8Of(all[..k])| + Width(all[k])
  {
    assert all[..k + 1][..k] == all[..k];
  }

  /** When the writer stops before a scalar value: an ASCII one needs any room, for others the room is cut to 32 bits. */
  predicate NoRoom(room: nat, s: Scalar) {
    room == 0 || (0x80 <= s && room % TWO_32 < Width(s))
  }

  /**
    The writer stops where it should, before a scalar value that does not fit, exactly when it is not
    one beyond ASCII for which 2^32 bytes or more are free and too few are left once the room is cut.
   */
  lemma NoRoomIsExact(room: nat, s: Scalar)
    ensures (NoRoom(room, s) <==> room < Width(s)) <==> !(TWO_32 <= room && 0x80 <= s && room % TWO_32 < Width(s))
  {
  }

  /** From 2^32 bytes on it may stop although there is room: here two bytes, and 2^32 + 1 free. */
  lemma RoomIsCut()
    ensures NoRoom(TWO_32 + 1, 0x80) && Width(0x80) <= TWO_32 + 1
  {
  }

  /** `__CFToUTF8`; a limit of zero only counts. `k` is how many scalar values were converted. */
  method ToUtf8(u: seq<Unit>, bytes: array<Byte>, maxByteLen: nat) returns (consumed: nat, used: nat, ghost k: nat)
    requires maxByteLen <= bytes.Length
    modifies bytes
    ensures k <= |Scan16(u)| && consumed <= |u| && u[..consumed] == Utf16Of(Scan16(u)[..k])
    ensures used == |Utf8Of(Scan16(u)[..k])|
    ensures maxByteLen == 0 ==> k == |Scan16(u)| && bytes[..] == old(bytes[..])
    ensures maxByteLen != 0 ==> used <= maxByteLen && bytes[..] == Utf8Of(Scan16(u)[..k]) + old(bytes[..])[used..]
    ensures maxByteLen != 0 && k < |Scan16(u)| ==> NoRoom(maxByteLen - used, Scan16(u)[k])
  {
    hide Scan16, Utf16Of, Utf8Of, Encode8, Encode16, Reading16, Written8, Placed;
    ghost var all := Scan16(u);
    ghost var before := bytes[..];
    consumed, used, k := 0, 0, 0;
    StartTo8(u, before);
    while consumed < |u| && (maxByteLen == 0 || used < maxByteLen)
      invariant k <= |all| && consumed <= |u| && Reading16(u, k, consumed) && used == |Utf8Of(all[..k])|
      invariant maxByteLen == 0 ==> bytes[..] == before
      invariant maxByteLen != 0 ==> used <= maxByteLen && Written8(all, k, before, bytes[..], used)
    {
      var r, next := NextScalar(u, consumed);
      ReadNext16(u, k, consumed);
      if r.None? {
        break;
      }
      CountNext8(all, k);
      var n := Width(r.value);
      if maxByteLen != 0 {
        if used + n <= maxByteLen { WriteNext8(all, k, before, bytes[..], used); }
        if r.value < 0x80 {
          WriteAscii(r.value, bytes, used);
        } else {
          n := WriteScalar(r.value, bytes, used, maxByteLen - used);
        }
      }
      if n == 0 {
        break;
      }
      consumed, used, k := next, used + n, k + 1;
    }
    EndTo8(u, k, consumed, before, bytes[..], used, maxByteLen);
  }

  lemma StartTo8(u: seq<Unit>, before: seq<Byte>)
    ensures Reading16(u, 0, 0) && Utf8Of(Scan16(u)[..0]) == [] && Written8(Scan16(u), 0, before, before, 0)
  {
    assert u[..0] == [] && u[0..] == u && Scan16(u)[..0] == [];
  }

  lemma EndTo8(u: seq<Unit>, k: nat, i: nat, before: seq<Byte>, now: seq<Byte>, pos: nat, room: nat)
    requires Reading16(u, k, i) && (room != 0 ==> Written8(Scan16(u), k, before, now, pos))
    ensures k <= |Scan16(u)| && i <= |u| && u[..i] == Utf16Of(Scan16(u)[..k])
    ensures i == |u| ==> k == |Scan16(u)|
    ensures room != 0 ==> pos <= |before| && now == Utf8Of(Scan16(u)[..k]) + before[pos..]
    ensures forall s: Scalar :: 0 < Width(s)
  {
  }

  // ---------------------------------------------------------------- from UTF-8

  /** After `k` tokens, at byte `i`. */
  ghost predicate Reading8(b: seq<Byte>, k: nat, i: nat) {
    var all := Scan8(b);
    k <= |all| && i <= |b| && b[..i] == BytesOf(all[..k]) && all[k..] == Scan8(b[i..])
  }

  lemma ReadNext8(b: seq<Byte>, k: nat, i: nat)
    requires Reading8(b, k, i) && i < |b|
    ensures var all := Scan8(b);
            match First8(b[i..])
            case None => k == |all|
            case Some(t) => k < |all| && all[k] == t && i + |TokenBytes(t)| <= |b| && Reading8(b, k + 1, i + |TokenBytes(t)|)
  {
    hide First8, TokenBytes;
    var all := Scan8(b);
    match First8(b[i..])
    case None =>
    case Some(t) =>
      var n := |TokenBytes(t)|;
      First8IsEncoded(b[i..]);
      assert b[i..][n..] == b[i + n..];
      assert all[k..][1..] == all[k + 1..];
      assert all[..k + 1][..k] == all[..k];
      assert b[..i + n] == b[..i] + b[i..][..n];
  }

  /** The switch that adds up the bytes, and the subtraction of the mark bits. */
  method GatherScalar(b: seq<Byte>, i: nat, extra: nat) returns (ch: nat)
    requires extra <= 3 && i + extra < |b| && Char8(b[i..i + extra + 1])
    ensures ch == Value8(b[i..i + extra + 1])
  {
    ghost var s := b[i..i + extra + 1];
    GatheredOf(s);
    var source := i;
    ch := 0;
    if 3 <= extra { ch := (ch + b[source]) * 0x40; source := source + 1; }
    if 2 <= extra { ch := (ch + b[source]) * 0x40; source := source + 1; }
    if 1 <= extra { ch := (ch + b[source]) * 0x40; source := source + 1; }
    ch := ch + b[source];
    ch := ch - MagicOffset(extra);
  }

  /** One turn of the reader up to the point where it writes; nothing when it stops. */
  method NextToken(b: seq<Byte>, i: nat) returns (r: Option<Token>)
    requires i < |b|
    ensures r == First8(b[i..])
  {
    var extra := Trailing(b[i]);
    var numBytes := |b| - i - 1;
    if numBytes < extra {
      return None;
    }
    assert b[i..][..extra + 1] == b[i..i + extra + 1];
    var legal := extra <= 3;
    if legal {
      legal := IsLegal(b[i..i + extra + 1]);
    }
    if !legal {
      return if b[i] == 0xA9 then Some(Copyright) else None;
    }
    var ch := GatherScalar(b, i, extra);
    r := Some(Char(ch));
  }

  /** What has been written: the code units of `k` tokens, then what was there. */
  ghost predicate Written16(all: seq<Token>, k: nat, before: seq<Unit>, now: seq<Unit>, pos: nat) {
    && k <= |all| && pos == |UnitsOf(all[..k])| <= |before|
    && now == UnitsOf(all[..k]) + before[pos..]
  }

  lemma WriteNext16(all: seq<Token>, k: nat, before: seq<Unit>, now: seq<Unit>, pos: nat)
    requires Written16(all, k, before, now, pos) && k < |all| && pos + |TokenUnits(all[k])| <= |before|
    ensures |now| == |before|
    ensures Written16(all, k + 1, before, Placed(now, pos, TokenUnits(all[k])), pos + |TokenUnits(all[k])|)
  {
    hide TokenUnits;
    assert all[..k + 1][..k] == all[..k];
    var e := TokenUnits(all[k]);
    assert now[..pos] == UnitsOf(all[..k]);
    assert now[pos + |e|..] == before[pos + |e|..];
  }

  lemma CountNext16(all: seq<Token>, k: nat)
    requires k < |all|
    ensures |UnitsOf(all[..k + 1])| == |UnitsOf(all[..k])| + |TokenUnits(all[k])|
  {
    assert all[..k + 1][..k] == all[..k];
  }

  /** Writing one token's code units; a pair is split with the shift and mask of the source. */
  method WriteToken(t: Token, chars: array<Unit>, pos: nat)
    requires pos + |TokenUnits(t)| <= chars.Length
    modifies chars
    ensures chars[..] == Placed(old(chars[..]), pos, TokenUnits(t))
  {
    match t
    case Copyright =>
      chars[pos] := REPLACEMENT;
    case Char(s) =>
      if s <= 0xFFFF {
        chars[pos] := s;
      } else {
        var half := s - 0x1_0000;
        chars[pos] := half / 0x400 + 0xD800;
        chars[pos + 1] := half % 0x400 + 0xDC00;
      }
  }

  /**
    `__CFFromUTF8`; a limit of zero only counts. `k` is how many tokens were converted. When one code
    unit of room is left and a surrogate pair comes next, the pair's four bytes are counted as
    consumed although nothing is written for them.
   */
  method FromUtf8(b: seq<Byte>, chars: array<Unit>, maxCharLen: nat) returns (consumed: nat, used: nat, ghost k: nat)
    requires maxCharLen <= chars.Length
    modifies chars
    ensures k <= |Scan8(b)| && used == |UnitsOf(Scan8(b)[..k])|
    ensures maxCharLen == 0 ==> k == |Scan8(b)| && chars[..] == old(chars[..])
    ensures maxCharLen != 0 ==> used <= maxCharLen && chars[..] == UnitsOf(Scan8(b)[..k]) + old(chars[..])[used..]
    ensures maxCharLen != 0 && k < |Scan8(b)| ==> maxCharLen < used + |TokenUnits(Scan8(b)[k])|
    ensures consumed <= |b| && |BytesOf(Scan8(b)[..k])| <= consumed && b[..|BytesOf(Scan8(b)[..k])|] == BytesOf(Scan8(b)[..k])
    ensures consumed == |BytesOf(Scan8(b)[..k])| + if k < |Scan8(b)| && used < maxCharLen then 4 else 0
  {
    hide Scan8, BytesOf, UnitsOf, Reading8, Written16, Placed, First8;
    ghost var all := Scan8(b);
    ghost var before := chars[..];
    consumed, used, k := 0, 0, 0;
    StartFrom8(b, before);
    while consumed < |b| && (maxCharLen == 0 || used < maxCharLen)
      invariant k <= |all| && consumed <= |b| && Reading8(b, k, consumed) && used == |UnitsOf(all[..k])|
      invariant maxCharLen == 0 ==> chars[..] == before
      invariant maxCharLen != 0 ==> used <= maxCharLen && Written16(all, k, before, chars[..], used)
    {
      var r := NextToken(b, consumed);
      ReadNext8(b, k, consumed);
      EndFrom8(b, k, consumed, before, chars[..], used, maxCharLen);
      if r.None? {
        return;
      }
      CountNext16(all, k);
      if maxCharLen != 0 {
        if maxCharLen < used + |TokenUnits(r.value)| {
          consumed := consumed + |TokenBytes(r.value)|;
          return;
        }
        WriteNext16(all, k, before, chars[..], used);
        WriteToken(r.value, chars, used);
      }
      consumed, used, k := consumed + |TokenBytes(r.value)|, used + |TokenUnits(r.value)|, k + 1;
    }
    EndFrom8(b, k, consumed, before, chars[..], used, maxCharLen);
  }

  /** U+10000 into a buffer for one code unit: all four bytes are consumed and nothing is written. */
  method PairIntoOneUnit(chars: array<Unit>) returns (consumed: nat, used: nat)
    requires chars.Length == 1
    modifies chars
    ensures consumed == 4 && used == 0 && chars[..] == old(chars[..])
  {
    PairScanned();
    ghost var k;
    consumed, used, k := FromUtf8([0xF0, 0x90, 0x80, 0x80], chars, 1);
    assert [Char(0x1_0000)][..0] == [] && [Char(0x1_0000)][..1] == [Char(0x1_0000)];
    assert UnitsOf([Char(0x1_0000)]) == TokenUnits(Char(0x1_0000));
    assert k == 0;
  }

  lemma PairScanned()
    ensures Scan8([0xF0, 0x90, 0x80, 0x80]) == [Char(0x1_0000)]
  {
    Scan8OfUtf8([0x1_0000]);
    assert Utf8Of([0x1_0000]) == Encode8(0x1_0000) == [0xF0, 0x90, 0x80, 0x80];
    assert Chars([0x1_0000]) == [Char(0x1_0000)];
  }

  lemma StartFrom8(b: seq<Byte>, before: seq<Unit>)
    ensures Reading8(b, 0, 0) && UnitsOf(Scan8(b)[..0]) == [] && Written16(Scan8(b), 0, before, before, 0)
  {
    assert b[..0] == [] && b[0..] == b && Scan8(b)[..0] == [];
  }

  lemma EndFrom8(b: seq<Byte>, k: nat, i: nat, before: seq<Unit>, now: seq<Unit>, pos: nat, room: nat)
    requires Reading8(b, k, i) && (room != 0 ==> Written16(Scan8(b), k, before, now, pos))
    ensures k <= |Scan8(b)| && i <= |b| && b[..i] == BytesOf(Scan8(b)[..k]) && |BytesOf(Scan8(b)[..k])| == i
    ensures i == |b| ==> k == |Scan8(b)|
    ensures room != 0 ==> pos <= |before| && now == UnitsOf(Scan8(b)[..k]) + before[pos..]
  {
    assert |b[..i]| == i;
  }

  // ---------------------------------------------------------------- lengths

  /** `__CFFromUTF8Len` reports what the reader writes with enough room. */
  method FromUtf8Len(b: seq<Byte>) returns (n: nat)
    ensures n == |UnitsOf(Scan8(b))|
  {
    hide Scan8, BytesOf, UnitsOf, Reading8, First8;
    ghost var all := Scan8(b);
    var i := 0;
    ghost var k := 0;
    n := 0;
    StartFrom8(b, []);
    while i < |b|
      invariant k <= |all| && i <= |b| && Reading8(b, k, i) && n == |UnitsOf(all[..k])|
    {
      var r := NextToken(b, i);
      ReadNext8(b, k, i);
      if r.None? {
        break;
      }
      CountNext16(all, k);
      n := n + |TokenUnits(r.value)|;
      i, k := i + |TokenBytes(r.value)|, k + 1;
    }
    EndFrom8(b, k, i, [], [], 0, 0);
    assert all[..k] == all;
  }

  /** The bytes `__CFToUTF8Len` counts: three for a lone surrogate. */
  function Length16(u: seq<Unit>): nat
    decreases |u|
  {
    if u == [] then 0
    else match First16(u)
      case None => 3 + Length16(u[1..])
      case Some(s) => Width(s) + Length16(u[|Encode16(s)|..])
  }

  /** `__CFToUTF8Len`, in 32-bit arithmetic */
  method ToUtf8Len(u: seq<Unit>) returns (n: nat)
    ensures n == Length16(u) % TWO_32
  {
    hide Encode16, First16, Length16, Width;
    n := 0;
    var i := 0;
    ghost var sofar: nat := 0;
    assert u[0..] == u;
    while i < |u|
      invariant i <= |u| && n == sofar % TWO_32 && Length16(u) == sofar + Length16(u[i..])
    {
      var r, next := NextScalar(u, i);
      LengthNext(u, i);
      var w := Width(if r.Some? then r.value else u[i]);
      if r.None? { next := i + 1; }
      AddMod(sofar, w);
      n, sofar, i := (n + w) % TWO_32, sofar + w, next;
    }
    NoLength(u[i..]);
  }

  lemma AddMod(x: nat, w: nat)
    ensures (x % TWO_32 + w) % TWO_32 == (x + w) % TWO_32
  {
  }

  lemma NoLength(u: seq<Unit>)
    ensures u == [] ==> Length16(u) == 0
  {
  }

  lemma LengthNext(u: seq<Unit>, i: nat)
    requires i < |u|
    ensures match First16(u[i..])
            case None => Length16(u[i..]) == Width(u[i]) + Length16(u[i + 1..])
            case Some(s) => i + |Encode16(s)| <= |u| && Length16(u[i..]) == Width(s) + Length16(u[i + |Encode16(s)|..])
  {
    match First16(u[i..])
    case None =>
      assert u[i..][1..] == u[i + 1..];
    case Some(s) =>
      assert u[i..][|Encode16(s)|..] == u[i + |Encode16(s)|..];
  }

  /** The count is what the writer uses exactly when the code units are well-formed; otherwise it is larger. */
  lemma {:induction false} LengthIsExact(u: seq<Unit>)
    ensures |Utf8Of(Scan16(u))| <= Length16(u)
    ensures |Utf8Of(Scan16(u))| == Length16(u) <==> WellFormed16(u)
    decreases |u|
  {
    if u != [] {
      match First16(u)
      case None =>
      case Some(s) =>
        var rest := u[|Encode16(s)|..];
        LengthIsExact(rest);
        Utf8Cons(s, Scan16(rest));
        Utf16Cons(s, Scan16(rest));
        First16IsEncoded(u);
        assert u == Encode16(s) + rest;
        assert (Encode16(s) + Utf16Of(Scan16(rest)))[|Encode16(s)|..] == Utf16Of(Scan16(rest));
    }
  }

  // ---------------------------------------------------------------- there and back

  lemma {:induction false} PrefixIsShorter(all: seq<Scalar>, k: nat)
    requires k <= |all|
    ensures |Utf8Of(all[..k])| <= |Utf8Of(all)|
    decreases |all| - k
  {
    if k == |all| {
      assert all[..k] == all;
    } else {
      CountNext8(all, k);
      PrefixIsShorter(all, k + 1);
    }
  }

  /** A writer given the counted length converts everything. */
  lemma CountedRoomIsEnough(all: seq<Scalar>, k: nat, used: nat, room: nat)
    requires k <= |all| && used == |Utf8Of(all[..k])| <= room == |Utf8Of(all)| < TWO_32
    requires k < |all| ==> NoRoom(room - used, all[k])
    ensures k == |all|
  {
    if k < |all| {
      CountNext8(all, k);
      PrefixIsShorter(all, k + 1);
      NoRoomIsExact(room - used, all[k]);
    }
  }

  lemma {:induction false} FewerUnits(all: seq<Token>, k: nat)
    requires k <= |all|
    ensures |UnitsOf(all[..k])| <= |UnitsOf(all)|
    decreases |all| - k
  {
    if k == |all| {
      assert all[..k] == all;
    } else {
      CountNext16(all, k);
      FewerUnits(all, k + 1);
    }
  }

  lemma CountedUnitsAreEnough(all: seq<Token>, k: nat, used: nat, room: nat)
    requires k <= |all| && used == |UnitsOf(all[..k])| && room == |UnitsOf(all)|
    requires k < |all| ==> room < used + |TokenUnits(all[k])|
    ensures k == |all|
  {
    if k < |all| {
      CountNext16(all, k);
      FewerUnits(all, k + 1);
    }
  }

  /** Counting, writing, counting and reading: well-formed text of less than 2^32 bytes comes back as it was. */
  method ThereAndBack(u: seq<Unit>) returns (v: seq<Unit>)
    requires WellFormed16(u) && Length16(u) < TWO_32
    ensures v == u
  {
    hide Scan16, Scan8, Utf8Of, UnitsOf, BytesOf, Utf16Of;
    ghost var all := Scan16(u);
    LengthIsExact(u);
    RoundTrip(u);
    var n := ToUtf8Len(u);
    var bytes := new Byte[n];
    var consumed, used, k := ToUtf8(u, bytes, n);
    if n != 0 { CountedRoomIsEnough(all, k, used, n); }
    assert all[..k] == all;
    var b := bytes[..];
    assert b == Utf8Of(all);
    var m := FromUtf8Len(b);
    var chars := new Unit[m];
    ghost var ts := Scan8(b);
    var _, taken, j := FromUtf8(b, chars, m);
    if m != 0 { CountedUnitsAreEnough(ts, j, taken, m); }
    assert ts[..j] == ts;
    v := chars[..];
  }
}

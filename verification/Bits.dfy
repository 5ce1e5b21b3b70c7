/** Buckets of eight bits, numbered from the left, and ranges of bits across buckets. */
module Bits {

  type Bucket = bv8

  /** The bucket with only bit `i` set. */
  function Single(i: nat): Bucket {
    match i
    case 0 => 0x80
    case 1 => 0x40
    case 2 => 0x20
    case 3 => 0x10
    case 4 => 0x08
    case 5 => 0x04
    case 6 => 0x02
    case _ => 0x01
  }

  /** `__CFBitVectorBit` within a bucket */
  predicate BitOf(b: Bucket, i: nat) {
    b & Single(i) != 0
  }

  function ShiftLeft(b: Bucket, n: nat): Bucket {
    match n
    case 0 => b
    case 1 => b << 1
    case 2 => b << 2
    case 3 => b << 3
    case 4 => b << 4
    case 5 => b << 5
    case 6 => b << 6
    case 7 => b << 7
    case _ => 0
  }

  function ShiftRight(b: Bucket, n: nat): Bucket {
    match n
    case 0 => b
    case 1 => b >> 1
    case 2 => b >> 2
    case 3 => b >> 3
    case 4 => b >> 4
    case 5 => b >> 5
    case 6 => b >> 6
    case 7 => b >> 7
    case _ => 0
  }

  /** `__CFBitBucketMask` */
  function Mask(bottom: nat, top: nat): Bucket
    requires bottom <= top < 8
  {
    ShiftRight(ShiftLeft(0xFF, 8 - top + bottom - 1), bottom)
  }

  /** The mask has exactly the bits from bottom to top. */
  lemma MaskIsRange(bottom: nat, top: nat, i: nat)
    requires bottom <= top < 8 && i < 8
    ensures BitOf(Mask(bottom, top), i) <==> bottom <= i <= top
  {
    var left := 8 - top + bottom - 1;
    var m := ShiftLeft(0xFF, left);
    assert Mask(bottom, top) == ShiftRight(m, bottom);
    ShiftedRight(m, bottom, i);
    if bottom <= i { LeftMask(left, i - bottom); }
  }

  lemma LeftMask(n: nat, i: nat)
    requires n < 8 && i < 8
    ensures BitOf(ShiftLeft(0xFF, n), i) <==> i + n < 8
  {
  }

  lemma ShiftedRight(b: Bucket, n: nat, i: nat)
    requires n < 8 && i < 8
    ensures BitOf(ShiftRight(b, n), i) <==> n <= i && BitOf(b, i - n)
  {
  }

  // ---------------------------------------------------------------- mappers

  datatype Mapper = Zero | One | Flip | Count(value: bool)

  /** What each mapper makes of a bucket; counting leaves it as it is. */
  function Apply(mapper: Mapper, b: Bucket): Bucket {
    match mapper
    case Zero => 0
    case One => 0xFF
    case Flip => 0xFF ^ b
    case Count(_) => b
  }

  predicate ApplyBit(mapper: Mapper, bit: bool) {
    match mapper
    case Zero => false
    case One => true
    case Flip => !bit
    case Count(_) => bit
  }

  lemma ApplyIsBitwise(mapper: Mapper, b: Bucket, i: nat)
    requires i < 8
    ensures BitOf(Apply(mapper, b), i) == ApplyBit(mapper, BitOf(b, i))
  {
  }

  /** A bucket with the bits of the mask taken from another. */
  function Merge(b: Bucket, n: Bucket, mask: Bucket): Bucket {
    (b & !mask) | (n & mask)
  }

  lemma MergeIsBitwise(b: Bucket, n: Bucket, mask: Bucket, i: nat)
    requires i < 8
    ensures BitOf(Merge(b, n, mask), i) == if BitOf(mask, i) then BitOf(n, i) else BitOf(b, i)
  {
  }

  // ---------------------------------------------------------------- flat bits

  /** All the bits of a row of buckets. */
  function BitsOf(s: seq<Bucket>): (bits: seq<bool>)
    ensures |bits| == 8 * |s|
  {
    seq(8 * |s|, i requires 0 <= i < 8 * |s| => BitOf(s[i / 8], i % 8))
  }

  function MapRange(bits: seq<bool>, loc: nat, len: nat, mapper: Mapper): (r: seq<bool>)
    ensures |r| == |bits|
  {
    seq(|bits|, i requires 0 <= i < |bits| => if loc <= i < loc + len then ApplyBit(mapper, bits[i]) else bits[i])
  }

  lemma MapNothing(bits: seq<bool>, loc: nat, mapper: Mapper)
    ensures MapRange(bits, loc, 0, mapper) == bits
  {
  }

  /** Two neighbouring ranges one after the other. */
  lemma MapOn(bits: seq<bool>, loc: nat, m: nat, n: nat, mapper: Mapper)
    ensures MapRange(MapRange(bits, loc, m, mapper), loc + m, n, mapper) == MapRange(bits, loc, m + n, mapper)
  {
  }

  /** Changing the bits from bottom to top of bucket `k`. */
  lemma BucketMapped(s: seq<Bucket>, k: nat, bottom: nat, top: nat, mapper: Mapper)
    requires k < |s| && bottom <= top < 8
    ensures var b := Merge(s[k], Apply(mapper, s[k]), Mask(bottom, top));
            BitsOf(s[k := b]) == MapRange(BitsOf(s), 8 * k + bottom, top - bottom + 1, mapper)
  {
    hide BitOf, Mask, Merge, Apply;
    var b := Merge(s[k], Apply(mapper, s[k]), Mask(bottom, top));
    forall i | 0 <= i < 8
      ensures BitOf(b, i) == if bottom <= i <= top then ApplyBit(mapper, BitOf(s[k], i)) else BitOf(s[k], i)
    {
      MergeIsBitwise(s[k], Apply(mapper, s[k]), Mask(bottom, top), i);
      MaskIsRange(bottom, top, i);
      ApplyIsBitwise(mapper, s[k], i);
    }
    var x, y := BitsOf(s[k := b]), MapRange(BitsOf(s), 8 * k + bottom, top - bottom + 1, mapper);
    forall j | 0 <= j < |x|
      ensures x[j] == y[j]
    {
      InBucket(j, k);
    }
  }

  lemma InBucket(j: nat, k: nat)
    ensures j / 8 == k <==> 8 * k <= j < 8 * k + 8
    ensures j / 8 == k ==> j % 8 == j - 8 * k
  {
  }

  lemma FullMask(b: Bucket, n: Bucket)
    ensures Mask(0, 7) == 0xFF && Merge(b, n, Mask(0, 7)) == n
  {
  }

  // ---------------------------------------------------------------- counting

  function AsInt(b: bool): nat {
    if b then 1 else 0
  }

  /** How many of the bits from `loc` on have the given value. */
  function CountIn(bits: seq<bool>, loc: nat, len: nat, value: bool): nat
    requires loc + len <= |bits|
  {
    if len == 0 then 0 else CountIn(bits, loc, len - 1, value) + AsInt(bits[loc + len - 1] == value)
  }

  lemma {:induction false} CountOn(bits: seq<bool>, loc: nat, m: nat, n: nat, value: bool)
    requires loc + m + n <= |bits|
    ensures CountIn(bits, loc, m + n, value) == CountIn(bits, loc, m, value) + CountIn(bits, loc + m, n, value)
  {
    if n > 0 {
      CountOn(bits, loc, m, n - 1, value);
    }
  }

  /** The places in a range that have the given value. */
  ghost function Places(bits: seq<bool>, loc: nat, len: nat, value: bool): set<nat>
    requires loc + len <= |bits|
  {
    set i: nat | loc <= i < loc + len && bits[i] == value
  }

  /** Counting finds every such place. */
  lemma {:induction false} CountIsSize(bits: seq<bool>, loc: nat, len: nat, value: bool)
    requires loc + len <= |bits|
    ensures CountIn(bits, loc, len, value) == |Places(bits, loc, len, value)|
  {
    if len == 0 {
      assert Places(bits, loc, 0, value) == {};
    } else {
      CountIsSize(bits, loc, len - 1, value);
      var last := loc + len - 1;
      assert Places(bits, loc, len, value) == Places(bits, loc, len - 1, value) + if bits[last] == value then {last} else {};
    }
  }

  /** Every bit has one of the two values; setting a range and flipping it change the counts accordingly. */
  lemma {:induction false} CountsAddUp(bits: seq<bool>, loc: nat, len: nat, n: nat)
    requires loc + len <= |bits| && n <= len
    ensures CountIn(bits, loc, n, true) + CountIn(bits, loc, n, false) == n
    ensures CountIn(MapRange(bits, loc, len, One), loc, n, true) == n
    ensures CountIn(MapRange(bits, loc, len, Zero), loc, n, false) == n
    ensures CountIn(MapRange(bits, loc, len, Flip), loc, n, true) == CountIn(bits, loc, n, false)
  {
    if n > 0 { CountsAddUp(bits, loc, len, n - 1); }
  }

  /** Flipping a range twice restores it. */
  lemma FlipTwice(bits: seq<bool>, loc: nat, len: nat)
    ensures MapRange(MapRange(bits, loc, len, Flip), loc, len, Flip) == bits
  {
  }

  /** What became of the bit at `i`. */
  lemma MappedBit(bits: seq<bool>, loc: nat, len: nat, mapper: Mapper, i: nat)
    requires i < |bits|
    ensures var now := MapRange(bits, loc, len, mapper)[i];
            if !(loc <= i < loc + len) || mapper.Count? then now == bits[i]
            else if mapper.Flip? then now != bits[i]
            else now == mapper.One?
  {
  }

  /** `__CFNibbleBitCount` */
  function NibbleCount(n: Bucket): nat {
    match n
    case 0 => 0 case 1 => 1 case 2 => 1 case 3 => 2
    case 4 => 1 case 5 => 2 case 6 => 2 case 7 => 3
    case 8 => 1 case 9 => 2 case 10 => 2 case 11 => 3
    case 12 => 2 case 13 => 3 case 14 => 3 case _ => 4
  }

  /** The number of set bits, by the two nibbles. */
  function SetBits(b: Bucket): nat {
    NibbleCount(b & 0xF) + NibbleCount((b >> 4) & 0xF)
  }

  lemma NibbleBits(b: Bucket)
    ensures NibbleCount(b & 0xF) == AsInt(b & 8 != 0) + AsInt(b & 4 != 0) + AsInt(b & 2 != 0) + AsInt(b & 1 != 0)
  {
  }

  lemma HighNibble(b: Bucket)
    ensures ((b >> 4) & 8 != 0) == (b & 0x80 != 0) && ((b >> 4) & 4 != 0) == (b & 0x40 != 0)
    ensures ((b >> 4) & 2 != 0) == (b & 0x20 != 0) && ((b >> 4) & 1 != 0) == (b & 0x10 != 0)
  {
  }

  lemma SetBitsAreBits(b: Bucket)
    ensures SetBits(b) == AsInt(BitOf(b, 0)) + AsInt(BitOf(b, 1)) + AsInt(BitOf(b, 2)) + AsInt(BitOf(b, 3))
                        + AsInt(BitOf(b, 4)) + AsInt(BitOf(b, 5)) + AsInt(BitOf(b, 6)) + AsInt(BitOf(b, 7))
  {
    NibbleBits(b);
    NibbleBits(b >> 4);
    HighNibble(b);
  }

  /** `__CFBitVectorCountBits` on one bucket: the bits of the mask that have the given value. */
  function MaskedCount(b: Bucket, mask: Bucket, value: bool): nat {
    SetBits((if value then b else !b) & mask)
  }

  lemma {:induction false} CountNone(x: seq<bool>, loc: nat, len: nat)
    requires loc + len <= |x| && forall i :: loc <= i < loc + len ==> !x[i]
    ensures CountIn(x, loc, len, true) == 0
  {
    if len > 0 { CountNone(x, loc, len - 1); }
  }

  lemma {:induction false} CountSame(x: seq<bool>, at: nat, bits: seq<bool>, loc: nat, len: nat, value: bool)
    requires at + len <= |x| && loc + len <= |bits|
    requires forall j :: at <= j < at + len ==> x[j] == (bits[j - at + loc] == value)
    ensures CountIn(x, at, len, true) == CountIn(bits, loc, len, value)
  {
    if len > 0 {
      CountSame(x, at, bits, loc, len - 1, value);
      assert x[at + len - 1] == (bits[loc + len - 1] == value);
    }
  }

  function Eight(b: Bucket): (x: seq<bool>)
    ensures |x| == 8
  {
    seq(8, i requires 0 <= i < 8 => BitOf(b, i))
  }

  lemma BitAt(s: seq<Bucket>, k: nat, j: nat)
    requires k < |s| && j < 8
    ensures BitsOf(s)[8 * k + j] == BitOf(s[k], j)
  {
    InBucket(8 * k + j, k);
  }

  lemma EightCounted(b: Bucket)
    ensures CountIn(Eight(b), 0, 8, true) == SetBits(b)
  {
    hide BitOf, SetBits, CountIn;
    SetBitsAreBits(b);
    var x := Eight(b);
    CountNext(x, 0);
    CountNext(x, 1);
    CountNext(x, 2);
    CountNext(x, 3);
    CountNext(x, 4);
    CountNext(x, 5);
    CountNext(x, 6);
    CountNext(x, 7);
  }

  lemma CountNext(x: seq<bool>, n: nat)
    requires n < |x|
    ensures CountIn(x, 0, n + 1, true) == CountIn(x, 0, n, true) + AsInt(x[n])
    ensures CountIn(x, 0, 0, true) == 0
  {
  }

  lemma MaskedBit(b: Bucket, mask: Bucket, value: bool, i: nat)
    requires i < 8
    ensures BitOf((if value then b else !b) & mask, i) <==> BitOf(mask, i) && BitOf(b, i) == value
  {
  }

  /** Counting one bucket's masked bits counts the bits of a range. */
  lemma BucketCounted(s: seq<Bucket>, k: nat, bottom: nat, top: nat, value: bool)
    requires k < |s| && bottom <= top < 8
    ensures MaskedCount(s[k], Mask(bottom, top), value) == CountIn(BitsOf(s), 8 * k + bottom, top - bottom + 1, value)
  {
    hide BitOf, Mask, SetBits, CountIn, Eight, BitsOf;
    var b := (if value then s[k] else !s[k]) & Mask(bottom, top);
    var x, bits := Eight(b), BitsOf(s);
    MaskedBits(s, k, bottom, top, value);
    EightCounted(b);
    var len := top - bottom + 1;
    CountOn(x, 0, bottom, 8 - bottom, true);
    CountOn(x, bottom, len, 8 - bottom - len, true);
    CountNone(x, 0, bottom);
    CountNone(x, bottom + len, 8 - bottom - len);
    CountSame(x, bottom, bits, 8 * k + bottom, len, value);
  }

  lemma MaskedBits(s: seq<Bucket>, k: nat, bottom: nat, top: nat, value: bool)
    requires k < |s| && bottom <= top < 8
    ensures var x := Eight((if value then s[k] else !s[k]) & Mask(bottom, top));
            forall j :: 0 <= j < 8 ==> x[j] == (bottom <= j <= top && BitsOf(s)[8 * k + j] == value)
  {
    hide BitOf, Mask, Single, BitsOf;
    var x := Eight((if value then s[k] else !s[k]) & Mask(bottom, top));
    forall j | 0 <= j < 8
      ensures x[j] == (bottom <= j <= top && BitsOf(s)[8 * k + j] == value)
    {
      MaskedBit(s[k], Mask(bottom, top), value, j);
      MaskIsRange(bottom, top, j);
      BitAt(s, k, j);
    }
  }
}

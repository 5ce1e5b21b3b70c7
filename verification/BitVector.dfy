/** CFBitVector: range operations that work bucket by bucket with masks. */
module BitVector {
  import opened Bits

  /** How far a mapping has come: `done` bits from `loc` on. */
  ghost predicate Mapped(bits: seq<bool>, now: seq<Bucket>, loc: nat, done: nat, mapper: Mapper, count: nat) {
    && loc + done <= |bits| && BitsOf(now) == MapRange(bits, loc, done, mapper)
    && (mapper.Count? ==> count == CountIn(bits, loc, done, mapper.value))
  }

  lemma CountingChangesNothing(bits: seq<bool>, loc: nat, len: nat, value: bool)
    ensures MapRange(bits, loc, len, Count(value)) == bits
  {
  }

  lemma MapStarts(now: seq<Bucket>, loc: nat, mapper: Mapper)
    requires loc <= 8 * |now|
    ensures Mapped(BitsOf(now), now, loc, 0, mapper, 0)
  {
    MapNothing(BitsOf(now), loc, mapper);
  }

  /** Bits from bottom to top of the bucket that comes next. */
  lemma MapNext(bits: seq<bool>, now: seq<Bucket>, loc: nat, done: nat, mapper: Mapper, count: nat, k: nat, bottom: nat, top: nat)
    requires Mapped(bits, now, loc, done, mapper, count) && k < |now| && bottom <= top < 8 && loc + done == 8 * k + bottom
    requires 8 * |now| == |bits|
    ensures var mask := Mask(bottom, top);
            var c := if mapper.Count? then MaskedCount(now[k], mask, mapper.value) else 0;
            Mapped(bits, now[k := Merge(now[k], Apply(mapper, now[k]), mask)], loc, done + (top - bottom + 1), mapper, count + c)
  {
    hide Mask, Merge, Apply, MaskedCount, BitsOf, MapRange, CountIn;
    var n := top - bottom + 1;
    BucketMapped(now, k, bottom, top, mapper);
    MapOn(bits, loc, done, n, mapper);
    if mapper.Count? {
      CountingChangesNothing(bits, loc, done, mapper.value);
      BucketCounted(now, k, bottom, top, mapper.value);
      CountOn(bits, loc, done, n, mapper.value);
    }
  }

  /** A mapper call on part of a bucket, and the masked write of its answer. */
  method MapBucket(a: array<Bucket>, k: nat, bottom: nat, top: nat, mapper: Mapper) returns (c: nat)
    requires k < a.Length && bottom <= top < 8
    modifies a
    ensures a[..] == old(a[..])[k := Merge(old(a[k]), Apply(mapper, old(a[k])), Mask(bottom, top))]
    ensures c == if mapper.Count? then MaskedCount(old(a[k]), Mask(bottom, top), mapper.value) else 0
  {
    hide Mask, Merge, Apply, MaskedCount;
    var mask := Mask(bottom, top);
    c := if mapper.Count? then MaskedCount(a[k], mask, mapper.value) else 0;
    ghost var s := a[..];
    a[k] := Merge(a[k], Apply(mapper, a[k]), mask);
    assert a[..] == s[k := Merge(s[k], Apply(mapper, s[k]), mask)];
  }

  /** A mapper call on a whole bucket, whose answer replaces it. */
  method MapWholeBucket(a: array<Bucket>, k: nat, mapper: Mapper) returns (c: nat)
    requires k < a.Length
    modifies a
    ensures a[..] == old(a[..])[k := Merge(old(a[k]), Apply(mapper, old(a[k])), Mask(0, 7))]
    ensures c == if mapper.Count? then MaskedCount(old(a[k]), Mask(0, 7), mapper.value) else 0
  {
    hide Mask, Merge, Apply, MaskedCount;
    FullMask(a[k], Apply(mapper, a[k]));
    c := if mapper.Count? then MaskedCount(a[k], 0xFF, mapper.value) else 0;
    ghost var s := a[..];
    a[k] := Apply(mapper, a[k]);
    assert a[..] == s[k := Apply(mapper, s[k])];
  }

  /** `__CFBitVectorInternalMap`: ramps up to a bucket boundary, goes on by whole buckets and ramps down. */
  method InternalMap(a: array<Bucket>, loc: nat, len: nat, mapper: Mapper) returns (count: nat)
    requires loc + len <= 8 * a.Length
    modifies a
    ensures BitsOf(a[..]) == MapRange(old(BitsOf(a[..])), loc, len, mapper)
    ensures mapper.Count? ==> count == CountIn(old(BitsOf(a[..])), loc, len, mapper.value)
  {
    hide Mask, Merge, Apply, MaskedCount, BitsOf, MapRange, CountIn;
    ghost var bits := BitsOf(a[..]);
    MapStarts(a[..], loc, mapper);
    count := 0;
    if len == 0 {
      return;
    }
    var k := loc / 8;
    var bottom := loc % 8;
    var left := len;
    if bottom + left < 8 {
      MapNext(bits, a[..], loc, 0, mapper, count, k, bottom, bottom + left - 1);
      count := MapBucket(a, k, bottom, bottom + left - 1, mapper);
      left := 0;
    } else {
      MapNext(bits, a[..], loc, 0, mapper, count, k, bottom, 7);
      count := MapBucket(a, k, bottom, 7, mapper);
      left := left - (8 - bottom);
    }
    k := k + 1;
    var nBuckets := left / 8;
    left := left - nBuckets * 8;
    while nBuckets != 0
      invariant 0 <= nBuckets && left < 8 && (nBuckets != 0 || left != 0 ==> loc + (len - nBuckets * 8 - left) == 8 * k)
      invariant nBuckets * 8 + left <= len && Mapped(bits, a[..], loc, len - nBuckets * 8 - left, mapper, count)
    {
      MapNext(bits, a[..], loc, len - nBuckets * 8 - left, mapper, count, k, 0, 7);
      var c := MapWholeBucket(a, k, mapper);
      count := count + c;
      k := k + 1;
      nBuckets := nBuckets - 1;
    }
    if left != 0 {
      MapNext(bits, a[..], loc, len - left, mapper, count, k, 0, left - 1);
      var c := MapBucket(a, k, 0, left - 1, mapper);
      count := count + c;
    }
  }

  class Vector {
    var count: nat
    var capacity: nat
    var buckets: array<Bucket>

    ghost predicate Valid()
      reads this
    {
      count <= capacity && buckets.Length == capacity / 8 + 1
    }

    ghost function Contents(): (bits: seq<bool>)
      requires Valid()
      reads this, buckets
    {
      BitsOf(buckets[..])[..count]
    }

    constructor ()
      ensures Valid() && fresh(buckets) && Contents() == []
    {
      count, capacity := 0, RoundUp(0);
      buckets := new Bucket[RoundUp(0) / 8 + 1](_ => 0);
    }

    /** `CFBitVectorSetBits` and `CFBitVectorFlipBits` */
    method MapBits(loc: nat, len: nat, mapper: Mapper) returns (n: nat)
      requires Valid() && loc + len <= count
      modifies buckets
      ensures Valid() && Contents() == MapRange(old(Contents()), loc, len, mapper)
      ensures mapper.Count? ==> n == CountIn(old(Contents()), loc, len, mapper.value)
      ensures forall i :: 0 <= i < count ==>
                if !(loc <= i < loc + len) || mapper.Count? then Contents()[i] == old(Contents())[i]
                else if mapper.Flip? then Contents()[i] != old(Contents())[i]
                else Contents()[i] == mapper.One?
    {
      hide BitsOf, MapRange, CountIn;
      MappedBits(Contents(), loc, len, mapper);
      ghost var bits := BitsOf(buckets[..]);
      n := InternalMap(buckets, loc, len, mapper);
      MapOfPrefix(bits, count, loc, len, mapper);
      CountOfPrefix(bits, count, loc, len, if mapper.Count? then mapper.value else false);
    }

    /** `CFBitVectorGetCountOfBit` */
    method GetCountOfBit(loc: nat, len: nat, value: bool) returns (n: nat)
      requires Valid() && loc + len <= count
      modifies buckets
      ensures Valid() && Contents() == old(Contents()) && n == CountIn(Contents(), loc, len, value)
      ensures n == |Places(Contents(), loc, len, value)|
    {
      CountIsSize(Contents(), loc, len, value);
      CountingChangesNothing(Contents(), loc, len, value);
      n := MapBits(loc, len, Count(value));
    }

    /** `__CFBitVectorGrow`: a block for the new count, with whatever was in memory after the old bits. */
    method Grow(newCount: nat)
      requires Valid() && count < newCount
      modifies `capacity, `buckets
      ensures Valid() && newCount <= capacity && fresh(buckets)
      ensures Contents() == old(Contents())
    {
      capacity := RoundUp(newCount);
      var block := new Bucket[capacity / 8 + 1];
      var was := buckets;
      var n := if was.Length < block.Length then was.Length else block.Length;
      forall i | 0 <= i < n { block[i] := was[i]; }
      buckets := block;
      assert block[..n] == was[..n];
      SamePrefix(was[..], block[..], n, count);
    }

    /** `CFBitVectorSetCount`: cut off at the end, or grown by zero bits. */
    method SetCount(newCount: nat)
      requires Valid()
      modifies this, buckets
      ensures Valid() && count == newCount && (buckets == old(buckets) || fresh(buckets))
      ensures Contents() == if newCount <= old(count) then old(Contents())[..newCount]
                            else old(Contents()) + Clear(newCount - old(count))
    {
      hide BitsOf, MapRange;
      ghost var was := Contents();
      if count < newCount {
        Grow(newCount);
        ghost var bits := BitsOf(buckets[..]);
        assert bits[..count] == was;
        var _ := InternalMap(buckets, count, newCount - count, Zero);
        ZerosAppended(bits, count, newCount);
      }
      count := newCount;
    }

    /** `CFBitVectorSetAllBits`: the bits of the last bucket by a map, the whole buckets by memset. */
    method SetAllBits(value: bool)
      requires Valid()
      modifies buckets
      ensures Valid() && Contents() == MapRange(old(Contents()), 0, count, if value then One else Zero)
      ensures forall i :: 0 <= i < count ==> Contents()[i] == value
    {
      hide BitsOf, MapRange;
      MappedBits(Contents(), 0, count, if value then One else Zero);
      var mapper := if value then One else Zero;
      var nBuckets := count / 8;
      var leftover := count - nBuckets * 8;
      ghost var bits := BitsOf(buckets[..]);
      MapNothing(bits, nBuckets * 8, mapper);
      if 0 < leftover {
        var _ := InternalMap(buckets, nBuckets * 8, leftover, mapper);
      }
      ghost var s := buckets[..];
      var fill: Bucket := if value then 0xFF else 0;
      forall i | 0 <= i < nBuckets { buckets[i] := fill; }
      FilledBuckets(s, buckets[..], nBuckets, fill, mapper);
      MapBothWays(bits, nBuckets * 8, leftover, mapper);
      MapOfPrefix(bits, count, 0, count, mapper);
    }
  }

  /** `__CFBitVectorRoundUpCapacity` */
  function RoundUp(capacity: nat): (r: nat)
    ensures capacity <= r && r % 64 == 0
  {
    ((if capacity == 0 then 1 else capacity) + 63) / 64 * 64
  }

  lemma MappedBits(bits: seq<bool>, loc: nat, len: nat, mapper: Mapper)
    ensures forall i :: 0 <= i < |bits| ==>
              var now := MapRange(bits, loc, len, mapper)[i];
              if !(loc <= i < loc + len) || mapper.Count? then now == bits[i]
              else if mapper.Flip? then now != bits[i]
              else now == mapper.One?
  {
    hide MapRange;
    forall i | 0 <= i < |bits|
      ensures var now := MapRange(bits, loc, len, mapper)[i];
              if !(loc <= i < loc + len) || mapper.Count? then now == bits[i]
              else if mapper.Flip? then now != bits[i]
              else now == mapper.One?
    {
      MappedBit(bits, loc, len, mapper, i);
    }
  }

  function Clear(n: nat): seq<bool> {
    seq(n, _ => false)
  }

  lemma MapOfPrefix(bits: seq<bool>, n: nat, loc: nat, len: nat, mapper: Mapper)
    requires loc + len <= n <= |bits|
    ensures MapRange(bits, loc, len, mapper)[..n] == MapRange(bits[..n], loc, len, mapper)
  {
  }

  lemma {:induction false} CountOfPrefix(bits: seq<bool>, n: nat, loc: nat, len: nat, value: bool)
    requires loc + len <= n <= |bits|
    ensures CountIn(bits, loc, len, value) == CountIn(bits[..n], loc, len, value)
  {
    if len > 0 { CountOfPrefix(bits, n, loc, len - 1, value); }
  }

  lemma SamePrefix(s: seq<Bucket>, t: seq<Bucket>, n: nat, count: nat)
    requires n <= |s| && n <= |t| && s[..n] == t[..n] && count <= 8 * n
    ensures BitsOf(s)[..count] == BitsOf(t)[..count]
  {
    forall i | 0 <= i < count
      ensures BitsOf(s)[i] == BitsOf(t)[i]
    {
      assert s[..n][i / 8] == t[..n][i / 8];
    }
  }

  lemma ZerosAppended(bits: seq<bool>, n: nat, m: nat)
    requires n <= m <= |bits|
    ensures MapRange(bits, n, m - n, Zero)[..m] == bits[..n] + Clear(m - n)
  {
  }

  /** Setting whole buckets maps their bits. */
  lemma FilledBuckets(s: seq<Bucket>, t: seq<Bucket>, n: nat, fill: Bucket, mapper: Mapper)
    requires n <= |s| == |t| && (forall i :: 0 <= i < |s| ==> t[i] == if i < n then fill else s[i])
    requires (mapper == One && fill == 0xFF) || (mapper == Zero && fill == 0)
    ensures BitsOf(t) == MapRange(BitsOf(s), 0, 8 * n, mapper)
  {
    hide BitOf;
    forall i | 0 <= i < |BitsOf(t)|
      ensures BitsOf(t)[i] == MapRange(BitsOf(s), 0, 8 * n, mapper)[i]
    {
      FillBit(mapper, fill, i % 8);
    }
  }

  lemma FillBit(mapper: Mapper, fill: Bucket, i: nat)
    requires (mapper == One && fill == 0xFF) || (mapper == Zero && fill == 0)
    requires i < 8
    ensures BitOf(fill, i) == mapper.One?
  {
  }

  lemma MapBothWays(bits: seq<bool>, m: nat, n: nat, mapper: Mapper)
    requires mapper.One? || mapper.Zero?
    ensures MapRange(MapRange(bits, m, n, mapper), 0, m, mapper) == MapRange(bits, 0, m + n, mapper)
  {
  }
}

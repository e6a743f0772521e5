/** Fixed-width big-endian keys of the stable B-tree maps. The trees compare keys on a byte level, so
    the encodings must sort the way the derived field order does. */
module Codec {
  import opened Types

  /** Key of the archive's anchor index. */
  datatype AnchorIndexKey = AnchorIndexKey(anchor: u64, timestamp: u64, logIndex: u64)

  /** Key of the event map: the counter tells events of one nanosecond apart. */
  datatype EventKey = EventKey(time: u64, counter: u16)

  function Pow256(width: nat): nat {
    if width == 0 then 1 else 256 * Pow256(width - 1)
  }

  function ToBigEndian(n: nat, width: nat): (bs: Bytes)
    requires n < Pow256(width)
    ensures |bs| == width
  {
    if width == 0 then [] else ToBigEndian(n / 256, width - 1) + [n % 256]
  }

  function FromBigEndian(bs: Bytes): (n: nat)
    ensures n < Pow256(|bs|)
  {
    if bs == [] then 0 else 256 * FromBigEndian(bs[..|bs| - 1]) + bs[|bs| - 1]
  }

  /** Bytewise lexicographic order. */
  predicate BytesLess(a: Bytes, b: Bytes) {
    if a == [] || b == [] then a == [] && b != []
    else a[0] < b[0] || (a[0] == b[0] && BytesLess(a[1..], b[1..]))
  }

  function U64ToBytes(n: u64): (bs: Bytes)
    ensures |bs| == 8
  {
    assert Pow256(8) == TWO_64;
    ToBigEndian(n, 8)
  }

  function U16ToBytes(n: u16): (bs: Bytes)
    ensures |bs| == 2
  {
    assert Pow256(2) == TWO_16;
    ToBigEndian(n, 2)
  }

  function U64FromBytes(bs: Bytes): u64
    requires |bs| == 8
  {
    assert Pow256(8) == TWO_64;
    FromBigEndian(bs)
  }

  function U16FromBytes(bs: Bytes): u16
    requires |bs| == 2
  {
    assert Pow256(2) == TWO_16;
    FromBigEndian(bs)
  }

  function EncodeAnchorIndexKey(k: AnchorIndexKey): Bytes {
    U64ToBytes(k.anchor) + U64ToBytes(k.timestamp) + U64ToBytes(k.logIndex)
  }

  /** `None` where the source panics: each slice has to convert to exactly eight bytes. */
  function DecodeAnchorIndexKey(bs: Bytes): Option<AnchorIndexKey> {
    if |bs| != 24 then None
    else Some(AnchorIndexKey(U64FromBytes(bs[0..8]), U64FromBytes(bs[8..16]), U64FromBytes(bs[16..])))
  }

  function EncodeEventKey(k: EventKey): Bytes {
    U64ToBytes(k.time) + U16ToBytes(k.counter)
  }

  /** Unlike the anchor index key, trailing bytes are ignored: the last slice is `[8..10]`. */
  function DecodeEventKey(bs: Bytes): Option<EventKey> {
    if |bs| < 10 then None
    else Some(EventKey(U64FromBytes(bs[0..8]), U16FromBytes(bs[8..10])))
  }

  /** The order derived from the order of the fields. */
  predicate AnchorIndexKeyLess(a: AnchorIndexKey, b: AnchorIndexKey) {
    a.anchor < b.anchor || (a.anchor == b.anchor &&
    (a.timestamp < b.timestamp || (a.timestamp == b.timestamp && a.logIndex < b.logIndex)))
  }

  predicate EventKeyLess(a: EventKey, b: EventKey) {
    a.time < b.time || (a.time == b.time && a.counter < b.counter)
  }

  /** The position of a key in the derived order, as one number. */
  function AnchorIndexRank(k: AnchorIndexKey): int {
    k.anchor * TWO_128 + k.timestamp * TWO_64 + k.logIndex
  }

  function EventRank(k: EventKey): int {
    k.time * TWO_16 + k.counter
  }

  lemma {:induction false} BigEndianRoundTrip(n: nat, width: nat)
    requires n < Pow256(width)
    ensures FromBigEndian(ToBigEndian(n, width)) == n
  {
    if width > 0 {
      BigEndianRoundTrip(n / 256, width - 1);
    }
  }

  lemma {:induction false} BytesRoundTrip(bs: Bytes)
    ensures ToBigEndian(FromBigEndian(bs), |bs|) == bs
  {
    if bs != [] {
      BytesRoundTrip(bs[..|bs| - 1]);
    }
  }

  lemma {:induction false} ConcatenationOrder(a: Bytes, b: Bytes, c: Bytes, d: Bytes)
    requires |a| == |b|
    ensures BytesLess(a + c, b + d) <==> BytesLess(a, b) || (a == b && BytesLess(c, d))
  {
    if a == [] {
      assert a + c == c && b + d == d;
    } else {
      assert (a + c)[1..] == a[1..] + c && (b + d)[1..] == b[1..] + d;
      assert a == [a[0]] + a[1..] && b == [b[0]] + b[1..];
      ConcatenationOrder(a[1..], b[1..], c, d);
    }
  }

  lemma {:induction false} BigEndianOrder(m: nat, n: nat, width: nat)
    requires m < Pow256(width) && n < Pow256(width)
    ensures BytesLess(ToBigEndian(m, width), ToBigEndian(n, width)) <==> m < n
  {
    if width > 0 {
      var a, b := ToBigEndian(m / 256, width - 1), ToBigEndian(n / 256, width - 1);
      BigEndianOrder(m / 256, n / 256, width - 1);
      ConcatenationOrder(a, b, [m % 256], [n % 256]);
      BigEndianRoundTrip(m / 256, width - 1);
      BigEndianRoundTrip(n / 256, width - 1);
    }
  }

  lemma FieldsRoundTrip(n: u64, m: u16)
    ensures U64FromBytes(U64ToBytes(n)) == n
    ensures U16FromBytes(U16ToBytes(m)) == m
  {
    assert Pow256(8) == TWO_64 && Pow256(2) == TWO_16;
    BigEndianRoundTrip(n, 8);
    BigEndianRoundTrip(m, 2);
  }

  lemma FieldOrder(m: u64, n: u64)
    ensures BytesLess(U64ToBytes(m), U64ToBytes(n)) <==> m < n
    ensures U64ToBytes(m) == U64ToBytes(n) <==> m == n
  {
    assert Pow256(8) == TWO_64;
    BigEndianOrder(m, n, 8);
    BigEndianRoundTrip(m, 8);
    BigEndianRoundTrip(n, 8);
  }

  lemma CounterOrder(m: u16, n: u16)
    ensures BytesLess(U16ToBytes(m), U16ToBytes(n)) <==> m < n
  {
    assert Pow256(2) == TWO_16;
    BigEndianOrder(m, n, 2);
  }

  /** Decoding undoes encoding, and a token decodes to a key only if it is that key's encoding. */
  lemma AnchorIndexKeyCodec(k: AnchorIndexKey, bs: Bytes)
    ensures DecodeAnchorIndexKey(bs) == Some(k) <==> bs == EncodeAnchorIndexKey(k)
  {
    var e := EncodeAnchorIndexKey(k);
    assert e[0..8] == U64ToBytes(k.anchor) && e[8..16] == U64ToBytes(k.timestamp) && e[16..] == U64ToBytes(k.logIndex);
    FieldsRoundTrip(k.anchor, 0);
    FieldsRoundTrip(k.timestamp, 0);
    FieldsRoundTrip(k.logIndex, 0);
    if |bs| == 24 {
      BytesRoundTrip(bs[0..8]);
      BytesRoundTrip(bs[8..16]);
      BytesRoundTrip(bs[16..]);
      assert bs == bs[0..8] + bs[8..16] + bs[16..];
    }
  }

  lemma EventKeyCodec(k: EventKey, bs: Bytes)
    ensures DecodeEventKey(bs) == Some(k) <==> |bs| >= 10 && bs[..10] == EncodeEventKey(k)
  {
    var e := EncodeEventKey(k);
    assert e[0..8] == U64ToBytes(k.time) && e[8..10] == U16ToBytes(k.counter);
    FieldsRoundTrip(k.time, k.counter);
    if |bs| >= 10 {
      BytesRoundTrip(bs[0..8]);
      BytesRoundTrip(bs[8..10]);
      assert bs[..10] == bs[0..8] + bs[8..10];
    }
  }

  lemma AnchorIndexRankOrder(a: AnchorIndexKey, b: AnchorIndexKey)
    ensures AnchorIndexRank(a) < AnchorIndexRank(b) <==> AnchorIndexKeyLess(a, b)
    ensures AnchorIndexRank(a) == AnchorIndexRank(b) <==> a == b
  {
  }

  /** Byte order, derived order and rank order of anchor index keys are one order. */
  lemma AnchorIndexKeyOrder(a: AnchorIndexKey, b: AnchorIndexKey)
    ensures BytesLess(EncodeAnchorIndexKey(a), EncodeAnchorIndexKey(b)) <==> AnchorIndexKeyLess(a, b)
    ensures AnchorIndexRank(a) < AnchorIndexRank(b) <==> AnchorIndexKeyLess(a, b)
    ensures AnchorIndexRank(a) == AnchorIndexRank(b) <==> a == b
  {
    AnchorIndexRankOrder(a, b);
    FieldOrder(a.anchor, b.anchor);
    FieldOrder(a.timestamp, b.timestamp);
    FieldOrder(a.logIndex, b.logIndex);
    var x, y := U64ToBytes(a.anchor) + U64ToBytes(a.timestamp), U64ToBytes(b.anchor) + U64ToBytes(b.timestamp);
    ConcatenationOrder(x, y, U64ToBytes(a.logIndex), U64ToBytes(b.logIndex));
    ConcatenationOrder(U64ToBytes(a.anchor), U64ToBytes(b.anchor), U64ToBytes(a.timestamp), U64ToBytes(b.timestamp));
    assert x == y <==> a.anchor == b.anchor && a.timestamp == b.timestamp by {
      assert x[..8] == U64ToBytes(a.anchor) && x[8..] == U64ToBytes(a.timestamp);
      assert y[..8] == U64ToBytes(b.anchor) && y[8..] == U64ToBytes(b.timestamp);
    }
  }

  lemma EventKeyOrder(a: EventKey, b: EventKey)
    ensures BytesLess(EncodeEventKey(a), EncodeEventKey(b)) <==> EventKeyLess(a, b)
    ensures EventRank(a) < EventRank(b) <==> EventKeyLess(a, b)
    ensures EventRank(a) == EventRank(b) <==> a == b
  {
    FieldOrder(a.time, b.time);
    CounterOrder(a.counter, b.counter);
    ConcatenationOrder(U64ToBytes(a.time), U64ToBytes(b.time), U16ToBytes(a.counter), U16ToBytes(b.counter));
  }
}

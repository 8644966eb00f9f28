/**
 * An encoder for the subset of the RDB layout that the decoder understands,
 * and the round trips that tie it to the decoder: what the encoder writes,
 * the decoder reads back.
 */
module RdbEncoding {
  import opened Wrappers
  import opened Text
  import opened Keyspace
  import opened Rdb

  function Pow256(k: nat): nat {
    if k == 0 then 1 else 256 * Pow256(k - 1)
  }

  /** `n` as `count` bytes, least significant first. */
  function LeBytes(n: nat, count: nat): (bs: seq<byte>)
    requires n < Pow256(count)
    ensures |bs| == count
  {
    if count == 0 then [] else [(n % 256) as byte] + LeBytes(n / 256, count - 1)
  }

  lemma {:induction false} LeBytesValue(n: nat, count: nat)
    requires n < Pow256(count)
    ensures LeValue(LeBytes(n, count)) == n
  {
    if count > 0 {
      assert n / 256 < Pow256(count - 1);
      LeBytesValue(n / 256, count - 1);
      assert LeBytes(n, count)[1..] == LeBytes(n / 256, count - 1);
    }
  }

  lemma {:induction false} ReverseReverse(bs: seq<byte>)
    ensures Reverse(Reverse(bs)) == bs
  {
    if bs != [] {
      ReverseAppend(Reverse(bs[1..]), [bs[0]]);
      ReverseReverse(bs[1..]);
      assert Reverse([bs[0]]) == [bs[0]] by {
        assert [bs[0]][1..] == [];
      }
      assert [bs[0]] + bs[1..] == bs;
    }
  }

  lemma {:induction false} ReverseAppend(a: seq<byte>, b: seq<byte>)
    ensures Reverse(a + b) == Reverse(b) + Reverse(a)
  {
    if a == [] {
      assert a + b == b;
    } else {
      assert (a + b)[1..] == a[1..] + b;
      ReverseAppend(a[1..], b);
    }
  }

  lemma {:induction false} ReverseLength(bs: seq<byte>)
    ensures |Reverse(bs)| == |bs|
  {
    if bs != [] {
      ReverseLength(bs[1..]);
    }
  }

  /** Reading `mid` placed after `pre`: the bytes at positions `|pre|` onwards of `pre + mid + post`. */
  lemma Placed(pre: seq<byte>, mid: seq<byte>, post: seq<byte>)
    ensures (pre + mid + post)[|pre|..|pre| + |mid|] == mid
    ensures forall i :: 0 <= i < |mid| ==> (pre + mid + post)[|pre| + i] == mid[i]
  {
  }

  /** The bytes `e` sit at position `p` of `d`, byte by byte. */
  predicate At(d: seq<byte>, p: nat, e: seq<byte>)
    decreases |e|
  {
    if e == [] then p <= |d| else p < |d| && d[p] == e[0] && At(d, p + 1, e[1..])
  }

  /** `e` sits at `p` exactly when it is the slice of `d` there. */
  lemma {:induction false} AtSlice(d: seq<byte>, p: nat, e: seq<byte>)
    ensures At(d, p, e) <==> p + |e| <= |d| && d[p..p + |e|] == e
    decreases |e|
  {
    if e != [] {
      AtSlice(d, p + 1, e[1..]);
      if p + |e| <= |d| {
        assert d[p..p + |e|] == [d[p]] + d[p + 1..p + |e|];
        assert e == [e[0]] + e[1..];
      }
    }
  }

  /** Bytes `a + b` at `p` are `a` at `p` and `b` at `q`, right after `a`. */
  lemma AtSplit(d: seq<byte>, p: nat, a: seq<byte>, b: seq<byte>, q: nat)
    requires At(d, p, a + b) && q == p + |a|
    ensures At(d, p, a) && At(d, q, b)
  {
    AtSlice(d, p, a + b);
    AtSlice(d, p, a);
    AtSlice(d, p + |a|, b);
    assert d[p..p + |a|] == d[p..p + |a + b|][..|a|];
    assert d[p + |a|..p + |a| + |b|] == d[p..p + |a + b|][|a|..];
  }

  // ----- sizes -----

  /** The shortest size encoding of a count below 2^31. */
  function EncodeSize(n: nat): (bs: seq<byte>)
    requires n < 0x8000_0000
    ensures 1 <= |bs| <= 5
  {
    if n < 0x40 then [n as byte]
    else if n < 0x4000 then [(0x40 + n / 256) as byte, (n % 256) as byte]
    else
      ReverseLength(LeBytes(n, 4));
      [0x80] + Reverse(LeBytes(n, 4))
  }

  /** The size read returns the count the encoder wrote and stops right after it. */
  lemma {:induction false} SizeRoundTrip(n: nat, d: seq<byte>, p: nat)
    requires n < 0x8000_0000 && At(d, p, EncodeSize(n))
    ensures SizeEncoded(d, p) == Done(Int(n), p + |EncodeSize(n)|)
  {
    var e := EncodeSize(n);
    AtSlice(d, p, e);
    assert d[p] == d[p..p + |e|][0] == e[0];
    if n < 0x40 {
      SizeSixBit(d, p);
    } else if n < 0x4000 {
      assert d[p + 1] == d[p..p + |e|][1] == e[1];
      SizeFourteenBit(d, p);
      assert d[p] as int % 64 == n / 256;
    } else {
      var le := LeBytes(n, 4);
      ReverseLength(le);
      var (bs, q) := BytesAt(d, p + 1, 4);
      assert bs == d[p + 1..p + 5] == Reverse(le) by {
        assert d[p + 1..p + 5] == d[p..p + |e|][1..];
      }
      ReverseReverse(le);
      assert Reverse(bs)[..4] == le;
      LeBytesValue(n, 4);
    }
  }

  // ----- strings -----

  /** The values the encoder can write where the decoder reads a string. */
  datatype RdbString =
    | Raw(s: string)    // a length tag below 0xC0 and the characters, one byte each
    | Int8(v: int)      // tag 0xC0
    | Int16(v: int)     // tag 0xC1
    | Int32(v: int)     // tag 0xC2

  predicate ValidString(x: RdbString) {
    match x
    case Raw(s) => |s| < 0xC0 && forall i :: 0 <= i < |s| ==> s[i] as int < 256
    case Int8(v) => 0 <= v < 256
    case Int16(v) => -0x8000 <= v < 0x8000
    case Int32(v) => IsInt32(v)
  }

  /** The string the decoder makes of it with `Convert.ToString`. */
  function TextOf(x: RdbString): string {
    match x
    case Raw(s) => s
    case Int8(v) => IntToString(v)
    case Int16(v) => IntToString(v)
    case Int32(v) => IntToString(v)
  }

  function CharBytes(s: string): (bs: seq<byte>)
    requires forall i :: 0 <= i < |s| ==> s[i] as int < 256
    ensures |bs| == |s|
  {
    seq(|s|, i requires 0 <= i < |s| => s[i] as int as byte)
  }

  function EncodeString(x: RdbString): (bs: seq<byte>)
    requires ValidString(x)
    ensures 1 <= |bs|
  {
    match x
    case Raw(s) => [|s| as byte] + CharBytes(s)
    case Int8(v) => [0xC0, v as byte]
    case Int16(v) => [0xC1] + LeBytes(if v < 0 then v + 0x1_0000 else v, 2)
    case Int32(v) => [0xC2] + LeBytes(if v < 0 then v + 0x1_0000_0000 else v, 4)
  }

  /** The boxed value the string read returns for it. */
  function BoxedOf(x: RdbString): Boxed {
    match x
    case Raw(s) => Str(s)
    case Int8(v) => Int(v)
    case Int16(v) => Int(v)
    case Int32(v) => Int(v)
  }

  lemma {:induction false} RawRoundTrip(s: string, d: seq<byte>, p: nat)
    requires ValidString(Raw(s)) && At(d, p, EncodeString(Raw(s)))
    ensures StringEncoded(d, p) == Done(Str(s), p + 1 + |s|)
  {
    var e := EncodeString(Raw(s));
    AtSlice(d, p, e);
    assert d[p] == d[p..p + |e|][0] == e[0];
    StringRaw(d, p);
    assert d[p + 1..p + 1 + |s|] == CharBytes(s) by {
      assert d[p + 1..p + 1 + |s|] == d[p..p + |e|][1..];
    }
    assert BytesToString(CharBytes(s)) == s;
  }

  lemma {:induction false} Int8RoundTrip(v: int, d: seq<byte>, p: nat)
    requires ValidString(Int8(v)) && At(d, p, EncodeString(Int8(v)))
    ensures StringEncoded(d, p) == Done(Int(v), p + 2)
  {
    var e := EncodeString(Int8(v));
    AtSlice(d, p, e);
    assert d[p] == d[p..p + |e|][0] == e[0];
    assert d[p + 1] == d[p..p + |e|][1] == e[1];
    StringInt8(d, p);
  }

  lemma {:induction false} Int16RoundTrip(v: int, d: seq<byte>, p: nat)
    requires ValidString(Int16(v)) && At(d, p, EncodeString(Int16(v)))
    ensures StringEncoded(d, p) == Done(Int(v), p + 3)
  {
    var e := EncodeString(Int16(v));
    AtSlice(d, p, e);
    var u := if v < 0 then v + 0x1_0000 else v;
    assert d[p] == d[p..p + |e|][0] == e[0];
    var bs := d[p + 1..p + 3];
    assert bs == d[p..p + |e|][1..] == LeBytes(u, 2);
    assert bs == [d[p + 1], d[p + 2]];
    StringInt16(d, p);
    LeValueTwo(d[p + 1], d[p + 2]);
    LeBytesValue(u, 2);
  }

  lemma {:induction false} Int32RoundTrip(v: int, d: seq<byte>, p: nat)
    requires ValidString(Int32(v)) && At(d, p, EncodeString(Int32(v)))
    ensures StringEncoded(d, p) == Done(Int(v), p + 5)
  {
    var e := EncodeString(Int32(v));
    AtSlice(d, p, e);
    var u := if v < 0 then v + 0x1_0000_0000 else v;
    assert d[p] == d[p..p + |e|][0] == e[0];
    StringInt32(d, p);
    LeValueFour(d[p + 1..p + 5]);
    assert d[p + 1..p + 5] == d[p..p + |e|][1..] == LeBytes(u, 4);
    LeBytesValue(u, 4);
  }

  /** Wherever its encoding sits, the string read returns what the encoder wrote, and `Convert.ToString` of it is the text. */
  lemma {:induction false} StringRoundTrip(x: RdbString, d: seq<byte>, p: nat)
    requires ValidString(x) && At(d, p, EncodeString(x))
    ensures StringEncoded(d, p) == Done(BoxedOf(x), p + |EncodeString(x)|)
    ensures ConvertToString(BoxedOf(x)) == TextOf(x)
  {
    match x
    case Raw(s) => RawRoundTrip(s, d, p);
    case Int8(v) => Int8RoundTrip(v, d, p);
    case Int16(v) => Int16RoundTrip(v, d, p);
    case Int32(v) => Int32RoundTrip(v, d, p);
  }

  // ----- records -----

  /** The optional expiry prefix of a record. */
  datatype Expiry = NoExpiry | Millis(ms: nat) | Seconds(seconds: nat)

  predicate ValidExpiry(x: Expiry) {
    match x
    case NoExpiry => true
    case Millis(ms) => ms <= MAX_UNIX_MS
    case Seconds(seconds) => seconds < 0x1_0000_0000
  }

  function ExpiryBytes(x: Expiry): seq<byte>
    requires ValidExpiry(x)
  {
    match x
    case NoExpiry => []
    case Millis(ms) => [0xFC] + LeBytes(ms, 8)
    case Seconds(seconds) => [0xFD] + LeBytes(seconds, 4)
  }

  /** The expiry the decoder stores, in milliseconds. */
  function ExpiryMs(x: Expiry): Option<int> {
    match x
    case NoExpiry => None
    case Millis(ms) => Some(ms)
    case Seconds(seconds) => Some(seconds * 1000)
  }

  /** A string-valued key/value pair, the only record type the decoder reads. */
  datatype Record = Record(key: RdbString, value: RdbString, expiry: Expiry)

  predicate ValidRecord(r: Record) {
    ValidString(r.key) && ValidString(r.value) && ValidExpiry(r.expiry)
  }

  /** The expiry prefix, the value type 0, the key and the value. */
  function EncodeRecord(r: Record): seq<byte>
    requires ValidRecord(r)
  {
    ExpiryBytes(r.expiry) + [0] + EncodeString(r.key) + EncodeString(r.value)
  }

  function KeyOf(r: Record): string {
    TextOf(r.key)
  }

  function EntryOf(r: Record): Entry {
    Entry(TextOf(r.value), ExpiryMs(r.expiry))
  }

  lemma {:induction false} TypeAndExpiryMillis(d: seq<byte>, p: nat, ms: nat)
    requires ms <= MAX_UNIX_MS && p + 9 < |d| && d[p] == 0xFC && d[p + 9] == 0
    requires d[p + 1..p + 9] == LeBytes(ms, 8)
    ensures TypeAndExpiry(d, p) == Done((0, Some(ms)), p + 10)
  {
    var bs := d[p + 1..p + 9];
    LeBytesValue(ms, 8);
    assert bs[..8] == bs;
    assert ToUInt64(bs) == Ok(ms);
    assert AsInt64(ms) == ms;
  }

  lemma {:induction false} TypeAndExpirySeconds(d: seq<byte>, p: nat, seconds: nat)
    requires seconds < 0x1_0000_0000 && p + 5 < |d| && d[p] == 0xFD && d[p + 5] == 0
    requires d[p + 1..p + 5] == LeBytes(seconds, 4)
    ensures TypeAndExpiry(d, p) == Done((0, Some(seconds * 1000)), p + 6)
  {
    var bs := d[p + 1..p + 5];
    LeBytesValue(seconds, 4);
    assert bs[..4] == bs;
    assert ToUInt32(bs) == Ok(seconds);
  }

  /** Wherever an expiry prefix and the value type 0 sit, the decoder reads the expiry in milliseconds and stops after the type. */
  lemma {:induction false} TypeAndExpiryRoundTrip(x: Expiry, d: seq<byte>, p: nat)
    requires ValidExpiry(x) && At(d, p, ExpiryBytes(x) + [0])
    ensures TypeAndExpiry(d, p) == Done((0, ExpiryMs(x)), p + |ExpiryBytes(x)| + 1)
  {
    var e := ExpiryBytes(x) + [0];
    AtSlice(d, p, e);
    assert d[p] == d[p..p + |e|][0] == e[0];
    match x
    case NoExpiry =>
    case Millis(ms) =>
      assert Pow256(8) == 0x1_0000_0000_0000_0000;
      var bs := LeBytes(ms, 8);
      assert e == [0xFC] + (bs + [0]);
      AtSplit(d, p, [0xFC], bs + [0], p + 1);
      AtSplit(d, p + 1, bs, [0], p + 9);
      AtSlice(d, p + 1, bs);
      AtSlice(d, p + 9, [0]);
      assert d[p + 9] == d[p + 9..p + 10][0];
      TypeAndExpiryMillis(d, p, ms);
    case Seconds(seconds) =>
      assert Pow256(4) == 0x1_0000_0000;
      var bs := LeBytes(seconds, 4);
      assert e == [0xFD] + (bs + [0]);
      AtSplit(d, p, [0xFD], bs + [0], p + 1);
      AtSplit(d, p + 1, bs, [0], p + 5);
      AtSlice(d, p + 1, bs);
      AtSlice(d, p + 5, [0]);
      assert d[p + 5] == d[p + 5..p + 6][0];
      TypeAndExpirySeconds(d, p, seconds);
  }

  /** One record read, from what the reads of its three parts return. */
  lemma RecordAtOf(d: seq<byte>, p: nat, expiry: Option<int>, k: Boxed, v: Boxed, key: string, entry: Entry, q1: nat, q2: nat, q3: nat)
    requires TypeAndExpiry(d, p) == Done((0, expiry), q1)
    requires StringEncoded(d, q1) == Done(k, q2)
    requires StringEncoded(d, q2) == Done(v, q3)
    requires ConvertToString(k) == key && entry == Entry(ConvertToString(v), expiry)
    ensures RecordAt(d, p) == Done((key, entry), q3)
  {
  }

  /** The three parts of a record's encoding, each at its own position. */
  lemma {:induction false} RecordParts(r: Record, d: seq<byte>, p: nat)
    requires ValidRecord(r) && At(d, p, EncodeRecord(r))
    ensures At(d, p, ExpiryBytes(r.expiry) + [0])
    ensures At(d, p + |ExpiryBytes(r.expiry)| + 1, EncodeString(r.key))
    ensures At(d, p + |ExpiryBytes(r.expiry)| + 1 + |EncodeString(r.key)|, EncodeString(r.value))
    ensures |EncodeRecord(r)| == |ExpiryBytes(r.expiry)| + 1 + |EncodeString(r.key)| + |EncodeString(r.value)|
  {
    var head := ExpiryBytes(r.expiry) + [0];
    var ek := EncodeString(r.key);
    AtSplit(d, p, head + ek, EncodeString(r.value), p + |ExpiryBytes(r.expiry)| + 1 + |EncodeString(r.key)|);
    AtSplit(d, p, head, ek, p + |ExpiryBytes(r.expiry)| + 1);
  }

  lemma {:induction false} RecordExpiryRead(r: Record, d: seq<byte>, p: nat, q1: nat)
    requires ValidRecord(r) && At(d, p, EncodeRecord(r)) && q1 == p + |ExpiryBytes(r.expiry)| + 1
    ensures TypeAndExpiry(d, p) == Done((0, ExpiryMs(r.expiry)), q1)
  {
    RecordParts(r, d, p);
    TypeAndExpiryRoundTrip(r.expiry, d, p);
  }

  lemma {:induction false} RecordKeyRead(r: Record, d: seq<byte>, p: nat, q1: nat, q2: nat)
    requires ValidRecord(r) && At(d, p, EncodeRecord(r))
    requires q1 == p + |ExpiryBytes(r.expiry)| + 1 && q2 == q1 + |EncodeString(r.key)|
    ensures StringEncoded(d, q1) == Done(BoxedOf(r.key), q2) && ConvertToString(BoxedOf(r.key)) == KeyOf(r)
  {
    RecordParts(r, d, p);
    StringRoundTrip(r.key, d, q1);
  }

  lemma {:induction false} RecordValueRead(r: Record, d: seq<byte>, p: nat, q2: nat, q3: nat)
    requires ValidRecord(r) && At(d, p, EncodeRecord(r))
    requires q2 == p + |ExpiryBytes(r.expiry)| + 1 + |EncodeString(r.key)| && q3 == p + |EncodeRecord(r)|
    ensures StringEncoded(d, q2) == Done(BoxedOf(r.value), q3)
    ensures EntryOf(r) == Entry(ConvertToString(BoxedOf(r.value)), ExpiryMs(r.expiry))
  {
    RecordParts(r, d, p);
    StringRoundTrip(r.value, d, q2);
  }

  /** One record read, wherever the record's encoding sits. */
  lemma {:induction false} RecordRead(r: Record, d: seq<byte>, p: nat)
    requires ValidRecord(r) && At(d, p, EncodeRecord(r))
    ensures RecordAt(d, p) == Done((KeyOf(r), EntryOf(r)), p + |EncodeRecord(r)|)
  {
    var q1 := p + |ExpiryBytes(r.expiry)| + 1;
    var q2 := q1 + |EncodeString(r.key)|;
    var q3 := p + |EncodeRecord(r)|;
    RecordExpiryRead(r, d, p, q1);
    RecordKeyRead(r, d, p, q1, q2);
    RecordValueRead(r, d, p, q2, q3);
    RecordAtOf(d, p, ExpiryMs(r.expiry), BoxedOf(r.key), BoxedOf(r.value), KeyOf(r), EntryOf(r), q1, q2, q3);
  }

  /** One record read returns the key and the entry the encoder wrote, and stops right after it. */
  lemma {:induction false} RecordRoundTrip(r: Record, pre: seq<byte>, post: seq<byte>)
    requires ValidRecord(r)
    ensures RecordAt(pre + EncodeRecord(r) + post, |pre|) == Done((KeyOf(r), EntryOf(r)), |pre| + |EncodeRecord(r)|)
  {
    assert At(pre + EncodeRecord(r) + post, |pre|, EncodeRecord(r)) by {
      Placed(pre, EncodeRecord(r), post);
      AtSlice(pre + EncodeRecord(r) + post, |pre|, EncodeRecord(r));
    }
    RecordRead(r, pre + EncodeRecord(r) + post, |pre|);
  }

  predicate ValidRecords(rs: seq<Record>) {
    forall i :: 0 <= i < |rs| ==> ValidRecord(rs[i])
  }

  function EncodeRecords(rs: seq<Record>): seq<byte>
    requires ValidRecords(rs)
  {
    if rs == [] then [] else EncodeRecord(rs[0]) + EncodeRecords(rs[1..])
  }

  /** The keys of the records, in order. */
  function KeyList(rs: seq<Record>): seq<string> {
    if rs == [] then [] else [KeyOf(rs[0])] + KeyList(rs[1..])
  }

  predicate DistinctKeys(rs: seq<Record>) {
    forall i, j :: 0 <= i < j < |rs| ==> KeyOf(rs[i]) != KeyOf(rs[j])
  }

  /** The keyspace the records describe: each key with its entry. */
  function MapOf(rs: seq<Record>): map<string, Entry> {
    if rs == [] then map[] else MapOf(rs[1..])[KeyOf(rs[0]) := EntryOf(rs[0])]
  }

  lemma {:induction false} KeyListAt(rs: seq<Record>)
    ensures |KeyList(rs)| == |rs|
    ensures forall i :: 0 <= i < |rs| ==> KeyList(rs)[i] == KeyOf(rs[i])
  {
    if rs != [] {
      KeyListAt(rs[1..]);
    }
  }

  lemma {:induction false} MapOfKeys(rs: seq<Record>)
    ensures forall k :: k in MapOf(rs) <==> k in KeyList(rs)
  {
    if rs != [] {
      MapOfKeys(rs[1..]);
    }
  }

  /** With distinct keys, the keyspace holds each record's entry under its key, and no other key. */
  lemma {:induction false} MapOfContents(rs: seq<Record>)
    requires DistinctKeys(rs)
    ensures forall i :: 0 <= i < |rs| ==> KeyOf(rs[i]) in MapOf(rs) && MapOf(rs)[KeyOf(rs[i])] == EntryOf(rs[i])
    ensures forall k :: k in MapOf(rs) ==> k in KeyList(rs)
  {
    MapOfKeys(rs);
    if rs != [] {
      var rest := rs[1..];
      assert DistinctKeys(rest) by {
        forall i, j | 0 <= i < j < |rest| ensures KeyOf(rest[i]) != KeyOf(rest[j]) {
          assert rest[i] == rs[i + 1] && rest[j] == rs[j + 1];
        }
      }
      MapOfContents(rest);
      forall i | 0 < i < |rs|
        ensures KeyOf(rs[i]) in MapOf(rs) && MapOf(rs)[KeyOf(rs[i])] == EntryOf(rs[i])
      {
        assert rs[i] == rest[i - 1];
        assert KeyOf(rs[i]) != KeyOf(rs[0]);
      }
    }
  }

  lemma Regroup2(pre: seq<byte>, a: seq<byte>, b: seq<byte>, post: seq<byte>)
    ensures pre + (a + b) + post == pre + a + (b + post)
    ensures pre + (a + b) + post == (pre + a) + b + post
  {
  }

  lemma MergeUpdate(acc: map<string, Entry>, m: map<string, Entry>, k: string, e: Entry)
    requires k !in m
    ensures acc[k := e] + m == acc + m[k := e]
  {
  }

  /** No key repeats among the records or meets `acc`. */
  predicate FreshKeys(rs: seq<Record>, acc: map<string, Entry>) {
    DistinctKeys(rs) && forall k :: k in KeyList(rs) ==> k !in acc
  }

  lemma {:induction false} FreshKeysStep(rs: seq<Record>, acc: map<string, Entry>, e: Entry)
    requires rs != [] && KeyOf(rs[0]) !in acc
    ensures FreshKeys(rs, acc) <==> FreshKeys(rs[1..], acc[KeyOf(rs[0]) := e])
  {
    var rest := rs[1..];
    var k := KeyOf(rs[0]);
    KeyListAt(rs);
    KeyListAt(rest);
    assert KeyList(rs) == [k] + KeyList(rest);
    if FreshKeys(rest, acc[k := e]) {
      forall i, j | 0 <= i < j < |rs| ensures KeyOf(rs[i]) != KeyOf(rs[j]) {
        if i == 0 {
          assert rs[j] == rest[j - 1];
          assert KeyList(rest)[j - 1] in KeyList(rest);
        } else {
          assert rs[i] == rest[i - 1] && rs[j] == rest[j - 1];
        }
      }
    }
    if FreshKeys(rs, acc) {
      forall i, j | 0 <= i < j < |rest| ensures KeyOf(rest[i]) != KeyOf(rest[j]) {
        assert rest[i] == rs[i + 1] && rest[j] == rs[j + 1];
      }
      forall k' | k' in KeyList(rest) ensures k' !in acc[k := e] {
        var j :| 0 <= j < |rest| && KeyList(rest)[j] == k';
        assert KeyOf(rs[j + 1]) == k';
      }
    }
  }

  /** Reading the encoded records one by one into `acc` yields `acc` extended by their keyspace, or fails on the first key already seen. */
  lemma {:induction false} RecordsRoundTrip(rs: seq<Record>, pre: seq<byte>, post: seq<byte>, acc: map<string, Entry>)
    requires ValidRecords(rs)
    ensures Records(pre + EncodeRecords(rs) + post, |pre|, |rs|, acc) ==
      if FreshKeys(rs, acc) then Ok(acc + MapOf(rs)) else Err(DuplicateKey)
  {
    var d := pre + EncodeRecords(rs) + post;
    if rs == [] {
      assert acc + map[] == acc;
    } else {
      var r := rs[0];
      var rest := rs[1..];
      var k := KeyOf(r);
      var e := EntryOf(r);
      Regroup2(pre, EncodeRecord(r), EncodeRecords(rest), post);
      RecordRoundTrip(r, pre, EncodeRecords(rest) + post);
      var pre' := pre + EncodeRecord(r);
      RecordsStep(d, |pre|, |rs|, acc, k, e, |pre'|);
      if k in acc {
        KeyListAt(rs);
        assert KeyList(rs)[0] == k;
      } else {
        RecordsRoundTrip(rest, pre', post, acc[k := e]);
        FreshKeysStep(rs, acc, e);
        if FreshKeys(rs, acc) {
          MapOfKeys(rest);
          KeyListAt(rs);
          assert KeyList(rs) == [k] + KeyList(rest);
          MergeUpdate(acc, MapOf(rest), k, e);
        }
      }
    }
  }

  // ----- whole files -----

  /**
   * A snapshot: the 9-byte header skipped by the reader, bytes before the
   * database selector (auxiliary fields), the selector 0xFE with a database
   * index, the table-size marker 0xFB with the two counts, the records, and
   * whatever follows them (the end marker and the checksum).
   */
  function EncodeFile(header: seq<byte>, aux: seq<byte>, dbIndex: byte, expiring: nat, rs: seq<Record>, trailer: seq<byte>): seq<byte>
    requires |header| == 9 && dbIndex < 0x40 && expiring < 0x8000_0000
    requires |rs| < 0x8000_0000 && ValidRecords(rs)
  {
    header + aux + [0xFE, dbIndex, 0xFB] + EncodeSize(|rs|) + EncodeSize(expiring) + EncodeRecords(rs) + trailer
  }

  /** `Seek` stops just past the first occurrence of the byte it looks for. */
  lemma {:induction false} SeekStops(d: seq<byte>, p: nat, q: nat, b: byte)
    requires p <= q < |d| && d[q] == b
    requires forall j :: p <= j < q ==> d[j] != b
    ensures Seek(d, p, b) == Done((), q + 1)
    decreases q - p
  {
    if p < q {
      SeekStops(d, p + 1, q, b);
    }
  }

  /** The decoder skips the auxiliary fields up to the database selector and then finds the table-sizes marker two bytes on. */
  lemma {:induction false} SelectorFound(d: seq<byte>, n: nat)
    requires 12 + n <= |d| && d[9 + n] == 0xFE && d[10 + n] < 0x40 && d[11 + n] == 0xFB
    requires forall j :: 9 <= j < 9 + n ==> d[j] != 0xFE
    ensures Seek(d, 9, 0xFE) == Done((), 10 + n) && Seek(d, 10 + n, 0xFB) == Done((), 12 + n)
  {
    SeekStops(d, 9, 9 + n, 0xFE);
    SeekStops(d, 10 + n, 11 + n, 0xFB);
  }

  /** Where the header, the selector and the two sizes put each part of a snapshot. */
  lemma {:induction false} FileLayout(header: seq<byte>, aux: seq<byte>, dbIndex: byte, count: nat, expiring: nat, records: seq<byte>, trailer: seq<byte>)
    requires |header| == 9 && count < 0x8000_0000 && expiring < 0x8000_0000
    ensures var d := header + aux + [0xFE, dbIndex, 0xFB] + EncodeSize(count) + EncodeSize(expiring) + records + trailer;
      && At(d, 9, aux)
      && At(d, 9 + |aux|, [0xFE, dbIndex, 0xFB])
      && At(d, 12 + |aux|, EncodeSize(count))
      && At(d, 12 + |aux| + |EncodeSize(count)|, EncodeSize(expiring))
  {
    var selector := header + aux + [0xFE, dbIndex, 0xFB];
    var e1 := EncodeSize(count);
    var e2 := EncodeSize(expiring);
    var pre := selector + e1 + e2;
    var d := pre + records + trailer;
    AtSlice(d, 0, (pre + records) + trailer);
    assert d[0..|d|] == d;
    AtSplit(d, 0, pre + records, trailer, |pre + records|);
    AtSplit(d, 0, pre, records, |pre|);
    AtSplit(d, 0, selector + e1, e2, 12 + |aux| + |e1|);
    AtSplit(d, 0, selector, e1, 12 + |aux|);
    AtSplit(d, 0, header + aux, [0xFE, dbIndex, 0xFB], 9 + |aux|);
    AtSplit(d, 0, header, aux, 9);
  }

  /** The header, the selector and the two sizes lead the decoder to the first record. */
  lemma {:induction false} FileHead(d: seq<byte>, aux: seq<byte>, dbIndex: byte, count: nat, expiring: nat, q: nat)
    requires dbIndex < 0x40 && count < 0x8000_0000 && expiring < 0x8000_0000
    requires forall i :: 0 <= i < |aux| ==> aux[i] != 0xFE
    requires At(d, 9, aux) && At(d, 9 + |aux|, [0xFE, dbIndex, 0xFB])
    requires At(d, 12 + |aux|, EncodeSize(count))
    requires At(d, 12 + |aux| + |EncodeSize(count)|, EncodeSize(expiring))
    requires q == 12 + |aux| + |EncodeSize(count)| + |EncodeSize(expiring)|
    ensures ReadKeys(d) == Records(d, q, count, map[])
  {
    var n := |aux|;
    var e1 := EncodeSize(count);
    AtSlice(d, 9, aux);
    AtSlice(d, 9 + n, [0xFE, dbIndex, 0xFB]);
    forall j | 9 <= j < 9 + n
      ensures d[j] != 0xFE
    {
      assert d[j] == d[9..9 + n][j - 9] == aux[j - 9];
    }
    var sel := d[9 + n..12 + n];
    assert d[9 + n] == sel[0] && d[10 + n] == sel[1] && d[11 + n] == sel[2];
    SelectorFound(d, n);
    SizeRoundTrip(count, d, 12 + n);
    SizeRoundTrip(expiring, d, 12 + n + |e1|);
    ReadKeysReachesRecords(d, 10 + n, 12 + n, Int(count), 12 + n + |e1|, Int(expiring), q, count);
  }

  /** The decoder reaches the first record of an encoded snapshot with the record count the encoder wrote. */
  lemma {:induction false} FileReachesRecords(header: seq<byte>, aux: seq<byte>, dbIndex: byte, count: nat, expiring: nat, records: seq<byte>, trailer: seq<byte>)
    requires |header| == 9 && dbIndex < 0x40 && count < 0x8000_0000 && expiring < 0x8000_0000
    requires forall i :: 0 <= i < |aux| ==> aux[i] != 0xFE
    ensures var pre := header + aux + [0xFE, dbIndex, 0xFB] + EncodeSize(count) + EncodeSize(expiring);
      ReadKeys(pre + records + trailer) == Records(pre + records + trailer, |pre|, count, map[])
  {
    var pre := header + aux + [0xFE, dbIndex, 0xFB] + EncodeSize(count) + EncodeSize(expiring);
    FileLayout(header, aux, dbIndex, count, expiring, records, trailer);
    FileHead(pre + records + trailer, aux, dbIndex, count, expiring, |pre|);
  }

  /**
   * Decoding an encoded snapshot gives exactly the keyspace of its records
   * when their keys are distinct, and fails with a duplicate key otherwise;
   * the expiry count plays no part. Loading it gives that keyspace, or nothing.
   */
  lemma {:induction false} FileRoundTrip(header: seq<byte>, aux: seq<byte>, dbIndex: byte, expiring: nat, rs: seq<Record>, trailer: seq<byte>)
    requires |header| == 9 && dbIndex < 0x40 && expiring < 0x8000_0000
    requires |rs| < 0x8000_0000 && ValidRecords(rs)
    requires forall i :: 0 <= i < |aux| ==> aux[i] != 0xFE
    ensures ReadKeys(EncodeFile(header, aux, dbIndex, expiring, rs, trailer)) ==
      if DistinctKeys(rs) then Ok(MapOf(rs)) else Err(DuplicateKey)
    ensures LoadKeys(Some(EncodeFile(header, aux, dbIndex, expiring, rs, trailer))) ==
      if DistinctKeys(rs) then MapOf(rs) else map[]
  {
    var pre := header + aux + [0xFE, dbIndex, 0xFB] + EncodeSize(|rs|) + EncodeSize(expiring);
    FileReachesRecords(header, aux, dbIndex, |rs|, expiring, EncodeRecords(rs), trailer);
    RecordsRoundTrip(rs, pre, trailer, map[]);
    assert map[] + MapOf(rs) == MapOf(rs);
  }
}

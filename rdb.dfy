/**
 * `RdbReader`: decoding the keyspace from the bytes of an RDB snapshot file.
 *
 * The .NET `BinaryReader` over the file is the class ByteReader, whose cursor
 * `pos` every helper advances. Each helper is specified by a pure function of
 * the file bytes and the starting position (ByteAt, Seek, SizeEncoded,
 * StringEncoded, RecordAt, Records, ReadKeys) that yields the value read and
 * the position after it, or the exception that escapes.
 */
module Rdb {
  import opened Wrappers
  import opened Text
  import opened Keyspace

  newtype byte = x: int | 0 <= x < 256

  /** The exceptions that can escape from the decoder. */
  datatype Failure =
    | EndOfStream     // BinaryReader.ReadByte at the end of the stream
    | ShortArray      // BitConverter handed fewer bytes than it converts
    | NotImplemented  // a value type other than 0
    | DuplicateKey    // Dictionary.Add of a key already present
    | BadNumber       // Convert.ToInt32 of a string that is not a 32-bit integer
    | OutOfRange      // DateTimeOffset.FromUnixTimeMilliseconds outside the DateTime range

  /** The `object` the decode helpers return: a boxed integer or a string. */
  datatype Boxed = Int(i: int) | Str(s: string)

  /** Reading from a position: the value and the position after it, or the exception raised. */
  datatype Read<+T> = Done(value: T, next: nat) | Fail(failure: Failure)

  // ----- the BinaryReader primitives -----

  /** `ReadByte`: the byte at `p`, or `EndOfStreamException`. */
  function ByteAt(d: seq<byte>, p: nat): Read<byte> {
    if p < |d| then Done(d[p], p + 1) else Fail(EndOfStream)
  }

  /** `ReadBytes(n)`: the next `n` bytes, or as many as remain; it never throws. */
  function BytesAt(d: seq<byte>, p: nat, n: nat): (seq<byte>, nat) {
    if p >= |d| then ([], p)
    else if p + n <= |d| then (d[p..p + n], p + n)
    else (d[p..], |d|)
  }

  /** `Encoding.UTF8.GetString`, taking each byte as the character with that code. */
  function BytesToString(bs: seq<byte>): string {
    seq(|bs|, i requires 0 <= i < |bs| => bs[i] as char)
  }

  // ----- BitConverter and Array.Reverse -----

  /** The unsigned value of bytes stored least significant first. */
  function LeValue(bs: seq<byte>): nat {
    if bs == [] then 0 else bs[0] as nat + 256 * LeValue(bs[1..])
  }

  function Reverse(bs: seq<byte>): seq<byte> {
    if bs == [] then [] else Reverse(bs[1..]) + [bs[0]]
  }

  /** Two's complement readings of 16-, 32- and 64-bit unsigned values. */
  function Signed16(v: nat): int {
    if v >= 0x8000 then v - 0x1_0000 else v
  }

  function Signed32(v: nat): int {
    if v >= 0x8000_0000 then v - 0x1_0000_0000 else v
  }

  function Signed64(v: nat): int {
    if v >= 0x8000_0000_0000_0000 then v - 0x1_0000_0000_0000_0000 else v
  }

  function ToInt16(bs: seq<byte>): Result<int, Failure> {
    if |bs| < 2 then Err(ShortArray) else Ok(Signed16(LeValue(bs[..2])))
  }

  function ToInt32(bs: seq<byte>): Result<int, Failure> {
    if |bs| < 4 then Err(ShortArray) else Ok(Signed32(LeValue(bs[..4])))
  }

  function ToUInt32(bs: seq<byte>): Result<nat, Failure> {
    if |bs| < 4 then Err(ShortArray) else Ok(LeValue(bs[..4]))
  }

  function ToUInt64(bs: seq<byte>): Result<nat, Failure> {
    if |bs| < 8 then Err(ShortArray) else Ok(LeValue(bs[..8]))
  }

  // ----- Convert -----

  /** `Convert.ToInt32(object)`: a boxed integer as it is, a string through the integer parser. */
  function ConvertToInt32(v: Boxed): Result<int, Failure> {
    match v
    case Int(i) => Ok(i)
    case Str(s) =>
      match ParseInt32(s)
      case Some(i) => Ok(i)
      case None => Err(BadNumber)
  }

  /** `Convert.ToString(object)`: a boxed integer in decimal, a string as it is. */
  function ConvertToString(v: Boxed): string {
    match v
    case Int(i) => IntToString(i)
    case Str(s) => s
  }

  // ----- the decoding helpers -----

  /** `SeekToByte(b)`: consumes bytes up to and including the first `b` at or after `p`. */
  function Seek(d: seq<byte>, p: nat, b: byte): (r: Read<()>)
    ensures r.Done? ==> p < r.next <= |d| && d[r.next - 1] == b
    ensures r.Fail? ==> r.failure == EndOfStream
    decreases |d| - p
  {
    if p >= |d| then Fail(EndOfStream)
    else if d[p] == b then Done((), p + 1)
    else Seek(d, p + 1, b)
  }

  /** `Seek` finds `b` exactly when it occurs at or after `p`, stops just past its first occurrence, and otherwise reaches the end of the stream. */
  lemma {:induction false} SeekFinds(d: seq<byte>, p: nat, b: byte)
    ensures Seek(d, p, b).Done? <==> exists j :: p <= j < |d| && d[j] == b
    ensures var r := Seek(d, p, b);
      r.Done? ==> p < r.next <= |d| && d[r.next - 1] == b && forall j :: p <= j < r.next - 1 ==> d[j] != b
    ensures Seek(d, p, b).Fail? ==> Seek(d, p, b).failure == EndOfStream
    decreases |d| - p
  {
    if p < |d| && d[p] != b {
      SeekFinds(d, p + 1, b);
    }
  }

  /** `ReadStringEncodedValue(first, br)`: the tag `first` has already been read. */
  function StringTagged(d: seq<byte>, p: nat, first: byte): (r: Read<Boxed>)
    ensures r.Done? ==> p <= r.next && (p <= |d| ==> r.next <= |d|)
    ensures r.Fail? ==> r.failure == EndOfStream || r.failure == ShortArray
  {
    if first == 0xC0 then
      match ByteAt(d, p)
      case Fail(f) => Fail(f)
      case Done(v, q) => Done(Int(v as int), q)
    else if first == 0xC1 then
      var (bs, q) := BytesAt(d, p, 2);
      match ToInt16(bs)
      case Err(f) => Fail(f)
      case Ok(v) => Done(Int(v), q)
    else if first == 0xC2 then
      var (bs, q) := BytesAt(d, p, 4);
      match ToInt32(bs)
      case Err(f) => Fail(f)
      case Ok(v) => Done(Int(v), q)
    else if first == 0xC3 then Done(Str(""), p)
    else
      var (bs, q) := BytesAt(d, p, first as nat);
      Done(Str(BytesToString(bs)), q)
  }

  /** `ReadStringEncodedValue(br)`: a tag byte, then what it selects. */
  function StringEncoded(d: seq<byte>, p: nat): (r: Read<Boxed>)
    ensures r.Done? ==> p < r.next <= |d|
    ensures r.Fail? ==> r.failure == EndOfStream || r.failure == ShortArray
  {
    match ByteAt(d, p)
    case Fail(f) => Fail(f)
    case Done(first, q) => StringTagged(d, q, first)
  }

  /** `ReadSizeEncodedValue`: the top two bits of the first byte choose the form. */
  function SizeEncoded(d: seq<byte>, p: nat): (r: Read<Boxed>)
    ensures r.Done? ==> p < r.next <= |d|
    ensures r.Fail? ==> r.failure == EndOfStream || r.failure == ShortArray
  {
    match ByteAt(d, p)
    case Fail(f) => Fail(f)
    case Done(first, q) =>
      if first < 0x40 then Done(Int(first as int), q)
      else if first < 0x80 then
        match ByteAt(d, q)
        case Fail(f) => Fail(f)
        case Done(second, q') =>
          match ToInt16(Reverse([first % 0x40, second]))
          case Err(f) => Fail(f)
          case Ok(v) => Done(Int(v), q')
      else if first < 0xC0 then
        var (bs, q') := BytesAt(d, q, 4);
        match ToInt32(Reverse(bs))
        case Err(f) => Fail(f)
        case Ok(v) => Done(Int(v), q')
      else StringTagged(d, q, first % 0x40)
  }

  /** The range of Unix milliseconds that `DateTimeOffset.FromUnixTimeMilliseconds` accepts. */
  const MIN_UNIX_MS: int := -62_135_596_800_000
  const MAX_UNIX_MS: int := 253_402_300_799_999

  /** The `(long)` cast of an unsigned 64-bit value. */
  function AsInt64(u: nat): int {
    Signed64(u % 0x1_0000_0000_0000_0000)
  }

  /** The leading byte of a record with its optional expiry prefix: the value type and the expiry in milliseconds. */
  function TypeAndExpiry(d: seq<byte>, p: nat): (r: Read<(byte, Option<int>)>)
    ensures r.Done? ==> p < r.next <= |d|
    ensures r.Done? && r.value.1.Some? ==> MIN_UNIX_MS <= r.value.1.value
    ensures r.Fail? ==> r.failure == EndOfStream || r.failure == ShortArray || r.failure == OutOfRange
  {
    match ByteAt(d, p)
    case Fail(f) => Fail(f)
    case Done(t, q) =>
      if t == 0xFC then
        var (bs, q') := BytesAt(d, q, 8);
        match ToUInt64(bs)
        case Err(f) => Fail(f)
        case Ok(u) =>
          var ms := AsInt64(u);
          if ms < MIN_UNIX_MS || ms > MAX_UNIX_MS then Fail(OutOfRange)
          else
            match ByteAt(d, q')
            case Fail(f) => Fail(f)
            case Done(t', q'') => Done((t', Some(ms)), q'')
      else if t == 0xFD then
        var (bs, q') := BytesAt(d, q, 4);
        match ToUInt32(bs)
        case Err(f) => Fail(f)
        case Ok(seconds) =>
          match ByteAt(d, q')
          case Fail(f) => Fail(f)
          case Done(t', q'') => Done((t', Some(seconds * 1000)), q'')
      else Done((t, None), q)
  }

  /** One iteration of the record loop: the key and the entry it stores. */
  function RecordAt(d: seq<byte>, p: nat): (r: Read<(string, Entry)>)
    ensures r.Done? ==> p < r.next <= |d|
    ensures r.Fail? ==> r.failure != DuplicateKey && r.failure != BadNumber
  {
    match TypeAndExpiry(d, p)
    case Fail(f) => Fail(f)
    case Done((t, expiry), q) =>
      match StringEncoded(d, q)
      case Fail(f) => Fail(f)
      case Done(k, q') =>
        if t != 0 then Fail(NotImplemented)
        else
          match StringEncoded(d, q')
          case Fail(f) => Fail(f)
          case Done(v, q'') => Done((ConvertToString(k), Entry(ConvertToString(v), expiry)), q'')
  }

  /** One turn of the record loop: read a record and add it to `acc`, which fails on a key already there. */
  function AddRecord(d: seq<byte>, p: nat, acc: map<string, Entry>): (r: Read<map<string, Entry>>)
    ensures r.Done? ==> forall k :: k in acc ==> k in r.value && r.value[k] == acc[k]
    ensures r.Fail? ==> r.failure != BadNumber
  {
    match RecordAt(d, p)
    case Fail(f) => Fail(f)
    case Done((k, e), q) => if k in acc then Fail(DuplicateKey) else Done(acc[k := e], q)
  }

  /** The remaining `count` iterations of the record loop, adding to `acc`. */
  function Records(d: seq<byte>, p: nat, count: int, acc: map<string, Entry>): (r: Result<map<string, Entry>, Failure>)
    ensures r.Ok? ==> forall k :: k in acc ==> k in r.value && r.value[k] == acc[k]
    ensures r.Err? ==> r.error != BadNumber
    decreases if count > 0 then count else 0, 1
  {
    if count <= 0 then Ok(acc) else RecordsTurn(d, p, count, acc)
  }

  /** The next iteration of the record loop and the ones after it. */
  function RecordsTurn(d: seq<byte>, p: nat, count: int, acc: map<string, Entry>): (r: Result<map<string, Entry>, Failure>)
    requires count > 0
    ensures r.Ok? ==> forall k :: k in acc ==> k in r.value && r.value[k] == acc[k]
    ensures r.Err? ==> r.error != BadNumber
    decreases count, 0
  {
    match AddRecord(d, p, acc)
    case Fail(f) => Err(f)
    case Done(acc', q) => Records(d, q, count - 1, acc')
  }

  /** `ReadKeysFromRdbFile` once the file is open: skip 9 bytes, seek to 0xFE and then 0xFB, read both counts, then the records. */
  function ReadKeys(d: seq<byte>): (r: Result<map<string, Entry>, Failure>)
    ensures |d| <= 9 ==> r == Err(EndOfStream)
  {
    match Seek(d, 9, 0xFE)
    case Fail(f) => Err(f)
    case Done(_, p1) =>
      match Seek(d, p1, 0xFB)
      case Fail(f) => Err(f)
      case Done(_, p2) =>
        match SizeEncoded(d, p2)
        case Fail(f) => Err(f)
        case Done(v1, p3) =>
          match ConvertToInt32(v1)
          case Err(f) => Err(f)
          case Ok(keyValueSize) =>
            match SizeEncoded(d, p3)
            case Fail(f) => Err(f)
            case Done(v2, p4) =>
              match ConvertToInt32(v2)
              case Err(f) => Err(f)
              case Ok(_) => Records(d, p4, keyValueSize, map[])
  }

  /** `LoadKeysFromRdbFile`: no file, or any exception, gives the empty keyspace. */
  function LoadKeys(file: Option<seq<byte>>): (r: map<string, Entry>)
    ensures file.None? ==> r == map[]
    ensures r != map[] ==> file.Some? && ReadKeys(file.value) == Ok(r)
  {
    match file
    case None => map[]
    case Some(d) =>
      match ReadKeys(d)
      case Ok(keys) => keys
      case Err(_) => map[]
  }

  // ----- the reader and the methods that advance it -----

  /** The method's result and the reader's new position agree with the specification `spec`. */
  predicate Follows<T(==)>(spec: Read<T>, r: Result<T, Failure>, pos: nat) {
    match spec
    case Done(v, q) => r == Ok(v) && pos == q
    case Fail(f) => r == Err(f)
  }

  /** A `BinaryReader` over the file's bytes. */
  class ByteReader {
    const data: seq<byte>
    var pos: nat

    constructor(data: seq<byte>, pos: nat)
      ensures this.data == data && this.pos == pos
    {
      this.data := data;
      this.pos := pos;
    }

    method ReadByte() returns (r: Result<byte, Failure>)
      modifies this
      ensures Follows(ByteAt(data, old(pos)), r, pos)
      ensures r.Err? ==> pos == old(pos)
    {
      if pos < |data| {
        r := Ok(data[pos]);
        pos := pos + 1;
      } else {
        r := Err(EndOfStream);
      }
    }

    method ReadBytes(n: nat) returns (bs: seq<byte>)
      modifies this
      ensures (bs, pos) == BytesAt(data, old(pos), n)
    {
      if pos >= |data| {
        bs := [];
      } else if pos + n <= |data| {
        bs := data[pos..pos + n];
        pos := pos + n;
      } else {
        bs := data[pos..];
        pos := |data|;
      }
    }
  }

  /** `SeekToByte`: a do-while loop reading until it has read `b`. */
  method SeekToByte(br: ByteReader, b: byte) returns (r: Result<(), Failure>)
    modifies br
    ensures Follows(Seek(br.data, old(br.pos), b), r, br.pos)
  {
    while true
      invariant Seek(br.data, br.pos, b) == Seek(br.data, old(br.pos), b)
      decreases |br.data| - br.pos
    {
      var current := br.ReadByte();
      if current.Err? {
        return Err(current.error);
      }
      if current.value == b {
        return Ok(());
      }
    }
  }

  /** `ReadStringEncodedValue(first, br)`. */
  method ReadStringEncodedValueFrom(first: byte, br: ByteReader) returns (r: Result<Boxed, Failure>)
    modifies br
    ensures Follows(StringTagged(br.data, old(br.pos), first), r, br.pos)
  {
    if first == 0xC0 {
      var v := br.ReadByte();
      r := if v.Ok? then Ok(Int(v.value as int)) else Err(v.error);
    } else if first == 0xC1 {
      var bs := br.ReadBytes(2);
      var v := ToInt16(bs);
      r := if v.Ok? then Ok(Int(v.value)) else Err(v.error);
    } else if first == 0xC2 {
      var bs := br.ReadBytes(4);
      var v := ToInt32(bs);
      r := if v.Ok? then Ok(Int(v.value)) else Err(v.error);
    } else if first == 0xC3 {
      r := Ok(Str(""));
    } else {
      var bs := br.ReadBytes(first as nat);
      r := Ok(Str(BytesToString(bs)));
    }
  }

  /** `ReadStringEncodedValue(br)`. */
  method ReadStringEncodedValue(br: ByteReader) returns (r: Result<Boxed, Failure>)
    modifies br
    ensures Follows(StringEncoded(br.data, old(br.pos)), r, br.pos)
  {
    var first := br.ReadByte();
    if first.Err? {
      return Err(first.error);
    }
    r := ReadStringEncodedValueFrom(first.value, br);
  }

  /** `ReadSizeEncodedValue`. */
  method ReadSizeEncodedValue(br: ByteReader) returns (r: Result<Boxed, Failure>)
    modifies br
    ensures Follows(SizeEncoded(br.data, old(br.pos)), r, br.pos)
  {
    var first := br.ReadByte();
    if first.Err? {
      return Err(first.error);
    }
    var f := first.value;
    if f < 0x40 {
      r := Ok(Int(f as int));
    } else if f < 0x80 {
      var second := br.ReadByte();
      if second.Err? {
        return Err(second.error);
      }
      var v := ToInt16(Reverse([f % 0x40, second.value]));
      r := if v.Ok? then Ok(Int(v.value)) else Err(v.error);
    } else if f < 0xC0 {
      var bs := br.ReadBytes(4);
      var v := ToInt32(Reverse(bs));
      r := if v.Ok? then Ok(Int(v.value)) else Err(v.error);
    } else {
      r := ReadStringEncodedValueFrom(f % 0x40, br);
    }
  }

  /** The body of the record loop up to `keys.Add`: the optional expiry prefix, the type, the key and the value. */
  method ReadRecord(br: ByteReader) returns (r: Result<(string, Entry), Failure>)
    modifies br
    ensures Follows(RecordAt(br.data, old(br.pos)), r, br.pos)
  {
    var t := br.ReadByte();
    if t.Err? {
      return Err(t.error);
    }
    var typ := t.value;
    var expiry: Option<int> := None;
    if typ == 0xFC {
      var bs := br.ReadBytes(8);
      var u := ToUInt64(bs);
      if u.Err? {
        return Err(u.error);
      }
      var ms := AsInt64(u.value);
      if ms < MIN_UNIX_MS || ms > MAX_UNIX_MS {
        return Err(OutOfRange);
      }
      expiry := Some(ms);
      t := br.ReadByte();
      if t.Err? {
        return Err(t.error);
      }
      typ := t.value;
    } else if typ == 0xFD {
      var bs := br.ReadBytes(4);
      var u := ToUInt32(bs);
      if u.Err? {
        return Err(u.error);
      }
      expiry := Some(u.value * 1000);
      t := br.ReadByte();
      if t.Err? {
        return Err(t.error);
      }
      typ := t.value;
    }
    var key := ReadStringEncodedValue(br);
    if key.Err? {
      return Err(key.error);
    }
    if typ != 0 {
      return Err(NotImplemented);
    }
    var value := ReadStringEncodedValue(br);
    if value.Err? {
      return Err(value.error);
    }
    r := Ok((ConvertToString(key.value), Entry(ConvertToString(value.value), expiry)));
  }

  /** `ReadKeysFromRdbFile` on the bytes of an existing file. */
  method ReadKeysFromRdbFile(file: seq<byte>) returns (r: Result<map<string, Entry>, Failure>)
    ensures r == ReadKeys(file)
  {
    var br := new ByteReader(file, 9);
    var s := SeekToByte(br, 0xFE);
    if s.Err? {
      return Err(s.error);
    }
    ghost var p1 := br.pos;
    s := SeekToByte(br, 0xFB);
    if s.Err? {
      return Err(s.error);
    }
    ghost var p2 := br.pos;
    var v1 := ReadSizeEncodedValue(br);
    if v1.Err? {
      return Err(v1.error);
    }
    var n1 := ConvertToInt32(v1.value);
    if n1.Err? {
      return Err(n1.error);
    }
    var keyValueSize := n1.value;
    ghost var p3 := br.pos;
    var v2 := ReadSizeEncodedValue(br);
    if v2.Err? {
      return Err(v2.error);
    }
    var n2 := ConvertToInt32(v2.value);
    if n2.Err? {
      return Err(n2.error);
    }
    ReadKeysReachesRecords(file, p1, p2, v1.value, p3, v2.value, br.pos, keyValueSize);
    r := ReadRecordLoop(br, keyValueSize);
  }

  /** The `for` loop of `ReadKeysFromRdbFile`: `count` records, each key added once. */
  method ReadRecordLoop(br: ByteReader, count: int) returns (r: Result<map<string, Entry>, Failure>)
    modifies br
    ensures r == Records(br.data, old(br.pos), count, map[])
  {
    ghost var total := Records(br.data, br.pos, count, map[]);
    var keys: map<string, Entry> := map[];
    var i := 0;
    while i < count
      invariant LeadsTo(br.data, br.pos, count - i, keys, total)
      decreases count - i
    {
      ghost var left := count - i;
      var added := AddNextRecord(br, keys, left);
      if added.Err? {
        return Err(added.error);
      }
      keys := added.value;
      i := i + 1;
      assert count - i == left - 1;
    }
    return Ok(keys);
  }

  /** From position `p`, with `acc` added so far, the remaining `count` turns of the record loop end in `total`. */
  predicate LeadsTo(d: seq<byte>, p: nat, count: int, acc: map<string, Entry>, total: Result<map<string, Entry>, Failure>) {
    Records(d, p, count, acc) == total
  }

  /**
   * The loop body: `ReadRecord(br)`, then `keys.Add`, which throws on a
   * duplicate key. With `left` turns to go, what the remaining turns give
   * before it is what the remaining turns give after it, or its failure.
   */
  method AddNextRecord(br: ByteReader, keys: map<string, Entry>, ghost left: int) returns (r: Result<map<string, Entry>, Failure>)
    requires left > 0
    modifies br
    ensures r.Ok? ==> Records(br.data, old(br.pos), left, keys) == Records(br.data, br.pos, left - 1, r.value)
    ensures r.Err? ==> Records(br.data, old(br.pos), left, keys) == Err(r.error)
  {
    ghost var p := br.pos;
    var record := ReadRecord(br);
    if record.Err? {
      RecordsStop(br.data, p, left, keys, record.error);
      return Err(record.error);
    }
    var (key, entry) := record.value;
    if key in keys {
      RecordsStop(br.data, p, left, keys, DuplicateKey);
      return Err(DuplicateKey);
    }
    RecordsAdvance(br.data, p, left, keys, keys[key := entry], br.pos);
    return Ok(keys[key := entry]);
  }

  /** Once the two seeks and the two counts succeed, what is left of the decoding is the record loop. */
  lemma ReadKeysReachesRecords(d: seq<byte>, p1: nat, p2: nat, v1: Boxed, p3: nat, v2: Boxed, p4: nat, keyValueSize: int)
    requires Seek(d, 9, 0xFE).Done? && Seek(d, 9, 0xFE).next == p1
    requires Seek(d, p1, 0xFB).Done? && Seek(d, p1, 0xFB).next == p2
    requires SizeEncoded(d, p2) == Done(v1, p3) && ConvertToInt32(v1) == Ok(keyValueSize)
    requires SizeEncoded(d, p3) == Done(v2, p4) && ConvertToInt32(v2).Ok?
    ensures ReadKeys(d) == Records(d, p4, keyValueSize, map[])
  {
  }

  /** A turn of the record loop that adds a record leaves the remaining turns to do. */
  lemma RecordsAdvance(d: seq<byte>, p: nat, count: int, acc: map<string, Entry>, acc': map<string, Entry>, q: nat)
    requires count > 0 && AddRecord(d, p, acc) == Done(acc', q)
    ensures Records(d, p, count, acc) == Records(d, q, count - 1, acc')
  {
    assert Records(d, p, count, acc) == RecordsTurn(d, p, count, acc);
  }

  /** A turn of the record loop that fails ends the loop with that failure. */
  lemma RecordsStop(d: seq<byte>, p: nat, count: int, acc: map<string, Entry>, f: Failure)
    requires count > 0 && AddRecord(d, p, acc) == Fail(f)
    ensures Records(d, p, count, acc) == Err(f)
  {
    assert Records(d, p, count, acc) == RecordsTurn(d, p, count, acc);
  }

  /** One turn of the record loop: the record read decides between a duplicate key and the remaining turns. */
  lemma RecordsStep(d: seq<byte>, p: nat, count: int, acc: map<string, Entry>, k: string, e: Entry, q: nat)
    requires count > 0 && RecordAt(d, p) == Done((k, e), q)
    ensures Records(d, p, count, acc) == if k in acc then Err(DuplicateKey) else Records(d, q, count - 1, acc[k := e])
  {
  }

  /** `LoadKeysFromRdbFile`: `None` is a file that does not exist. */
  method LoadKeysFromRdbFile(file: Option<seq<byte>>) returns (keys: map<string, Entry>)
    ensures keys == LoadKeys(file)
  {
    keys := map[];
    if file.Some? {
      var r := ReadKeysFromRdbFile(file.value);
      if r.Ok? {
        keys := r.value;
      }
    }
  }

  // ----- what each helper reads -----

  /** Size form `00`: the first byte itself, a value below 64, one byte consumed. */
  lemma SizeSixBit(d: seq<byte>, p: nat)
    requires p < |d| && d[p] < 0x40
    ensures SizeEncoded(d, p) == Done(Int(d[p] as int), p + 1) && d[p] < 64
  {
  }

  /** Size form `01`: the low six bits of the first byte and the second byte as a 14-bit big-endian value, two bytes consumed. */
  lemma SizeFourteenBit(d: seq<byte>, p: nat)
    requires p + 1 < |d| && 0x40 <= d[p] < 0x80
    ensures SizeEncoded(d, p) == Done(Int((d[p] as int % 64) * 256 + d[p + 1] as int), p + 2)
    ensures (d[p] as int % 64) * 256 + d[p + 1] as int < 16384
  {
    var low := d[p] % 0x40;
    var bs := [low, d[p + 1]];
    assert Reverse(bs) == [d[p + 1], low] by {
      assert bs[1..] == [d[p + 1]];
      assert Reverse(bs[1..]) == [d[p + 1]] by {
        assert bs[1..][1..] == [];
      }
    }
    LeValueTwo(d[p + 1], low);
    assert [d[p + 1], low][..2] == [d[p + 1], low];
    assert low as int == d[p] as int % 64;
  }

  lemma LeValueTwo(a: byte, b: byte)
    ensures LeValue([a, b]) == a as int + 256 * b as int
  {
    assert [a, b][1..] == [b];
    assert LeValue([b]) == b as int by {
      assert [b][1..] == [];
    }
  }

  lemma {:induction false} LeValueFour(bs: seq<byte>)
    requires |bs| == 4
    ensures LeValue(bs) == bs[0] as int + 256 * (bs[1] as int + 256 * (bs[2] as int + 256 * bs[3] as int))
  {
    assert LeValue(bs[3..]) == bs[3] as int by {
      assert bs[3..][1..] == [];
    }
    assert LeValue(bs[2..]) == bs[2] as int + 256 * LeValue(bs[3..]) by {
      assert bs[2..][1..] == bs[3..];
    }
    assert LeValue(bs[1..]) == bs[1] as int + 256 * LeValue(bs[2..]) by {
      assert bs[1..][1..] == bs[2..];
    }
  }

  lemma {:induction false} ReverseFour(bs: seq<byte>)
    requires |bs| == 4
    ensures Reverse(bs) == [bs[3], bs[2], bs[1], bs[0]]
  {
    assert Reverse(bs[3..]) == [bs[3]] by {
      assert bs[3..][1..] == [];
    }
    assert Reverse(bs[2..]) == [bs[3], bs[2]] by {
      assert bs[2..][1..] == bs[3..];
    }
    assert Reverse(bs[1..]) == [bs[3], bs[2], bs[1]] by {
      assert bs[1..][1..] == bs[2..];
    }
  }

  /** Size form `10`: the next four bytes as a big-endian signed 32-bit integer, five bytes consumed. */
  lemma SizeThirtyTwoBit(d: seq<byte>, p: nat)
    requires p + 4 < |d| && 0x80 <= d[p] < 0xC0
    ensures SizeEncoded(d, p) ==
      Done(Int(Signed32(d[p + 4] as int + 256 * (d[p + 3] as int + 256 * (d[p + 2] as int + 256 * d[p + 1] as int)))), p + 5)
  {
    var bs := d[p + 1..p + 5];
    ReverseFour(bs);
    LeValueFour(Reverse(bs));
    assert Reverse(bs)[..4] == Reverse(bs);
  }

  /** Size form `11`: the first byte is masked to six bits and then read as a string tag, so it reads that many raw bytes. */
  lemma SizeMaskedString(d: seq<byte>, p: nat)
    requires p < |d| && d[p] >= 0xC0
    ensures SizeEncoded(d, p) ==
      var (bs, q) := BytesAt(d, p + 1, d[p] as nat % 64);
      Done(Str(BytesToString(bs)), q)
  {
  }

  /** At the end of the input the size read throws `EndOfStreamException`. */
  lemma SizeFailsAtEnd(d: seq<byte>, p: nat)
    requires p >= |d|
    ensures SizeEncoded(d, p) == Fail(EndOfStream)
  {
  }

  /** Tag 0xC0: one unsigned byte. */
  lemma StringInt8(d: seq<byte>, p: nat)
    requires p + 1 < |d| && d[p] == 0xC0
    ensures StringEncoded(d, p) == Done(Int(d[p + 1] as int), p + 2)
  {
  }

  /** Tag 0xC1: two bytes as a little-endian signed 16-bit integer. */
  lemma StringInt16(d: seq<byte>, p: nat)
    requires p + 2 < |d| && d[p] == 0xC1
    ensures StringEncoded(d, p) == Done(Int(Signed16(d[p + 1] as int + 256 * d[p + 2] as int)), p + 3)
  {
    var bs := d[p + 1..p + 3];
    assert bs[..2] == bs == [d[p + 1], d[p + 2]];
    LeValueTwo(d[p + 1], d[p + 2]);
  }

  /** Tag 0xC2: four bytes as a little-endian signed 32-bit integer. */
  lemma StringInt32(d: seq<byte>, p: nat)
    requires p + 4 < |d| && d[p] == 0xC2
    ensures StringEncoded(d, p) ==
      Done(Int(Signed32(d[p + 1] as int + 256 * (d[p + 2] as int + 256 * (d[p + 3] as int + 256 * d[p + 4] as int)))), p + 5)
  {
    var bs := d[p + 1..p + 5];
    assert bs[..4] == bs;
    LeValueFour(bs);
  }

  /** Tag 0xC3 (a compressed string): the empty string, and only the tag is consumed. */
  lemma StringCompressed(d: seq<byte>, p: nat)
    requires p < |d| && d[p] == 0xC3
    ensures StringEncoded(d, p) == Done(Str(""), p + 1)
  {
  }

  /** Any other tag is a byte count: that many raw bytes, or as many as remain. */
  lemma StringRaw(d: seq<byte>, p: nat)
    requires p < |d| && !(0xC0 <= d[p] <= 0xC3)
    ensures var n := d[p] as nat;
      StringEncoded(d, p) ==
        if p + 1 + n <= |d| then Done(Str(BytesToString(d[p + 1..p + 1 + n])), p + 1 + n)
        else Done(Str(BytesToString(d[p + 1..])), |d|)
  {
  }

  // ----- where each exception comes from -----

  /** Tag 0xC1 with fewer than two bytes left: `BitConverter.ToInt16` throws on the short array. */
  lemma StringInt16Short(d: seq<byte>, p: nat)
    requires p < |d| && d[p] == 0xC1 && |d| < p + 3
    ensures StringEncoded(d, p) == Fail(ShortArray)
  {
  }

  /** Tag 0xC2 with fewer than four bytes left: `BitConverter.ToInt32` throws on the short array. */
  lemma StringInt32Short(d: seq<byte>, p: nat)
    requires p < |d| && d[p] == 0xC2 && |d| < p + 5
    ensures StringEncoded(d, p) == Fail(ShortArray)
  {
  }

  /** Size form `10` with fewer than four bytes left: the reversed array is too short for `BitConverter.ToInt32`. */
  lemma SizeThirtyTwoBitShort(d: seq<byte>, p: nat)
    requires p < |d| && 0x80 <= d[p] < 0xC0 && |d| < p + 5
    ensures SizeEncoded(d, p) == Fail(ShortArray)
  {
    ReverseLength(BytesAt(d, p + 1, 4).0);
  }

  lemma {:induction false} ReverseLength(bs: seq<byte>)
    ensures |Reverse(bs)| == |bs|
  {
    if bs != [] {
      ReverseLength(bs[1..]);
    }
  }

  /** An 0xFC prefix with fewer than eight bytes after it: `BitConverter.ToUInt64` throws on the short array. */
  lemma ExpiryMillisShort(d: seq<byte>, p: nat)
    requires p < |d| && d[p] == 0xFC && |d| < p + 9
    ensures TypeAndExpiry(d, p) == Fail(ShortArray)
  {
  }

  /** An 0xFD prefix with fewer than four bytes after it: `BitConverter.ToUInt32` throws on the short array. */
  lemma ExpirySecondsShort(d: seq<byte>, p: nat)
    requires p < |d| && d[p] == 0xFD && |d| < p + 5
    ensures TypeAndExpiry(d, p) == Fail(ShortArray)
  {
  }

  /** An 0xFC prefix whose eight bytes, cast to `long`, lie outside the milliseconds a `DateTime` can hold: `FromUnixTimeMilliseconds` throws. */
  lemma ExpiryMillisOutOfRange(d: seq<byte>, p: nat)
    requires p + 8 < |d| && d[p] == 0xFC
    requires var ms := AsInt64(LeValue(d[p + 1..p + 9])); ms < MIN_UNIX_MS || ms > MAX_UNIX_MS
    ensures TypeAndExpiry(d, p) == Fail(OutOfRange)
  {
    assert d[p + 1..p + 9][..8] == d[p + 1..p + 9];
  }

  /** The key is read before the type is examined: a failing key read fails the record with its own exception, whatever the type. */
  lemma RecordReadsKeyFirst(d: seq<byte>, p: nat, t: byte, e: Option<int>, q: nat, f: Failure)
    requires TypeAndExpiry(d, p) == Done((t, e), q) && StringEncoded(d, q) == Fail(f)
    ensures RecordAt(d, p) == Fail(f)
  {
  }

  /** A value type other than 0 throws `NotImplementedException` once the key has been read. */
  lemma RecordRejectsType(d: seq<byte>, p: nat, t: byte, e: Option<int>, q: nat, k: Boxed, q': nat)
    requires TypeAndExpiry(d, p) == Done((t, e), q) && t != 0 && StringEncoded(d, q) == Done(k, q')
    ensures RecordAt(d, p) == Fail(NotImplemented)
  {
  }

  /** A record count that is a string but not a 32-bit integer makes `Convert.ToInt32` throw. */
  lemma CountNotANumber(d: seq<byte>, p1: nat, p2: nat, s: string, p3: nat)
    requires Seek(d, 9, 0xFE) == Done((), p1) && Seek(d, p1, 0xFB) == Done((), p2)
    requires SizeEncoded(d, p2) == Done(Str(s), p3) && ParseInt32(s).None?
    ensures ReadKeys(d) == Err(BadNumber)
  {
  }

  /** The second count is converted too, though it is never used: one that is not a 32-bit integer throws as well. */
  lemma ExpiryCountNotANumber(d: seq<byte>, p1: nat, p2: nat, v1: Boxed, p3: nat, s: string, p4: nat)
    requires Seek(d, 9, 0xFE) == Done((), p1) && Seek(d, p1, 0xFB) == Done((), p2)
    requires SizeEncoded(d, p2) == Done(v1, p3) && ConvertToInt32(v1).Ok?
    requires SizeEncoded(d, p3) == Done(Str(s), p4) && ParseInt32(s).None?
    ensures ReadKeys(d) == Err(BadNumber)
  {
  }

  /** A count written in size form `11` as the one-byte string "x" fails the load. */
  lemma StringCountFailsLoad()
    ensures ReadKeys([0, 0, 0, 0, 0, 0, 0, 0, 0, 0xFE, 0xFB, 0xC1, 120]) == Err(BadNumber)
    ensures LoadKeys(Some([0, 0, 0, 0, 0, 0, 0, 0, 0, 0xFE, 0xFB, 0xC1, 120])) == map[]
  {
    var d: seq<byte> := [0, 0, 0, 0, 0, 0, 0, 0, 0, 0xFE, 0xFB, 0xC1, 120];
    assert Seek(d, 9, 0xFE) == Done((), 10) && Seek(d, 10, 0xFB) == Done((), 11);
    assert BytesToString(d[12..13]) == "x" by {
      assert d[12..13] == [120];
    }
    assert SizeEncoded(d, 11) == Done(Str("x"), 13);
    assert ParseInt32("x").None? by {
      ParseNeedsADigit("x");
    }
    CountNotANumber(d, 10, 11, "x", 13);
  }

  /** No file gives the empty keyspace, and so does a file that fails anywhere: the result is never partial. */
  lemma LoadAllOrNothing(file: Option<seq<byte>>)
    ensures file.None? ==> LoadKeys(file) == map[]
    ensures LoadKeys(file) == map[] || (file.Some? && ReadKeys(file.value) == Ok(LoadKeys(file)))
    ensures file.Some? && ReadKeys(file.value).Ok? ==> LoadKeys(file) == ReadKeys(file.value).value
    ensures file.Some? && ReadKeys(file.value).Err? ==> LoadKeys(file) == map[]
  {
  }

  /** A file with no 0xFE after its 9-byte header, a truncated one included, loads as the empty keyspace. */
  lemma NoSelectorLoadsEmpty(d: seq<byte>)
    requires forall j :: 9 <= j < |d| ==> d[j] != 0xFE
    ensures ReadKeys(d) == Err(EndOfStream)
    ensures LoadKeys(Some(d)) == map[]
  {
    SeekFinds(d, 9, 0xFE);
  }
}

# A verified model of a minimal Redis-compatible server core

This project models, in Dafny, the three sequential parts of a small
Redis-compatible key-value server written in C#:

- **The command engine** (`RedisCommandHandler`). This is the keyspace dictionary
  `data`, which maps a key to a value and an optional expiry. The engine dispatches
  a request on its case-insensitive verb to seven handlers: ECHO, PING, SET with
  `PX`, GET with lazy deletion of expired keys, CONFIG GET, KEYS and INFO.
  Replies come from four encoders of the Redis serialization protocol (RESP).
  The handler is the class `Commands.RedisCommandHandler`, with `data` as a `map`
  field. Each encoder returns the text it would send. A reference RESP reply
  decoder, `Resp.ParseReply`, is the partner the replies are proved against.
- **The RDB snapshot decoder** (`RdbReader`). The file is read through a
  `BinaryReader`, modelled as the class `Rdb.ByteReader` with a cursor `pos`.
  Decoding skips a 9-byte header, seeks to `0xFE` and then `0xFB`, and reads two
  size-encoded counts. It then reads exactly as many records as the first count
  says. A record is an optional `0xFC` (8-byte milliseconds) or `0xFD` (4-byte
  seconds) expiry, a type byte, a key and a value. Each method of the reader is
  proved against a pure function of the bytes and the start position. The
  function gives either the value read and the next position, or the exception
  that escapes. An encoder for the layout the decoder understands
  (`RdbEncoding`) is proved to round-trip through it, down to whole files.
- **The option parser** (`ReadArgs`). The three settings `Dir`, `DbFilename` and
  `Port` have defaults and are overwritten by a left-to-right scan of the command
  line. The settings are the fields of the class `ReadArgs.Options`. The scan is
  proved equal to the function `Scan`, and what `Scan` computes is stated
  completely: the last occurrence of a flag wins, a flag in final position is
  ignored, and a non-integer port stops the scan.

Modules: `Wrappers` (Option and Result), `Text` (the .NET string helpers the
code relies on, restricted to ASCII), `Keyspace` (the stored entry and when it
is live), `Resp`, `Commands`, `Rdb`, `RdbEncoding`, `ReadArgs`.

Time is an integer count of milliseconds since the Unix epoch. The clock
`DateTime.UtcNow` is the parameter `now`. An entry is live while its expiry is
absent or strictly later than `now`.

The request is the array `lines` that the server splits from the request text,
so the verb is `lines[2]` and argument *k* is `lines[2k + 2]`.

The model follows the code where it departs from the usual Redis behaviour:

- ECHO, GET, PING with an argument and INFO reply with a simple string
  `+...\r\n`, not a bulk string.
- There are no arity errors. A `PX` value that does not parse is ignored.
- KEYS with a pattern other than `*` replies with the empty array.
- KEYS does not delete the expired keys it skips.
- A duplicate key in a snapshot fails the whole load. It is not a
  last-write-wins merge.
- A failing load gives the empty keyspace, not the entries read before the
  failure.
- In the RDB string form, any tag byte other than `0xC0`–`0xC3` is taken as a
  byte count. The 14-bit and 32-bit length forms are not honoured.
- In the size form `11` the tag is masked to six bits before the string reader
  sees it, so that path always reads `first & 0x3F` raw bytes.

## Model

| member | source | states |
|---|---|---|
| Text.ParseInt32 | src/RedisCommandHandler.cs:66 | the integer parser behind `int.TryParse`/`int.Parse`/`Convert.ToInt32` only ever yields values in the 32-bit range |
| Text.ParseIntToString | src/RedisCommandHandler.cs:66 | parsing the decimal spelling of any 32-bit integer gives that integer back |
| Text.ParseNeedsADigit | src/ReadArgs.cs:21 | text without a digit never parses; `int.Parse` throws on it |
| Text.UpperEqualsWord | src/RedisCommandHandler.cs:12 | `s.ToUpper() == WORD` holds exactly when `s` matches the word letter by letter, ignoring case |
| Resp.SimpleString | src/RedisCommandHandler.cs:171-175 | `SendResponse` sends `+`, the message unchanged, then CRLF |
| Resp.ErrorString | src/RedisCommandHandler.cs:177-181 | `SendErrorResponse` sends `-`, the message unchanged, then CRLF |
| Resp.ArrayString | src/RedisCommandHandler.cs:189-198 | an array reply starts with the header `*<n>\r\n` and is nothing more exactly when there are no items |
| Resp.SendArrayResponse | src/RedisCommandHandler.cs:189-198 | the builder loop produces `*<n>\r\n` followed by `$<len>\r\n<item>\r\n` for each item in order |
| Resp.ArrayRoundTrip | src/RedisCommandHandler.cs:189-198 | every array reply decodes back as exactly the items it was built from, in order |
| Resp.BulkItemsRoundTrip | src/RedisCommandHandler.cs:193-196 | the concatenated bulk items decode as exactly the items, with each length prefix matching its item |
| Resp.SimpleRoundTrip | src/RedisCommandHandler.cs:171-175 | `+<message>\r\n` decodes as that simple string if and only if the message has no line break |
| Resp.ErrorRoundTrip | src/RedisCommandHandler.cs:177-181 | `-<message>\r\n` decodes as that error if and only if the message has no line break |
| Resp.NullRoundTrip | src/RedisCommandHandler.cs:183-187 | the text `SendNullResponse` sends, the constant `NullBulk`, decodes as the null bulk string |
| Commands.RedisCommandHandler.constructor | src/RedisCommandHandler.cs:8 | the keyspace starts empty |
| Commands.RedisCommandHandler.HandleCommand | src/RedisCommandHandler.cs:10-39 | dispatches on the upper-cased verb; for each verb, the new keyspace and the reply; an unknown verb replies `-ERR unknown command` and leaves the keyspace alone |
| Commands.SetExpiry | src/RedisCommandHandler.cs:63-70 | SET has an expiry exactly when `PX` (in any case) is at `lines[8]` of a request of at least 10 lines and `lines[10]` parses; it is then `now` plus the parsed 32-bit milliseconds, and a `PX` value that does not parse leaves no expiry |
| Commands.RedisCommandHandler.HandleSet | src/RedisCommandHandler.cs:59-75 | the new keyspace is the old one with `lines[4]` mapped to `lines[6]` and the expiry, every other key unchanged; the reply is `+OK` |
| Commands.SetPxExpiry | src/RedisCommandHandler.cs:63-70 | `PX` (in any case) followed by the spelling of a 32-bit `ms` sets the expiry to `now + ms` |
| Commands.RedisCommandHandler.HandleGet | src/RedisCommandHandler.cs:77-108 | a live key is served with the keyspace unchanged; an expired key is removed (and only it) and reads as null; a missing key reads as null with the keyspace unchanged |
| Commands.GetReplies | src/RedisCommandHandler.cs:90-107 | the GET reply decodes as the stored value for a live key and as null otherwise, and after a null reply the key is absent |
| Commands.RedisCommandHandler.FilterLiveKeys | src/RedisCommandHandler.cs:144-152 | the loop collects every live key exactly once and no other key |
| Commands.RedisCommandHandler.HandleKeys | src/RedisCommandHandler.cs:137-160 | with pattern `*` the reply is the array of a listing of the live keys; otherwise it is the empty array; the keyspace is not changed |
| Commands.ListingCount | src/RedisCommandHandler.cs:144-152 | a listing of the live keys has exactly as many elements as there are live keys |
| Commands.EmptyArrayText | src/RedisCommandHandler.cs:154-159 | the reply for an unsupported pattern is `*0\r\n` |
| Commands.KeysReplyListsLiveKeys | src/RedisCommandHandler.cs:137-160 | the KEYS reply decodes as an array whose items are exactly the live keys (none for a pattern other than `*`), without repeats |
| Commands.ConfigReply | src/RedisCommandHandler.cs:110-135 | CONFIG answers exactly when the upper-cased subcommand is GET; the reply is the null bulk string exactly when the lower-cased name is neither `dir` nor `dbfilename` |
| Commands.ConfigGetReplies | src/RedisCommandHandler.cs:110-135 | CONFIG GET decodes as `[name, value]` for `dir` and `dbfilename` (name lower-cased) and as the null bulk string for any other name |
| Commands.PingReply | src/RedisCommandHandler.cs:47-57 | PING answers exactly for 3 or 5 lines: `PONG` for 3, the argument for 5 |
| Commands.PingReplies | src/RedisCommandHandler.cs:47-57 | PING replies `PONG` with no argument and echoes the argument with one; any other request length gets no reply |
| Commands.EchoReply | src/RedisCommandHandler.cs:41-45 | ECHO sends `+`, the argument unchanged, then CRLF |
| Commands.EchoReplies | src/RedisCommandHandler.cs:41-45 | ECHO's reply decodes as its argument, a simple string |
| Commands.InfoReply | src/RedisCommandHandler.cs:162-169 | INFO answers exactly for the section `replication`, with `+role:master\r\n` |
| Commands.InfoReplies | src/RedisCommandHandler.cs:162-169 | INFO replies if and only if the section is `replication`, and the reply is `role:master` |
| Commands.UnknownVerbReplies | src/RedisCommandHandler.cs:35-36 | the unknown-verb reply decodes as the error `ERR unknown command` |
| Commands.SetThenGet | src/RedisCommandHandler.cs:59-97 | `SET k v` followed by `GET k` at any time replies `+v` |
| Commands.SetPxThenGet | src/RedisCommandHandler.cs:59-108 | `SET k v PX ms` followed by `GET k` replies `+v` before `now + ms` and null from then on |
| Commands.SetPxThenKeys | src/RedisCommandHandler.cs:63-160 | once `SET k v PX ms` has expired, `KEYS *` on that keyspace replies `*0\r\n` |
| Rdb.ByteReader.constructor | src/RdbReader.cs:19-20 | the reader is over the file's bytes and starts at position 9, past the header |
| Rdb.ByteReader.ReadByte | src/RdbReader.cs:72 | `ReadByte` returns the byte at the cursor and advances by one, or throws end of stream at the end |
| Rdb.ByteReader.ReadBytes | src/RdbReader.cs:95 | `ReadBytes(n)` returns the next `n` bytes, or as many as remain, and never throws |
| Rdb.Seek | src/RdbReader.cs:67-74 | a seek that succeeds stops just past a `b` inside the input; a seek that fails throws end of stream |
| Rdb.SeekToByte | src/RdbReader.cs:67-74 | the do-while loop ends as `Seek` says: just past the first `b`, or with end of stream |
| Rdb.SeekFinds | src/RdbReader.cs:67-74 | the seek succeeds if and only if `b` occurs at or after the cursor; it stops right after the first occurrence, consuming no `b` before it, and otherwise throws end of stream |
| Rdb.SizeEncoded | src/RdbReader.cs:76-104 | a size read consumes at least one byte and never reads past the input; it fails only with end of stream or a short array |
| Rdb.ReadSizeEncodedValue | src/RdbReader.cs:76-104 | the method's value, new cursor and exceptions agree with `SizeEncoded` |
| Rdb.SizeSixBit | src/RdbReader.cs:78-83 | form `00` returns the first byte, below 64, and consumes one byte |
| Rdb.SizeFourteenBit | src/RdbReader.cs:84-91 | form `01` returns `(first & 0x3F) * 256 + second`, below 16384, and consumes two bytes |
| Rdb.SizeThirtyTwoBit | src/RdbReader.cs:92-98 | form `10` returns the next four bytes as a big-endian signed 32-bit integer and consumes five bytes |
| Rdb.SizeMaskedString | src/RdbReader.cs:99-103 | form `11` reads `first & 0x3F` raw bytes as a string |
| Rdb.SizeFailsAtEnd | src/RdbReader.cs:78 | a size read at the end of the input throws end of stream |
| Rdb.StringTagged | src/RdbReader.cs:106-135 | after the tag, the read never moves backwards nor past the input, and fails only with end of stream or a short array |
| Rdb.StringEncoded | src/RdbReader.cs:137-141 | a string read consumes at least the tag and never reads past the input; it fails only with end of stream or a short array |
| Rdb.ReadStringEncodedValueFrom | src/RdbReader.cs:106-135 | the method agrees with `StringTagged` for the given tag |
| Rdb.ReadStringEncodedValue | src/RdbReader.cs:137-141 | the method reads the tag and then agrees with `StringEncoded` |
| Rdb.StringInt8 | src/RdbReader.cs:108-112 | tag `0xC0` gives one unsigned byte |
| Rdb.StringInt16 | src/RdbReader.cs:113-118 | tag `0xC1` gives two bytes as a little-endian signed 16-bit integer |
| Rdb.StringInt32 | src/RdbReader.cs:119-124 | tag `0xC2` gives four bytes as a little-endian signed 32-bit integer |
| Rdb.StringCompressed | src/RdbReader.cs:125-129 | tag `0xC3` gives the empty string and consumes only the tag |
| Rdb.StringRaw | src/RdbReader.cs:130-134 | any other tag `t` gives the next `t` bytes as the string, truncated at the end of the input |
| Rdb.TypeAndExpiry | src/RdbReader.cs:40-51 | the type and expiry read consumes at least one byte within the input; a millisecond expiry is never before the earliest `DateTime`; it fails only with end of stream, a short array or an out-of-range expiry |
| Rdb.RecordAt | src/RdbReader.cs:40-58 | a record read consumes at least one byte within the input, and never fails with a duplicate key or a number error |
| Rdb.ReadRecord | src/RdbReader.cs:40-58 | one record read (expiry prefix, type, key, then a value only for type 0) agrees with `RecordAt` |
| Rdb.AddRecord | src/RdbReader.cs:40-61 | a loop turn that succeeds keeps every key already loaded, with its entry |
| Rdb.Records | src/RdbReader.cs:36-62 | the remaining turns, when they succeed, keep every key already loaded, with its entry |
| Rdb.RecordsTurn | src/RdbReader.cs:40-62 | the next turn and those after it, when they succeed, keep every key already loaded, with its entry |
| Rdb.AddNextRecord | src/RdbReader.cs:40-61 | a loop turn (read a record, then `keys.Add`) moves the remaining-loop specification forward by one record, or ends it with the failure |
| Rdb.ReadRecordLoop | src/RdbReader.cs:36-62 | the counted loop over records gives exactly `Records` from the current position |
| Rdb.RecordsAdvance | src/RdbReader.cs:61 | a turn that adds a fresh key leaves the remaining turns to run |
| Rdb.RecordsStop | src/RdbReader.cs:40-61 | a turn that throws, or meets a key already loaded, ends the whole read with that failure |
| Rdb.RecordsStep | src/RdbReader.cs:61 | after a record is read, a key already present fails with a duplicate key; otherwise the key is added and the remaining turns run |
| Rdb.ReadKeys | src/RdbReader.cs:19-36 | a file no longer than the 9-byte header throws end of stream |
| Rdb.ReadKeysReachesRecords | src/RdbReader.cs:30-36 | after both seeks and both counts, the result is the record loop run for the first count; the second count plays no part |
| Rdb.ReadKeysFromRdbFile | src/RdbReader.cs:10-65 | the method's result is exactly `ReadKeys` of the file bytes, including every exception |
| Rdb.LoadKeys | src/RdbReader.cs:143-166 | no file loads nothing, and a non-empty keyspace is always exactly what the decoder read from the file |
| Rdb.LoadKeysFromRdbFile | src/RdbReader.cs:143-166 | the method's result is `LoadKeys` of the file |
| Rdb.LoadAllOrNothing | src/RdbReader.cs:143-166 | an absent file loads nothing; any exception loads nothing; otherwise the decoded map is returned whole, never part of it |
| Rdb.NoSelectorLoadsEmpty | src/RdbReader.cs:30 | a file with no `0xFE` after the header, truncated files included, throws end of stream and loads as empty |
| Rdb.StringInt16Short | src/RdbReader.cs:113-118 | tag `0xC1` with fewer than two bytes left throws the short-array exception of `BitConverter.ToInt16` |
| Rdb.StringInt32Short | src/RdbReader.cs:119-124 | tag `0xC2` with fewer than four bytes left throws the short-array exception of `BitConverter.ToInt32` |
| Rdb.SizeThirtyTwoBitShort | src/RdbReader.cs:92-98 | size form `10` with fewer than four bytes left throws the short-array exception |
| Rdb.ExpiryMillisShort | src/RdbReader.cs:42-44 | an `0xFC` prefix with fewer than eight bytes after it throws the short-array exception of `BitConverter.ToUInt64` |
| Rdb.ExpirySecondsShort | src/RdbReader.cs:47-49 | an `0xFD` prefix with fewer than four bytes after it throws the short-array exception of `BitConverter.ToUInt32` |
| Rdb.ExpiryMillisOutOfRange | src/RdbReader.cs:44 | an `0xFC` expiry whose `long` value lies outside the milliseconds a `DateTime` can hold throws out-of-range |
| Rdb.RecordReadsKeyFirst | src/RdbReader.cs:53-58 | the key is read before the type is examined, so a failing key read fails the record with its own exception for any type |
| Rdb.RecordRejectsType | src/RdbReader.cs:53-58 | a value type other than 0 throws not-implemented once the key has been read |
| Rdb.CountNotANumber | src/RdbReader.cs:33 | a record count that is a string but not a 32-bit integer makes `Convert.ToInt32` throw |
| Rdb.ExpiryCountNotANumber | src/RdbReader.cs:34 | the unused second count is converted too, and a non-numeric one throws as well |
| Rdb.StringCountFailsLoad | src/RdbReader.cs:33 | a concrete file whose count is the one-byte string `x` fails with the number exception and loads as empty |
| RdbEncoding.SizeRoundTrip | src/RdbReader.cs:76-98 | wherever the shortest size encoding of `n` sits, the size read returns `n` and stops right after it |
| RdbEncoding.RawRoundTrip | src/RdbReader.cs:130-134 | a length tag and the characters read back as the string |
| RdbEncoding.Int8RoundTrip | src/RdbReader.cs:108-112 | an 8-bit integer encoding reads back as the integer |
| RdbEncoding.Int16RoundTrip | src/RdbReader.cs:113-118 | a 16-bit integer encoding reads back as the integer |
| RdbEncoding.Int32RoundTrip | src/RdbReader.cs:119-124 | a 32-bit integer encoding reads back as the integer |
| RdbEncoding.StringRoundTrip | src/RdbReader.cs:106-141 | every string or integer encoding reads back as what was written and stops right after it, and `Convert.ToString` of the value is its text |
| RdbEncoding.TypeAndExpiryMillis | src/RdbReader.cs:42-46 | `0xFC`, eight little-endian bytes and type 0 give that many milliseconds and type 0 |
| RdbEncoding.TypeAndExpirySeconds | src/RdbReader.cs:47-51 | `0xFD`, four little-endian bytes and type 0 give that many seconds as milliseconds, and type 0 |
| RdbEncoding.TypeAndExpiryRoundTrip | src/RdbReader.cs:40-51 | every expiry prefix followed by type 0 reads back as the expiry in milliseconds and stops after the type |
| RdbEncoding.RecordRead | src/RdbReader.cs:40-58 | wherever an encoded record sits, reading it gives its key and entry and stops right after it |
| RdbEncoding.RecordRoundTrip | src/RdbReader.cs:40-58 | one encoded record between any surrounding bytes reads back as its key and entry |
| RdbEncoding.MapOfContents | src/RdbReader.cs:61 | with distinct keys, the keyspace of the records holds each record's entry under its key and no other key |
| RdbEncoding.RecordsRoundTrip | src/RdbReader.cs:36-62 | reading encoded records into a map gives the map extended by their keyspace when no key repeats or is already present, and fails with a duplicate key otherwise |
| RdbEncoding.SeekStops | src/RdbReader.cs:67-74 | the seek stops just past the first occurrence of the byte |
| RdbEncoding.SelectorFound | src/RdbReader.cs:30-31 | the two seeks skip the auxiliary fields to the database selector and then find the table-size marker |
| RdbEncoding.FileHead | src/RdbReader.cs:19-34 | the header, the selector and the two sizes bring the decoder to the first record, with the count the encoder wrote |
| RdbEncoding.FileReachesRecords | src/RdbReader.cs:19-36 | decoding an encoded snapshot is the record loop run from the first record for the written count |
| RdbEncoding.FileRoundTrip | src/RdbReader.cs:10-65 | decoding an encoded snapshot gives exactly the keyspace of its records when their keys are distinct and fails with a duplicate key otherwise; loading gives that keyspace or nothing |
| ReadArgs.Options.constructor | src/ReadArgs.cs:3-5 | the defaults are `/tmp`, `dump.rdb` and 6379 |
| ReadArgs.Options.ParseCommandLineArguments | src/ReadArgs.cs:7-24 | the settings after the loop, and whether it finished, are `Scan` of the arguments from the settings before it |
| ReadArgs.Apply | src/ReadArgs.cs:11-22 | one loop step fails exactly on `--port` with a value that does not parse; otherwise it sets the setting its flag names to the value (the parsed port for `--port`) and leaves the others |
| ReadArgs.Scan | src/ReadArgs.cs:9-23 | without a non-final `--port` the scan always finishes and leaves the port as it was |
| ReadArgs.FailureSticks | src/ReadArgs.cs:21 | once `int.Parse` has thrown, the later arguments change nothing |
| ReadArgs.LastValueIsLast | src/ReadArgs.cs:9-22 | the value taken for a flag is the argument after its last non-final occurrence |
| ReadArgs.LastValueNone | src/ReadArgs.cs:11-19 | no value is taken for a flag if and only if it occurs only in final position or not at all |
| ReadArgs.ScanSucceeds | src/ReadArgs.cs:19-21 | the scan finishes if and only if every `--port` with a following argument is followed by a parsable integer |
| ReadArgs.ScanLastWins | src/ReadArgs.cs:9-22 | when the scan finishes, each setting is the value after the last non-final occurrence of its flag, or its starting value |
| ReadArgs.UnrecognisedChangeNothing | src/ReadArgs.cs:9-23 | arguments that are none of the three flags leave the settings unchanged |
| ReadArgs.NoArguments | src/ReadArgs.cs:3-5 | with no arguments the defaults stand |
| ReadArgs.ValueReexamined | src/ReadArgs.cs:9-18 | a flag's value is examined as a flag too: `--dir --dbfilename x` sets `Dir` to `--dbfilename` and `DbFilename` to `x` |
| ReadArgs.BadPortFails | src/ReadArgs.cs:21 | `--port` followed by a non-integer makes the parse throw |

## Left out

- `Server.cs` (the TCP listener and its receive loop) is not part of this model. Socket I/O is left out too: each reply is the string the handler would send, and the branches that send nothing return `None`.
- UTF-8 encoding and decoding are left out. Replies are character sequences. An RDB string maps each byte to the character with that code; multi-byte UTF-8 decoding is not modelled.
- Resp.BulkItem: a bulk item's length is counted in Unicode scalar values, not in UTF-16 code units as `item.Length` counts them. The two differ for characters outside the Basic Multilingual Plane, which the code counts twice. The same holds for the array replies of KEYS and CONFIG GET.
- All console logging is left out.
- File-system access is left out (`File.Exists`, `FileInfo.OpenRead`, `Path.Combine`, the `FileStream` seek). The file is `Option<seq<byte>>`, and `None` stands for a file that is absent or cannot be opened. The seek past the header is the reader starting at position 9.
- `DateTime` is modelled as integer milliseconds. Sub-millisecond precision of the clock is not modelled.
- Commands.RedisCommandHandler.HandleSet: does not model the exception `AddMilliseconds` throws when `now + ms` falls outside the `DateTime` range.
- Commands.RedisCommandHandler.HandleCommand: requires that every index of `lines` the chosen handler reads exists. The `IndexOutOfRangeException` on shorter requests is not modelled, and neither is `lines.Length == 10` with `PX`, where the code reads `lines[10]`.
- Commands.RedisCommandHandler.HandleKeys: judges every key at the single instant `now`. The code reads `DateTime.UtcNow` afresh for each key (src/RedisCommandHandler.cs:148), so a key that expires during the scan is not modelled.
- Commands.RedisCommandHandler.HandleKeys: states the listed keys as a set without repeats. The order is that of dictionary enumeration, which .NET does not specify.
- Commands.RedisCommandHandler.FilterLiveKeys: states the listed keys as a set without repeats, for the same reason.
- Library text handling is modelled for ASCII only:
  - `ToUpper` and `ToLower` fold ASCII letters only.
  - `int.TryParse`, `int.Parse` and `Convert.ToInt32(string)` accept ASCII white space, an optional sign and ASCII digits in the 32-bit range; culture-specific signs and digits are not modelled.
  - `Convert.ToString` of an integer uses the invariant spelling.
  - The .NET integer parser also accepts trailing `'\0'` characters; `Text.ParseInt32` rejects them.
- The size and integer decoders assume that `BitConverter` is little-endian, as it is on the usual .NET hosts.
- `DateTimeOffset.FromUnixTimeMilliseconds` is modelled only as its range check, which fails outside years 1 to 9999. `FromUnixTimeSeconds` cannot fail on a 32-bit unsigned value, so it is multiplication by 1000.
- ReadArgs.Options.ParseCommandLineArguments: the exception `int.Parse` throws is reported as `ok == false`, with the settings assigned before it kept. What the caller does with the exception is not part of this model.
- Concurrency is left out. The shared static `data` and the static settings are accessed by a single thread only, and the static members become fields of one object.
- The unused constant `RDB_VERSION_INDICATOR` is left out.
- Not present in the code, so not in the model: a RESP request decoder, the replica handshake, RDB checksum and end-of-file handling, and KEYS pattern matching.

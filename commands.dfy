/**
 * The command engine of `RedisCommandHandler`: the keyspace dictionary `data`,
 * dispatch on the verb, the seven handlers, and the replies they send.
 *
 * A request arrives as the array `lines` of the request text split at line
 * breaks, so the verb is `lines[2]` and argument k is `lines[2k + 2]`. The
 * clock is the parameter `now` (milliseconds), and the server configuration
 * read by CONFIG GET is passed as `dir` and `dbfilename`. A reply of `None`
 * stands for the branches that send nothing.
 */
module Commands {
  import opened Wrappers
  import opened Text
  import opened Resp
  import opened Keyspace

  /** The request has at least ten lines and line 8 is `PX` in any case. */
  predicate HasPx(lines: seq<string>) {
    |lines| >= 10 && Upper(lines[8]) == "PX"
  }

  /** The indices HandleSet reads exist (it reads `lines[10]` whenever HasPx holds). */
  predicate SetInRange(lines: seq<string>) {
    |lines| >= 7 && (HasPx(lines) ==> |lines| >= 11)
  }

  /** Every index the handler chosen by the verb reads is inside `lines`. */
  predicate InRange(lines: seq<string>) {
    |lines| >= 3 &&
    var verb := Upper(lines[2]);
    (verb == "ECHO" ==> |lines| >= 5) &&
    (verb == "SET" ==> SetInRange(lines)) &&
    (verb == "GET" ==> |lines| >= 5) &&
    (verb == "CONFIG" ==> |lines| >= 5 && (Upper(lines[4]) == "GET" ==> |lines| >= 7)) &&
    (verb == "KEYS" ==> |lines| >= 5) &&
    (verb == "INFO" ==> |lines| >= 5)
  }

  /** The expiry SET stores: `now + n` for `PX n` with an integer `n`; none otherwise, including a `PX` value that does not parse. */
  function SetExpiry(lines: seq<string>, now: int): (r: Option<int>)
    requires SetInRange(lines)
    ensures r.Some? <==> HasPx(lines) && ParseInt32(lines[10]).Some?
    ensures r.Some? ==> r.value == now + ParseInt32(lines[10]).value && now + INT32_MIN <= r.value <= now + INT32_MAX
  {
    if HasPx(lines) then
      match ParseInt32(lines[10])
      case Some(ms) => Some(now + ms)
      case None => None
    else None
  }

  /** `HandleEcho`: the argument as a simple string. */
  function EchoReply(lines: seq<string>): (r: string)
    requires |lines| >= 5
    ensures |r| == |lines[4]| + 3 && r[0] == '+' && r[1..|r| - 2] == lines[4] && r[|r| - 2..] == CRLF
  {
    SimpleString(lines[4])
  }

  /** `HandlePing`: `PONG` without an argument, the argument with one, and nothing for any other length. */
  function PingReply(lines: seq<string>): (r: Option<string>)
    ensures r.Some? <==> |lines| == 3 || |lines| == 5
    ensures r.Some? ==> r.value == SimpleString(if |lines| == 3 then "PONG" else lines[4])
  {
    if |lines| == 5 then Some(SimpleString(lines[4]))
    else if |lines| == 3 then Some(SimpleString("PONG"))
    else None
  }

  /** `HandleConfig`: only the GET subcommand answers; `dir` and `dbfilename` are known names. */
  function ConfigReply(lines: seq<string>, dir: string, dbfilename: string): (r: Option<string>)
    requires |lines| >= 5 && (Upper(lines[4]) == "GET" ==> |lines| >= 7)
    ensures r.None? <==> Upper(lines[4]) != "GET"
    ensures r.Some? ==> (r.value == NullBulk <==> Lower(lines[6]) != "dir" && Lower(lines[6]) != "dbfilename")
  {
    if Upper(lines[4]) != "GET" then None
    else
      var name := Lower(lines[6]);
      if name == "dir" then Some(ArrayString([name, dir]))
      else if name == "dbfilename" then Some(ArrayString([name, dbfilename]))
      else Some(NullBulk)
  }

  /** `HandleInfo`: only the `replication` section (compared case-sensitively) answers. */
  function InfoReply(lines: seq<string>): (r: Option<string>)
    requires |lines| >= 5
    ensures r.Some? <==> lines[4] == "replication"
    ensures r.Some? ==> r.value == "+role:master\r\n"
  {
    if lines[4] == "replication" then Some(SimpleString("role:master")) else None
  }

  /** GET: a live entry is served unchanged; an expired one is removed and reads as null; a missing one reads as null. */
  predicate GetOutcome(before: map<string, Entry>, key: string, now: int, after: map<string, Entry>, reply: string) {
    if key in before && Live(before[key], now) then after == before && reply == SimpleString(before[key].value)
    else if key in before then after == before - {key} && reply == NullBulk
    else after == before && reply == NullBulk
  }

  /** `keys` lists every live key of `d` once, in some order, and nothing else. */
  predicate IsLiveListing(d: map<string, Entry>, now: int, keys: seq<string>) {
    (forall k :: k in keys ==> k in d && Live(d[k], now)) &&
    (forall k :: k in d && Live(d[k], now) ==> k in keys) &&
    (forall i, j :: 0 <= i < j < |keys| ==> keys[i] != keys[j])
  }

  /** KEYS: pattern `*` lists the live keys (in dictionary order); any other pattern gives the empty array. */
  ghost predicate KeysOutcome(d: map<string, Entry>, pattern: string, now: int, reply: string) {
    if pattern == "*" then exists keys :: IsLiveListing(d, now, keys) && reply == ArrayString(keys)
    else reply == ArrayString([])
  }

  /** What one call of HandleCommand does to the keyspace and what it sends. */
  ghost predicate CommandOutcome(before: map<string, Entry>, lines: seq<string>, now: int, dir: string, dbfilename: string,
                                 after: map<string, Entry>, reply: Option<string>)
    requires InRange(lines)
  {
    var verb := Upper(lines[2]);
    if verb == "ECHO" then after == before && reply == Some(EchoReply(lines))
    else if verb == "PING" then after == before && reply == PingReply(lines)
    else if verb == "SET" then
      after == before[lines[4] := Entry(lines[6], SetExpiry(lines, now))] && reply == Some(SimpleString("OK"))
    else if verb == "GET" then reply.Some? && GetOutcome(before, lines[4], now, after, reply.value)
    else if verb == "CONFIG" then after == before && reply == ConfigReply(lines, dir, dbfilename)
    else if verb == "KEYS" then after == before && reply.Some? && KeysOutcome(before, lines[4], now, reply.value)
    else if verb == "INFO" then after == before && reply == InfoReply(lines)
    else after == before && reply == Some(ErrorString("ERR unknown command"))
  }

  class RedisCommandHandler {
    /** The keyspace: key to value and optional expiry. */
    var data: map<string, Entry>

    constructor()
      ensures data == map[]
    {
      data := map[];
    }

    /** Dispatches on the upper-cased verb. */
    method HandleCommand(lines: seq<string>, now: int, dir: string, dbfilename: string) returns (reply: Option<string>)
      requires InRange(lines)
      modifies this
      ensures CommandOutcome(old(data), lines, now, dir, dbfilename, data, reply)
    {
      var verb := Upper(lines[2]);
      if verb == "ECHO" {
        reply := Some(EchoReply(lines));
      } else if verb == "PING" {
        reply := PingReply(lines);
      } else if verb == "SET" {
        var r := HandleSet(lines, now);
        reply := Some(r);
      } else if verb == "GET" {
        var r := HandleGet(lines, now);
        reply := Some(r);
      } else if verb == "CONFIG" {
        reply := ConfigReply(lines, dir, dbfilename);
      } else if verb == "KEYS" {
        var r := HandleKeys(lines, now);
        reply := Some(r);
      } else if verb == "INFO" {
        reply := InfoReply(lines);
      } else {
        reply := Some(ErrorString("ERR unknown command"));
      }
    }

    /** Stores `lines[6]` under `lines[4]`, replacing any previous entry, and acknowledges. */
    method HandleSet(lines: seq<string>, now: int) returns (reply: string)
      requires SetInRange(lines)
      modifies this
      ensures data == old(data)[lines[4] := Entry(lines[6], SetExpiry(lines, now))]
      ensures reply == SimpleString("OK")
    {
      var key := lines[4];
      var value := lines[6];
      var expiry: Option<int> := None;
      if |lines| >= 10 && Upper(lines[8]) == "PX" {
        var parsed := ParseInt32(lines[10]);
        if parsed.Some? {
          expiry := Some(now + parsed.value);
        }
      }
      data := data[key := Entry(value, expiry)];
      reply := SimpleString("OK");
    }

    /** Looks `lines[4]` up, deleting it when it has expired. */
    method HandleGet(lines: seq<string>, now: int) returns (reply: string)
      requires |lines| >= 5
      modifies this
      ensures GetOutcome(old(data), lines[4], now, data, reply)
    {
      var key := lines[4];
      if key in data {
        var entry := data[key];
        if entry.expiry.None? || entry.expiry.value > now {
          reply := SimpleString(entry.value);
        } else {
          data := data - {key};
          reply := NullBulk;
        }
      } else {
        reply := NullBulk;
      }
    }

    /** The loop of HandleKeys: collects the keys whose entries have not expired. */
    method FilterLiveKeys(now: int) returns (keys: seq<string>)
      ensures IsLiveListing(data, now, keys)
    {
      keys := [];
      var remaining := data.Keys;
      while remaining != {}
        invariant remaining <= data.Keys
        invariant forall k :: k in keys <==> k in data && k !in remaining && Live(data[k], now)
        invariant forall i, j :: 0 <= i < j < |keys| ==> keys[i] != keys[j]
        decreases remaining
      {
        var k :| k in remaining;
        if data[k].expiry.None? || data[k].expiry.value > now {
          keys := keys + [k];
        }
        remaining := remaining - {k};
      }
    }

    /** Answers KEYS; only the pattern `*` is implemented, and the keyspace is left untouched. */
    method HandleKeys(lines: seq<string>, now: int) returns (reply: string)
      requires |lines| >= 5
      ensures KeysOutcome(data, lines[4], now, reply)
    {
      var pattern := lines[4];
      var filtered: seq<string> := [];
      if pattern == "*" {
        filtered := FilterLiveKeys(now);
      }
      reply := SendArrayResponse(filtered);
      if pattern == "*" {
        assert IsLiveListing(data, now, filtered) && reply == ArrayString(filtered);
      }
    }
  }

  /** The keys of `d` whose entries are live at `now`. */
  function LiveKeys(d: map<string, Entry>, now: int): set<string> {
    set k | k in d && Live(d[k], now)
  }

  lemma {:induction false} DistinctCount(s: seq<string>)
    requires forall i, j :: 0 <= i < j < |s| ==> s[i] != s[j]
    ensures |set x | x in s| == |s|
  {
    if s != [] {
      DistinctCount(s[1..]);
      assert (set x | x in s) == {s[0]} + (set x | x in s[1..]);
      assert s[0] !in s[1..];
    }
  }

  /** A listing of the live keys has exactly one element per live key. */
  lemma {:induction false} ListingCount(d: map<string, Entry>, now: int, keys: seq<string>)
    requires IsLiveListing(d, now, keys)
    ensures |keys| == |LiveKeys(d, now)|
  {
    DistinctCount(keys);
    assert (set x | x in keys) == LiveKeys(d, now);
  }

  // ----- properties of the replies -----

  /** The empty array reply that KEYS sends for an unsupported pattern. */
  lemma EmptyArrayText()
    ensures ArrayString([]) == "*0\r\n"
  {
  }

  /** A KEYS reply reads back as an array naming exactly the live keys (none for a pattern other than `*`), each once. */
  lemma {:induction false} KeysReplyListsLiveKeys(d: map<string, Entry>, pattern: string, now: int, reply: string)
    requires KeysOutcome(d, pattern, now, reply)
    ensures ParseReply(reply).Some? && ParseReply(reply).value.Array?
    ensures forall k :: k in ParseReply(reply).value.items <==> pattern == "*" && k in d && Live(d[k], now)
    ensures var items := ParseReply(reply).value.items;
      (forall i, j :: 0 <= i < j < |items| ==> items[i] != items[j]) &&
      |items| == if pattern == "*" then |LiveKeys(d, now)| else 0
  {
    if pattern == "*" {
      var keys :| IsLiveListing(d, now, keys) && reply == ArrayString(keys);
      ArrayRoundTrip(keys);
      ListingCount(d, now, keys);
    } else {
      ArrayRoundTrip([]);
    }
  }

  /** CONFIG GET reads back as the pair [name, value] for `dir` and `dbfilename` and as the null bulk string otherwise. */
  lemma ConfigGetReplies(lines: seq<string>, dir: string, dbfilename: string)
    requires |lines| >= 7 && Upper(lines[4]) == "GET"
    ensures ConfigReply(lines, dir, dbfilename).Some?
    ensures var name := Lower(lines[6]);
      ParseReply(ConfigReply(lines, dir, dbfilename).value) ==
        if name == "dir" then Some(Array(["dir", dir]))
        else if name == "dbfilename" then Some(Array(["dbfilename", dbfilename]))
        else Some(NullBulkString)
  {
    var name := Lower(lines[6]);
    if name == "dir" {
      ArrayRoundTrip([name, dir]);
    } else if name == "dbfilename" {
      ArrayRoundTrip([name, dbfilename]);
    }
  }

  /** PING reads back as `PONG` without an argument and as the argument with one (when it has no line break); any other length sends nothing. */
  lemma PingReplies(lines: seq<string>)
    ensures |lines| == 3 ==> PingReply(lines).Some? && ParseReply(PingReply(lines).value) == Some(Simple("PONG"))
    ensures |lines| == 5 ==>
      PingReply(lines).Some? && ParseReply(PingReply(lines).value) == if NoLineBreak(lines[4]) then Some(Simple(lines[4])) else None
    ensures PingReply(lines).Some? <==> |lines| == 3 || |lines| == 5
  {
    if |lines| == 3 {
      SimpleRoundTrip("PONG");
    } else if |lines| == 5 {
      SimpleRoundTrip(lines[4]);
    }
  }

  /** ECHO reads back as its argument, a simple string, whenever the argument has no line break. */
  lemma EchoReplies(lines: seq<string>)
    requires |lines| >= 5
    ensures ParseReply(EchoReply(lines)) == if NoLineBreak(lines[4]) then Some(Simple(lines[4])) else None
  {
    SimpleRoundTrip(lines[4]);
  }

  /** INFO answers only the section `replication`, and then with `role:master`. */
  lemma InfoReplies(lines: seq<string>)
    requires |lines| >= 5
    ensures InfoReply(lines).Some? <==> lines[4] == "replication"
    ensures InfoReply(lines).Some? ==> ParseReply(InfoReply(lines).value) == Some(Simple("role:master"))
  {
    var m := "role:master";
    assert NoLineBreak(m) by {
      assert forall i :: 0 <= i < |m| ==> m[i] != '\r' && m[i] != '\n';
    }
    SimpleRoundTrip(m);
  }

  /** An unknown verb reads back as the error `ERR unknown command`. */
  lemma UnknownVerbReplies()
    ensures ParseReply(ErrorString("ERR unknown command")) == Some(Error("ERR unknown command"))
  {
    var m := "ERR unknown command";
    assert NoLineBreak(m) by {
      assert forall i :: 0 <= i < |m| ==> m[i] != '\r' && m[i] != '\n';
    }
    ErrorRoundTrip(m);
  }

  /** A GET reply reads back as the stored value for a live key (when it has no line break) and as null for an expired or missing one. */
  lemma GetReplies(before: map<string, Entry>, key: string, now: int, after: map<string, Entry>, reply: string)
    requires GetOutcome(before, key, now, after, reply)
    ensures key in before && Live(before[key], now) ==>
      ParseReply(reply) == if NoLineBreak(before[key].value) then Some(Simple(before[key].value)) else None
    ensures !(key in before && Live(before[key], now)) ==> ParseReply(reply) == Some(NullBulkString) && key !in after
  {
    if key in before && Live(before[key], now) {
      SimpleRoundTrip(before[key].value);
    }
  }

  /** SET with `PX` and the decimal spelling of a 32-bit `ms` expires the key `ms` milliseconds after `now`. */
  lemma SetPxExpiry(lines: seq<string>, now: int, ms: int)
    requires |lines| >= 11 && Upper(lines[8]) == "PX" && IsInt32(ms) && lines[10] == IntToString(ms)
    ensures SetInRange(lines) && SetExpiry(lines, now) == Some(now + ms)
  {
    ParseIntToString(ms);
  }

  // ----- request scenarios -----

  /** The `$<length>` line that precedes an argument in a request. */
  function LengthLine(s: string): string {
    "$" + NatToString(|s|)
  }

  /** `SET key value` and then `GET key` at any later time replies with the value. */
  method SetThenGet(key: string, value: string, now: int, later: int) returns (reply: Option<string>)
    ensures reply == Some(SimpleString(value))
  {
    var handler := new RedisCommandHandler();
    var setLines := ["*3", LengthLine("SET"), "SET", LengthLine(key), key, LengthLine(value), value];
    assert Upper("SET") == "SET";
    var _ := handler.HandleCommand(setLines, now, "/tmp", "dump.rdb");
    var get := ["*2", LengthLine("GET"), "GET", LengthLine(key), key];
    assert Upper("GET") == "GET";
    reply := handler.HandleCommand(get, later, "/tmp", "dump.rdb");
  }

  /** `SET key value PX ms` and then `GET key`: the value before the expiry, null from the expiry on. */
  method SetPxThenGet(key: string, value: string, ms: int, now: int, later: int) returns (reply: Option<string>)
    requires IsInt32(ms)
    ensures reply == Some(if later < now + ms then SimpleString(value) else NullBulk)
  {
    var handler := new RedisCommandHandler();
    var setLines := ["*5", LengthLine("SET"), "SET", LengthLine(key), key, LengthLine(value), value, LengthLine("PX"), "PX", LengthLine(IntToString(ms)), IntToString(ms)];
    assert Upper("SET") == "SET" && Upper("PX") == "PX";
    SetPxExpiry(setLines, now, ms);
    var _ := handler.HandleCommand(setLines, now, "/tmp", "dump.rdb");
    var get := ["*2", LengthLine("GET"), "GET", LengthLine(key), key];
    assert Upper("GET") == "GET";
    reply := handler.HandleCommand(get, later, "/tmp", "dump.rdb");
  }

  /** After `SET key value PX ms` has expired, `KEYS *` replies with the empty array. */
  method SetPxThenKeys(key: string, value: string, ms: int, now: int, later: int) returns (reply: Option<string>)
    requires IsInt32(ms) && later >= now + ms
    ensures reply == Some("*0\r\n")
  {
    var handler := new RedisCommandHandler();
    var setLines := ["*5", LengthLine("SET"), "SET", LengthLine(key), key, LengthLine(value), value, LengthLine("PX"), "PX", LengthLine(IntToString(ms)), IntToString(ms)];
    assert Upper("SET") == "SET" && Upper("PX") == "PX";
    SetPxExpiry(setLines, now, ms);
    var _ := handler.HandleCommand(setLines, now, "/tmp", "dump.rdb");
    var keys := ["*2", LengthLine("KEYS"), "KEYS", LengthLine("*"), "*"];
    assert Upper("KEYS") == "KEYS";
    reply := handler.HandleCommand(keys, later, "/tmp", "dump.rdb");
    ghost var listed :| IsLiveListing(handler.data, later, listed) && reply.value == ArrayString(listed);
    assert LiveKeys(handler.data, later) == {};
    ListingCount(handler.data, later, listed);
    EmptyArrayText();
  }
}

/**
 * The reply side of the Redis serialization protocol (RESP) as the command
 * handler writes it: the four encoders `SendResponse`, `SendErrorResponse`,
 * `SendNullResponse` and `SendArrayResponse`, each modelled as producing the
 * text it would send, and a reference decoder that reads such text back.
 */
module Resp {
  import opened Wrappers
  import opened Text

  const CRLF: string := "\r\n"

  /** `SendResponse`: a simple string reply, `+<message>\r\n`. */
  function SimpleString(message: string): (r: string)
    ensures |r| == |message| + 3 && r[0] == '+' && r[1..|r| - 2] == message && r[|r| - 2..] == CRLF
  {
    "+" + message + CRLF
  }

  /** `SendErrorResponse`: an error reply, `-<message>\r\n`. */
  function ErrorString(message: string): (r: string)
    ensures |r| == |message| + 3 && r[0] == '-' && r[1..|r| - 2] == message && r[|r| - 2..] == CRLF
  {
    "-" + message + CRLF
  }

  /** `SendNullResponse`: the null bulk string. */
  const NullBulk: string := "$-1\r\n"

  /** One element of an array reply; the length is the item's character count. */
  function BulkItem(item: string): string {
    "$" + NatToString(|item|) + CRLF + item + CRLF
  }

  function BulkItems(items: seq<string>): string {
    if items == [] then "" else BulkItem(items[0]) + BulkItems(items[1..])
  }

  /** The text `SendArrayResponse` builds: a count header, then each item in order. */
  function ArrayString(items: seq<string>): (r: string)
    ensures var header := "*" + NatToString(|items|) + CRLF;
      |header| <= |r| && r[..|header|] == header && (items == [] <==> |r| == |header|)
  {
    "*" + NatToString(|items|) + CRLF + BulkItems(items)
  }

  lemma {:induction false} BulkItemsAppend(items: seq<string>, item: string)
    ensures BulkItems(items + [item]) == BulkItems(items) + BulkItem(item)
  {
    if items == [] {
      assert [item][1..] == [];
    } else {
      assert (items + [item])[1..] == items[1..] + [item];
      BulkItemsAppend(items[1..], item);
    }
  }

  /** `SendArrayResponse`: appends the header and then one bulk item per element to a builder. */
  method SendArrayResponse(items: seq<string>) returns (response: string)
    ensures response == ArrayString(items)
  {
    response := "*" + NatToString(|items|) + CRLF;
    for i := 0 to |items|
      invariant response == "*" + NatToString(|items|) + CRLF + BulkItems(items[..i])
    {
      BulkItemsAppend(items[..i], items[i]);
      assert items[..i + 1] == items[..i] + [items[i]];
      response := response + BulkItem(items[i]);
    }
    assert items[..|items|] == items;
  }

  // ----- reference decoder -----

  /** The reply values a client can read from the text above. */
  datatype Reply = Simple(text: string) | Error(text: string) | NullBulkString | Array(items: seq<string>)

  predicate NoLineBreak(s: string) {
    '\r' !in s && '\n' !in s
  }

  /** The index of the first carriage return in `s`, or `|s|` when there is none. */
  function LineEnd(s: string): (k: nat)
    ensures k <= |s|
    ensures forall j :: 0 <= j < k ==> s[j] != '\r'
    ensures k < |s| ==> s[k] == '\r'
  {
    if |s| == 0 || s[0] == '\r' then 0 else 1 + LineEnd(s[1..])
  }

  /** A decimal count terminated by CRLF: its value and the text after the terminator. */
  function ReadLength(s: string): Option<(nat, string)> {
    var k := LineEnd(s);
    if k == 0 || k + 1 >= |s| || s[k + 1] != '\n' || !AllDigits(s[..k]) then None
    else Some((DigitsValue(s[..k]), s[k + 2..]))
  }

  /** Exactly `n` bulk strings, and nothing after them. */
  function ParseBulkItems(s: string, n: nat): Option<seq<string>>
    decreases n
  {
    if n == 0 then (if s == [] then Some([]) else None)
    else if |s| == 0 || s[0] != '$' then None
    else
      match ReadLength(s[1..])
      case None => None
      case Some((len, rest)) =>
        if |rest| < len + 2 || rest[len..len + 2] != CRLF then None
        else
          match ParseBulkItems(rest[len + 2..], n - 1)
          case None => None
          case Some(tail) => Some([rest[..len]] + tail)
  }

  /** Reads one complete reply that fills the whole of `s`. */
  function ParseReply(s: string): Option<Reply> {
    if |s| < 3 then None
    else if s[0] == '+' || s[0] == '-' then
      var text := s[1..|s| - 2];
      if s[|s| - 2..] != CRLF || !NoLineBreak(text) then None
      else if s[0] == '+' then Some(Simple(text)) else Some(Error(text))
    else if s == NullBulk then Some(NullBulkString)
    else if s[0] == '*' then
      match ReadLength(s[1..])
      case None => None
      case Some((n, rest)) =>
        match ParseBulkItems(rest, n)
        case None => None
        case Some(items) => Some(Array(items))
    else None
  }

  // ----- round trips -----

  /** A simple string reads back as its message exactly when the message holds no line break. */
  lemma {:induction false} SimpleRoundTrip(message: string)
    ensures ParseReply(SimpleString(message)) == if NoLineBreak(message) then Some(Simple(message)) else None
  {
    var s := SimpleString(message);
    assert s[1..|s| - 2] == message;
    assert s[|s| - 2..] == CRLF;
  }

  /** An error reply reads back as its message exactly when the message holds no line break. */
  lemma {:induction false} ErrorRoundTrip(message: string)
    ensures ParseReply(ErrorString(message)) == if NoLineBreak(message) then Some(Error(message)) else None
  {
    var s := ErrorString(message);
    assert s[1..|s| - 2] == message;
    assert s[|s| - 2..] == CRLF;
  }

  lemma NullRoundTrip()
    ensures ParseReply(NullBulk) == Some(NullBulkString)
  {
  }

  lemma {:induction false} LineEndOfDigits(d: string, rest: string)
    requires AllDigits(d)
    ensures LineEnd(d + CRLF + rest) == |d|
  {
    var s := d + CRLF + rest;
    var k := LineEnd(s);
    assert s[|d|] == '\r';
  }

  lemma {:induction false} ReadLengthOfNat(n: nat, rest: string)
    ensures ReadLength(NatToString(n) + CRLF + rest) == Some((n, rest))
  {
    var d := NatToString(n);
    var s := d + CRLF + rest;
    LineEndOfDigits(d, rest);
    assert s[..|d|] == d;
    assert s[|d| + 2..] == rest;
    NatToStringValue(n);
  }

  /** A `$`-tagged item with its terminator, followed by `n - 1` more items, reads back as that item and then the others. */
  lemma BulkItemsCons(s: string, n: nat, item: string, rest: string, tail: seq<string>)
    requires n > 0 && |s| > 0 && s[0] == '$' && ReadLength(s[1..]) == Some((|item|, rest))
    requires |rest| >= |item| + 2 && rest[..|item|] == item && rest[|item|..|item| + 2] == CRLF
    requires ParseBulkItems(rest[|item| + 2..], n - 1) == Some(tail)
    ensures ParseBulkItems(s, n) == Some([item] + tail)
  {
  }

  /** The pieces of one bulk item followed by `tail`, as the item reader sees them. */
  lemma BulkItemParts(item: string, tail: string)
    ensures var s := BulkItem(item) + tail; var rest := item + CRLF + tail;
      && |s| > 0 && s[0] == '$' && ReadLength(s[1..]) == Some((|item|, rest))
      && |rest| >= |item| + 2 && rest[..|item|] == item && rest[|item|..|item| + 2] == CRLF && rest[|item| + 2..] == tail
  {
    var s := BulkItem(item) + tail;
    var rest := item + CRLF + tail;
    assert s == "$" + (NatToString(|item|) + CRLF + rest);
    assert s[1..] == NatToString(|item|) + CRLF + rest;
    ReadLengthOfNat(|item|, rest);
  }

  lemma {:induction false} BulkItemsRoundTrip(items: seq<string>)
    ensures ParseBulkItems(BulkItems(items), |items|) == Some(items)
  {
    if items != [] {
      var tail := BulkItems(items[1..]);
      BulkItemParts(items[0], tail);
      BulkItemsRoundTrip(items[1..]);
      BulkItemsCons(BulkItems(items), |items|, items[0], items[0] + CRLF + tail, items[1..]);
      assert [items[0]] + items[1..] == items;
    }
  }

  /** A `*`-tagged reply whose count and items read back is that array. */
  lemma ArrayOfParts(s: string, n: nat, rest: string, items: seq<string>)
    requires |s| >= 3 && s[0] == '*'
    requires ReadLength(s[1..]) == Some((n, rest)) && ParseBulkItems(rest, n) == Some(items)
    ensures ParseReply(s) == Some(Array(items))
  {
    assert s != NullBulk by {
      assert s[0] != NullBulk[0];
    }
  }

  /** Every array reply reads back as exactly the items it was built from, in order. */
  lemma {:induction false} ArrayRoundTrip(items: seq<string>)
    ensures ParseReply(ArrayString(items)) == Some(Array(items))
  {
    var s := ArrayString(items);
    var rest := BulkItems(items);
    assert s == "*" + (NatToString(|items|) + CRLF + rest);
    assert s[1..] == NatToString(|items|) + CRLF + rest;
    ReadLengthOfNat(|items|, rest);
    BulkItemsRoundTrip(items);
    ArrayOfParts(s, |items|, rest, items);
  }
}

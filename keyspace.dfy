/** What the server stores per key, shared by the command handler and the snapshot reader. */
module Keyspace {
  import opened Wrappers

  /** A stored value and its optional absolute expiry, in milliseconds since the Unix epoch. */
  datatype Entry = Entry(value: string, expiry: Option<int>)

  /** An entry is served while it has no expiry or its expiry is strictly later than `now`. */
  predicate Live(e: Entry, now: int) {
    e.expiry.None? || e.expiry.value > now
  }
}

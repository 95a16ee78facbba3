/**
 * The process-wide cache entry that holds the home timeline. An entry set
 * at time `t` with timeout `d` is served while the clock reads less than
 * `t + d`; time is an explicit argument instead of a wall clock. Only
 * the posts table, which is kept newest first, is ever stored.
 */
module Cache {
  import opened Wrappers
  import opened Models

  /** Seconds the home timeline stays cached. */
  const IndexTimeout: nat := 20

  class TimelineCache {
    var entry: Option<seq<Post>>
    var expiresAt: nat

    /** A stored listing is in the table's default order. */
    ghost predicate Valid()
      reads this
    {
      entry.Some? ==> NewestFirst(entry.value)
    }

    constructor ()
      ensures Valid() && entry == None
    {
      entry, expiresAt := None, 0;
    }

    /** Whether a stored value is still served at time `now`. */
    predicate Live(now: nat)
      reads this
    {
      entry.Some? && now < expiresAt
    }

    /** The stored value if it has not expired at `now`; a miss otherwise. */
    method Get(now: nat) returns (r: Option<seq<Post>>)
      requires Valid()
      ensures r.Some? <==> Live(now)
      ensures r.Some? ==> NewestFirst(r.value)
      ensures r.Some? ==> r == entry
    {
      r := if Live(now) then entry else None;
    }

    /** Stores `value` at time `now` for `timeout` time units. */
    method Set(value: seq<Post>, now: nat, timeout: nat)
      requires NewestFirst(value)
      modifies this
      ensures Valid()
      ensures entry == Some(value) && expiresAt == now + timeout
      ensures timeout > 0 ==> Live(now)
    {
      entry, expiresAt := Some(value), now + timeout;
    }

    /** Drops the stored value. */
    method Clear()
      modifies this
      ensures Valid()
      ensures entry == None
      ensures forall now :: !Live(now)
    {
      entry := None;
    }
  }
}

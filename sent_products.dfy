/**
 * The sent-products ledger of the bot: a dictionary from ASIN to the time the
 * product was last announced, and its age-based eviction (clean_old_cache).
 * Times are whole seconds.
 */
module SentProducts {
  import opened Wrappers

  /** Seven days, in seconds: entries older than this are dropped. */
  const RetentionSeconds: int := 7 * 24 * 3600

  /** An entry stamped at `date` is stale at `now` when its age strictly exceeds the window. */
  predicate Stale(date: int, now: int) {
    now - date > RetentionSeconds
  }

  /**
   * The ledger that eviction leaves behind: every entry no older than the
   * retention window, with its timestamp, and nothing else.
   */
  function Retained(entries: map<string, int>, now: int): (kept: map<string, int>)
    ensures kept.Keys <= entries.Keys
    ensures forall asin :: asin in kept ==> kept[asin] == entries[asin] && now - entries[asin] <= RetentionSeconds
    ensures forall asin :: asin in entries && now - entries[asin] <= RetentionSeconds ==> asin in kept
    ensures forall asin :: asin in entries && now - entries[asin] > RetentionSeconds ==> asin !in kept
  {
    map asin | asin in entries && !Stale(entries[asin], now) :: entries[asin]
  }

  /** Evicting twice at the same instant removes nothing more than evicting once. */
  lemma RetainedIdempotent(entries: map<string, int>, now: int)
    ensures Retained(Retained(entries, now), now) == Retained(entries, now)
  {
  }

  /**
   * The boundary of the window: an entry exactly seven days old stays, one a
   * second older goes; an eight-day-old entry goes and a six-day-old one stays.
   */
  lemma RetentionBoundary(now: int)
    ensures var entries := map["A" := now - RetentionSeconds, "B" := now - RetentionSeconds - 1,
                               "C" := now - 8 * 24 * 3600, "D" := now - 6 * 24 * 3600];
            Retained(entries, now) == map["A" := now - RetentionSeconds, "D" := now - 6 * 24 * 3600]
  {
    var entries := map["A" := now - RetentionSeconds, "B" := now - RetentionSeconds - 1,
                       "C" := now - 8 * 24 * 3600, "D" := now - 6 * 24 * 3600];
    assert Stale(entries["B"], now) && Stale(entries["C"], now);
    assert "B" !in Retained(entries, now) && "C" !in Retained(entries, now);
  }

  /** The process-wide ledger, updated in place by the selection loop and by eviction. */
  class Ledger {
    var entries: map<string, int>

    /** Loads the persisted ledger, or starts empty when nothing was persisted. */
    constructor (persisted: Option<map<string, int>>)
      ensures persisted.Some? ==> entries == persisted.value
      ensures persisted.None? ==> entries == map[]
    {
      entries := persisted.GetOr(map[]);
    }

    /**
     * clean_old_cache: walks a snapshot of the entries and deletes each one
     * whose age at `now` exceeds the retention window.
     */
    method Evict(now: int)
      modifies this
      ensures entries == Retained(old(entries), now)
      ensures forall asin :: asin in old(entries) && !Stale(old(entries)[asin], now) ==> asin in entries
      ensures forall asin :: asin in entries ==>
                asin in old(entries) && entries[asin] == old(entries)[asin] && !Stale(old(entries)[asin], now)
      ensures forall asin :: asin in old(entries) && Stale(old(entries)[asin], now) ==> asin !in entries
    {
      var items := entries;
      var pending := items.Keys;
      while pending != {}
        invariant pending <= items.Keys
        invariant entries.Keys <= items.Keys
        invariant forall asin :: asin in pending ==> asin in entries
        invariant forall asin :: asin in items && asin !in pending ==>
                    (asin in entries <==> !Stale(items[asin], now))
        invariant forall asin :: asin in entries ==> entries[asin] == items[asin]
        decreases pending
      {
        var asin :| asin in pending;
        var date := items[asin];
        if Stale(date, now) {
          entries := entries - {asin};
        }
        pending := pending - {asin};
      }
    }
  }
}

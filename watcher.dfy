/**
 * The price watcher: one polling cycle fetches a batch of offers, walks it
 * announcing qualifying offers and recording them in the ledger, then evicts
 * stale ledger entries. The fetch, the clock and the message send are
 * abstracted: the fetch result and the clock readings are parameters, and an
 * announcement is the offer appended to the returned sequence.
 */
module Watcher {
  import opened Wrappers
  import opened Selection
  import opened SentProducts

  /** The HTTP status of a successful fetch. */
  const StatusOk: int := 200

  /**
   * get_keepa_offers, given the response status and the decoded "products"
   * list (absent when the response carries none): a failed or empty response
   * is an empty batch.
   */
  function FetchedOffers(status: int, products: Option<seq<Offer>>): seq<Offer> {
    if status != StatusOk then [] else products.GetOr([])
  }

  /**
   * The selection loop of one cycle over `offers`, against the ledger, with
   * every announcement stamped `now`. Returns the announced offers in order.
   */
  method RunCycle(ledger: Ledger, offers: seq<Offer>, now: int) returns (announced: seq<Offer>)
    modifies ledger
    ensures announced == Run(offers, old(ledger.entries), now, 0).announced
    ensures ledger.entries == Run(offers, old(ledger.entries), now, 0).ledger
    ensures |announced| <= MaxPerHour
    ensures IsSubsequence(announced, offers)
    ensures forall o :: o in announced ==> Qualifies(o) && o.asin !in old(ledger.entries)
    ensures DistinctAsins(announced)
    ensures ledger.entries.Keys == old(ledger.entries).Keys + AsinSet(announced)
    ensures forall asin :: asin in old(ledger.entries) ==> ledger.entries[asin] == old(ledger.entries)[asin]
    ensures forall o :: o in announced ==> ledger.entries[o.asin] == now
  {
    ghost var start := ledger.entries;
    ghost var whole := Run(offers, start, now, 0);
    announced := [];
    var sentThisHour := 0;
    var i := 0;
    while i < |offers|
      invariant 0 <= i <= |offers|
      invariant sentThisHour == |announced| <= MaxPerHour
      invariant var rest := Run(offers[i..], ledger.entries, now, sentThisHour);
                announced + rest.announced == whole.announced && rest.ledger == whole.ledger
    {
      if sentThisHour >= MaxPerHour {
        break;
      }
      var product := offers[i];
      assert offers[i..][1..] == offers[i + 1..];
      i := i + 1;
      var asin := product.asin;
      if asin in ledger.entries {
        continue;
      }
      if Falsy(product.buyBoxPrice) || Falsy(product.buyBoxShipping) {
        continue;
      }
      var currentPrice := product.buyBoxPrice.value;
      var oldPrice := product.buyBoxShipping.value;
      if oldPrice <= 0 {
        continue;
      }
      if MeetsThreshold(currentPrice, oldPrice) {
        announced := announced + [product];
        ledger.entries := ledger.entries[asin := now];
        sentThisHour := sentThisHour + 1;
      }
    }
    assert Run(offers[i..], ledger.entries, now, sentThisHour) == CycleOutcome([], ledger.entries);
    RunSubsequence(offers, start, now, 0);
    RunAnnouncesFreshQualifying(offers, start, now, 0);
    RunLedger(offers, start, now, 0);
  }

  /**
   * One iteration of the watcher: fetch, select and announce at `now`, then
   * evict at `cleanNow`. A failed fetch announces nothing and only evicts.
   */
  method WatchCycle(ledger: Ledger, status: int, products: Option<seq<Offer>>, now: int, cleanNow: int)
    returns (announced: seq<Offer>)
    modifies ledger
    ensures var r := Run(FetchedOffers(status, products), old(ledger.entries), now, 0);
            announced == r.announced && ledger.entries == Retained(r.ledger, cleanNow)
    ensures status != StatusOk ==> announced == [] && ledger.entries == Retained(old(ledger.entries), cleanNow)
  {
    var offers := FetchedOffers(status, products);
    announced := RunCycle(ledger, offers, now);
    ledger.Evict(cleanNow);
  }
}

/**
 * The per-cycle offer selection of the price watcher: which offers of a batch
 * are announced, in what order, and what the sent-products ledger becomes.
 * This module holds the value-level specification; the loop that mutates the
 * ledger in place is Watcher.RunCycle.
 */
module Selection {
  import opened Wrappers

  /** Most announcements in one polling cycle (MAX_PER_HOUR). */
  const MaxPerHour: nat := 5

  /** Minimum discount, in percent, for an offer to be announced (DISCOUNT_THRESHOLD). */
  const DiscountThreshold: nat := 10

  /**
   * A product record from the offer source. Prices are integer cents; the
   * discount baseline is the buyBoxShipping field, as the bot reads it.
   */
  datatype Offer = Offer(asin: string, buyBoxPrice: Option<int>, buyBoxShipping: Option<int>)

  datatype SkipReason = AlreadySent | MissingPrice | InvalidBaseline | BelowThreshold

  datatype Decision = Announce | Skip(reason: SkipReason)

  /** What one cycle produces: the offers announced, in order, and the ledger afterwards. */
  datatype CycleOutcome = CycleOutcome(announced: seq<Offer>, ledger: map<string, int>)

  /** Python truthiness of an optional number: false when absent or zero. */
  predicate Falsy(v: Option<int>) {
    v.None? || v.value == 0
  }

  /** The discount of `current` against `baseline` in percent, computed exactly. */
  function DiscountPercent(current: int, baseline: int): real
    requires baseline > 0
  {
    (1.0 - (current as real) / (baseline as real)) * 100.0
  }

  /** The discount test in integer arithmetic, as the model evaluates it. */
  predicate MeetsThreshold(current: int, baseline: int) {
    100 * current <= (100 - DiscountThreshold) * baseline
  }

  /** The integer test agrees with comparing the exact percentage to the threshold. */
  lemma ThresholdIsPercentTest(current: int, baseline: int)
    requires baseline > 0
    ensures MeetsThreshold(current, baseline) <==> DiscountPercent(current, baseline) >= DiscountThreshold as real
  {
    var c, b := current as real, baseline as real;
    var q := c / b;
    assert q * b == c;
    assert DiscountPercent(current, baseline) == 100.0 - 100.0 * q;
    assert (100 * current) as real == 100.0 * c;
    assert ((100 - DiscountThreshold) * baseline) as real == 90.0 * b;
    var d := 100.0 * q - 90.0;
    assert d * b == 100.0 * c - 90.0 * b;
    if d > 0.0 {
      assert d * b > 0.0;
    } else if d < 0.0 {
      assert d * b < 0.0;
    }
  }

  /**
   * The price conditions under which an offer is worth announcing, stated with
   * the source's percentage formula: both price fields truthy, a positive
   * baseline, and a discount of at least the threshold.
   */
  predicate Qualifies(o: Offer) {
    && !Falsy(o.buyBoxPrice)
    && !Falsy(o.buyBoxShipping)
    && o.buyBoxShipping.value > 0
    && DiscountPercent(o.buyBoxPrice.value, o.buyBoxShipping.value) >= DiscountThreshold as real
  }

  /** The tests of one loop iteration, in the order the loop makes them. */
  function Decide(o: Offer, sent: map<string, int>): Decision {
    if o.asin in sent then Skip(AlreadySent)
    else if Falsy(o.buyBoxPrice) || Falsy(o.buyBoxShipping) then Skip(MissingPrice)
    else if o.buyBoxShipping.value <= 0 then Skip(InvalidBaseline)
    else if MeetsThreshold(o.buyBoxPrice.value, o.buyBoxShipping.value) then Announce
    else Skip(BelowThreshold)
  }

  /** An offer is announced exactly when its ASIN is not yet sent and it qualifies. */
  lemma DecideAnnouncesExactly(o: Offer, sent: map<string, int>)
    ensures Decide(o, sent) == Announce <==> o.asin !in sent && Qualifies(o)
  {
    if !Falsy(o.buyBoxPrice) && !Falsy(o.buyBoxShipping) && o.buyBoxShipping.value > 0 {
      ThresholdIsPercentTest(o.buyBoxPrice.value, o.buyBoxShipping.value);
    }
  }

  /**
   * One cycle over the offers still to examine, given the ledger and the number
   * announced so far: stop at the cap, otherwise decide the first offer and
   * record it with timestamp `now` when it is announced.
   */
  function Run(offers: seq<Offer>, sent: map<string, int>, now: int, count: nat): CycleOutcome
    decreases |offers|
  {
    if offers == [] || count >= MaxPerHour then CycleOutcome([], sent)
    else if Decide(offers[0], sent) == Announce then
      var rest := Run(offers[1..], sent[offers[0].asin := now], now, count + 1);
      CycleOutcome([offers[0]] + rest.announced, rest.ledger)
    else
      Run(offers[1..], sent, now, count)
  }

  /** The ASINs of a sequence of offers. */
  function AsinSet(offers: seq<Offer>): set<string> {
    set o | o in offers :: o.asin
  }

  /** No two offers of the sequence share an ASIN. */
  predicate DistinctAsins(offers: seq<Offer>) {
    forall i, j :: 0 <= i < j < |offers| ==> offers[i].asin != offers[j].asin
  }

  /** `xs` is `ys` with some elements dropped, the rest kept in order. */
  predicate IsSubsequence<T(==)>(xs: seq<T>, ys: seq<T>)
    decreases |ys|
  {
    || xs == []
    || (&& ys != []
        && ((xs[0] == ys[0] && IsSubsequence(xs[1..], ys[1..])) || IsSubsequence(xs, ys[1..])))
  }

  /** No more than MAX_PER_HOUR offers are announced, counting those already announced. */
  lemma {:induction false} RunCap(offers: seq<Offer>, sent: map<string, int>, now: int, count: nat)
    requires count <= MaxPerHour
    ensures count + |Run(offers, sent, now, count).announced| <= MaxPerHour
    decreases |offers|
  {
    if offers != [] && count < MaxPerHour {
      if Decide(offers[0], sent) == Announce {
        RunCap(offers[1..], sent[offers[0].asin := now], now, count + 1);
      } else {
        RunCap(offers[1..], sent, now, count);
      }
    }
  }

  /** The announced offers appear in the batch, in batch order. */
  lemma {:induction false} RunSubsequence(offers: seq<Offer>, sent: map<string, int>, now: int, count: nat)
    ensures IsSubsequence(Run(offers, sent, now, count).announced, offers)
    decreases |offers|
  {
    if offers != [] && count < MaxPerHour {
      if Decide(offers[0], sent) == Announce {
        RunSubsequence(offers[1..], sent[offers[0].asin := now], now, count + 1);
      } else {
        RunSubsequence(offers[1..], sent, now, count);
      }
    }
  }

  /**
   * Every announced offer qualifies and was not in the ledger when the cycle
   * started, and no ASIN is announced twice in one cycle.
   */
  lemma {:induction false} RunAnnouncesFreshQualifying(offers: seq<Offer>, sent: map<string, int>, now: int, count: nat)
    ensures forall o :: o in Run(offers, sent, now, count).announced ==> Qualifies(o) && o.asin !in sent
    ensures DistinctAsins(Run(offers, sent, now, count).announced)
    decreases |offers|
  {
    if offers != [] && count < MaxPerHour {
      var o := offers[0];
      if Decide(o, sent) == Announce {
        DecideAnnouncesExactly(o, sent);
        var sent' := sent[o.asin := now];
        RunAnnouncesFreshQualifying(offers[1..], sent', now, count + 1);
        var rest := Run(offers[1..], sent', now, count + 1).announced;
        var a := [o] + rest;
        assert a == Run(offers, sent, now, count).announced;
        forall i, j | 0 <= i < j < |a| ensures a[i].asin != a[j].asin {
          assert a[j] == rest[j - 1];
          if i == 0 {
            assert a[j] in rest;
            assert a[j].asin !in sent';
          } else {
            assert a[i] == rest[i - 1];
          }
        }
      } else {
        RunAnnouncesFreshQualifying(offers[1..], sent, now, count);
      }
    }
  }

  /**
   * The ledger only gains entries: the keys afterwards are the old keys plus
   * the announced ASINs, old entries keep their timestamps, and every
   * announced ASIN is stamped `now`.
   */
  lemma {:induction false} RunLedger(offers: seq<Offer>, sent: map<string, int>, now: int, count: nat)
    ensures var r := Run(offers, sent, now, count);
            r.ledger.Keys == sent.Keys + AsinSet(r.announced)
    ensures var r := Run(offers, sent, now, count);
            forall asin :: asin in sent ==> asin in r.ledger && r.ledger[asin] == sent[asin]
    ensures var r := Run(offers, sent, now, count);
            forall o :: o in r.announced ==> o.asin in r.ledger && r.ledger[o.asin] == now
    decreases |offers|
  {
    if offers != [] && count < MaxPerHour {
      var o := offers[0];
      if Decide(o, sent) == Announce {
        var sent' := sent[o.asin := now];
        RunLedger(offers[1..], sent', now, count + 1);
        var rest := Run(offers[1..], sent', now, count + 1);
        assert AsinSet([o] + rest.announced) == {o.asin} + AsinSet(rest.announced);
      } else {
        RunLedger(offers[1..], sent, now, count);
      }
    }
  }

  /** A batch may be split anywhere: the second part continues from the state the first leaves. */
  lemma {:induction false} RunAppend(xs: seq<Offer>, ys: seq<Offer>, sent: map<string, int>, now: int, count: nat)
    ensures var first := Run(xs, sent, now, count);
            var second := Run(ys, first.ledger, now, count + |first.announced|);
            Run(xs + ys, sent, now, count) == CycleOutcome(first.announced + second.announced, second.ledger)
    decreases |xs|
  {
    if xs == [] {
      assert xs + ys == ys;
    } else if count < MaxPerHour {
      var o := xs[0];
      assert (xs + ys)[0] == o && (xs + ys)[1..] == xs[1..] + ys;
      if Decide(o, sent) == Announce {
        var sent' := sent[o.asin := now];
        RunAppend(xs[1..], ys, sent', now, count + 1);
        var first' := Run(xs[1..], sent', now, count + 1);
        var second := Run(ys, first'.ledger, now, count + 1 + |first'.announced|);
        assert [o] + (first'.announced + second.announced) == ([o] + first'.announced) + second.announced;
      } else {
        RunAppend(xs[1..], ys, sent, now, count);
      }
    }
  }

  /**
   * Completeness: an offer reached before the cap, whose ASIN is neither in
   * the ledger nor announced earlier in the cycle, and which qualifies, is
   * announced right after the announcements that precede it.
   */
  lemma RunAnnouncesReachedOffer(offers: seq<Offer>, sent: map<string, int>, now: int, count: nat, i: nat)
    requires i < |offers|
    requires var before := Run(offers[..i], sent, now, count);
             && count + |before.announced| < MaxPerHour
             && offers[i].asin !in sent
             && offers[i].asin !in AsinSet(before.announced)
             && Qualifies(offers[i])
    ensures var before := Run(offers[..i], sent, now, count);
            var r := Run(offers, sent, now, count);
            && |before.announced| < |r.announced|
            && r.announced[..|before.announced|] == before.announced
            && r.announced[|before.announced|] == offers[i]
  {
    var before := Run(offers[..i], sent, now, count);
    assert offers == offers[..i] + offers[i..];
    RunAppend(offers[..i], offers[i..], sent, now, count);
    RunLedger(offers[..i], sent, now, count);
    DecideAnnouncesExactly(offers[i], before.ledger);
    assert offers[i..][0] == offers[i];
  }

  /**
   * Once MAX_PER_HOUR announcements are made, no later offer is examined: the
   * outcome is that of the prefix, and every later offer that was neither in
   * the ledger nor announced stays out of it, eligible next cycle.
   */
  lemma RunStopsAtCap(offers: seq<Offer>, sent: map<string, int>, now: int, count: nat, i: nat)
    requires i <= |offers|
    requires count + |Run(offers[..i], sent, now, count).announced| >= MaxPerHour
    ensures Run(offers, sent, now, count) == Run(offers[..i], sent, now, count)
    ensures var before := Run(offers[..i], sent, now, count);
            forall o :: o in offers[i..] && o.asin !in sent && o.asin !in AsinSet(before.announced) ==>
              o.asin !in Run(offers, sent, now, count).ledger
  {
    assert offers == offers[..i] + offers[i..];
    RunAppend(offers[..i], offers[i..], sent, now, count);
    RunLedger(offers[..i], sent, now, count);
  }

  /**
   * An offer that fails the price checks, or whose ASIN is in the ledger when
   * the loop reaches it (sent in an earlier cycle or announced earlier in this
   * one), is skipped without effect: the cycle's outcome is as if it were not
   * in the batch, so neither the ledger nor the count changes.
   */
  lemma RunIgnoresSkipped(xs: seq<Offer>, o: Offer, ys: seq<Offer>, sent: map<string, int>, now: int, count: nat)
    requires !Qualifies(o) || o.asin in Run(xs, sent, now, count).ledger
    ensures Run(xs + [o] + ys, sent, now, count) == Run(xs + ys, sent, now, count)
  {
    var first := Run(xs, sent, now, count);
    assert xs + [o] + ys == xs + ([o] + ys);
    RunAppend(xs, [o] + ys, sent, now, count);
    RunAppend(xs, ys, sent, now, count);
    DecideAnnouncesExactly(o, first.ledger);
    assert ([o] + ys)[1..] == ys;
  }

  /**
   * A batch of distinct, fresh, qualifying offers: the first MAX_PER_HOUR (less
   * those already announced) are announced.
   */
  lemma {:induction false} RunTakesFirstQualifying(offers: seq<Offer>, sent: map<string, int>, now: int, count: nat)
    requires count <= MaxPerHour
    requires forall o :: o in offers ==> Qualifies(o) && o.asin !in sent
    requires DistinctAsins(offers)
    ensures var n := if |offers| < MaxPerHour - count then |offers| else MaxPerHour - count;
            Run(offers, sent, now, count).announced == offers[..n]
    decreases |offers|
  {
    if offers != [] && count < MaxPerHour {
      var o := offers[0];
      DecideAnnouncesExactly(o, sent);
      var sent' := sent[o.asin := now];
      var rest := offers[1..];
      forall p | p in rest ensures Qualifies(p) && p.asin !in sent' {
        var k :| 0 <= k < |rest| && rest[k] == p;
        assert offers[k + 1] == p;
      }
      assert DistinctAsins(rest) by {
        forall i, j | 0 <= i < j < |rest| ensures rest[i].asin != rest[j].asin {
          assert rest[i] == offers[i + 1] && rest[j] == offers[j + 1];
        }
      }
      RunTakesFirstQualifying(rest, sent', now, count + 1);
      var n' := if |rest| < MaxPerHour - count - 1 then |rest| else MaxPerHour - count - 1;
      assert [o] + rest[..n'] == offers[..n' + 1];
    }
  }

  /**
   * In such a batch, the offers beyond the cap stay out of the ledger, so
   * they remain eligible in the next cycle.
   */
  lemma RunDefersBeyondCap(offers: seq<Offer>, sent: map<string, int>, now: int, count: nat)
    requires count <= MaxPerHour
    requires forall o :: o in offers ==> Qualifies(o) && o.asin !in sent
    requires DistinctAsins(offers)
    ensures forall k :: MaxPerHour - count <= k < |offers| ==> offers[k].asin !in Run(offers, sent, now, count).ledger
  {
    var r := Run(offers, sent, now, count);
    var n := if |offers| < MaxPerHour - count then |offers| else MaxPerHour - count;
    RunTakesFirstQualifying(offers, sent, now, count);
    RunLedger(offers, sent, now, count);
    forall k | MaxPerHour - count <= k < |offers| ensures offers[k].asin !in r.ledger {
      assert offers[k] in offers;
      forall p | p in r.announced ensures p.asin != offers[k].asin {
        var j :| 0 <= j < |r.announced| && r.announced[j] == p;
        assert j < n && p == offers[j];
      }
    }
  }

  /**
   * A two-offer batch against an empty ledger: 900 against a 1000 baseline is
   * exactly a 10% discount and is announced; 950 against 1000 is 5% and is not.
   */
  lemma BoundaryScenario(now: int)
    ensures var a1 := Offer("A1", Some(900), Some(1000));
            var a2 := Offer("A2", Some(950), Some(1000));
            Run([a1, a2], map[], now, 0) == CycleOutcome([a1], map["A1" := now])
  {
    var a1 := Offer("A1", Some(900), Some(1000));
    var a2 := Offer("A2", Some(950), Some(1000));
    var m1 := map["A1" := now];
    assert Decide(a1, map[]) == Announce;
    assert "A2" != "A1";
    assert Decide(a2, m1) == Skip(BelowThreshold);
    assert [a1, a2][1..] == [a2];
    assert [a2][1..] == [];
    assert Run([], m1, now, 1) == CycleOutcome([], m1);
    assert Run([a2], m1, now, 1) == CycleOutcome([], m1);
    assert Run([a1, a2], map[], now, 0) == CycleOutcome([a1] + [], m1);
  }
}

/** Which objects a lifecycle pass spares and which it removes, by the fields of objects and rules (src/lifecycle.rs). */
module LifecycleRules {
  import opened Wrappers
  import opened Keys
  import opened Lifecycle

  /** A legal hold that reads "on" in any case, or a retention date still to come. */
  predicate Protected(e: Entry, now: int) {
    (e.hold.Some? && e.hold.value in {"ON", "On", "oN", "on"}) || (e.until.Some? && e.until.value > now)
  }

  /**
   * The age at which an object is due under a rule of `days`: that many days; and, as the
   * code counts whole days toward zero and casts the number to a signed one, less than a
   * day before its time for 0, and for 2^63 days and more at a time long before it was stored.
   */
  predicate OldEnough(days: nat, age: int) {
    if 1 <= days < TWO_63 then age >= days * DAY else age > (AsSigned(days) - 1) * DAY
  }

  /** Due by days if the rule has them, else by a date that parses. */
  predicate Due(exp: Expiration, modified: int, now: int) {
    match exp.days
    case Some(days) => OldEnough(days, now - modified)
    case None => match exp.date
      case Some(Some(date)) => date <= now
      case _ => false
  }

  lemma WholeDaysNegative(span: int, days: int)
    requires days <= 0
    ensures WholeDays(span) >= days <==> span > (days - 1) * DAY
  {
    if span >= 0 {
      assert (days - 1) * DAY <= -DAY;
    } else {
      var q := (-span) / DAY;
      assert -span == q * DAY + (-span) % DAY;
      if q <= -days { assert q * DAY <= -days * DAY; } else { assert q * DAY >= (-days + 1) * DAY; }
    }
  }

  /** Exactly when the code takes an object for expired, by days or by date. */
  lemma ExpiresIff(exp: Expiration, modified: int, now: int)
    requires exp.days.Some? ==> exp.days.value < TWO_64
    ensures ShouldExpire(exp, modified, now) <==> Due(exp, modified, now)
  {
    hide WholeDays;
    match exp.days {
      case Some(days) =>
        if 1 <= days < TWO_63 { WholeDaysAtLeast(now - modified, days); } else { WholeDaysNegative(now - modified, AsSigned(days)); }
      case None =>
    }
  }

  /** What a pass dooms, by the fields. */
  lemma DoomedIff(p: Pass, e: Entry)
    requires p.exp.days.Some? ==> p.exp.days.value < TWO_64
    ensures Doomed(p, e) <==> p.prefix <= e.key && Due(p.exp, e.modified, p.now) && !Protected(e, p.now) && e.key !in p.stuck
  {
    hide ShouldExpire, Due;
    ExpiresIff(p.exp, e.modified, p.now);
    if e.hold.Some? { OnIff(e.hold.value); }
  }

  lemma OnIff(status: string)
    ensures IsOn(status) <==> status in {"ON", "On", "oN", "on"}
  {
    if IsOn(status) {
      assert status == [status[0], status[1]];
    }
  }

  /** Another entry of the bucket, deleted by the pass, has the entry below it. */
  ghost predicate GoesWithParent(tree: bool, p: Pass, entries: seq<Entry>, e: Entry) {
    exists d :: d in entries && tree && d.key + [SLASH] <= e.key && p.prefix <= d.key
                && Due(p.exp, d.modified, p.now) && !Protected(d, p.now) && d.key !in p.stuck
  }

  /**
   * What a pass leaves, entry by entry: one under legal hold or retention stays, and so
   * does one that is not due or not under the prefix, unless it goes with a deleted key
   * above it; one that is due, unprotected, and can be deleted is gone.
   */
  lemma StaysIff(tree: bool, p: Pass, entries: seq<Entry>, e: Entry)
    requires Ordered(entries) && e in entries && (p.exp.days.Some? ==> p.exp.days.value < TWO_64)
    ensures e in LeftBy(tree, p, entries) <==>
              && (Protected(e, p.now) || !(p.prefix <= e.key) || !Due(p.exp, e.modified, p.now) || e.key in p.stuck)
              && !GoesWithParent(tree, p, entries, e)
  {
    hide Doomed, Due, Protected, Ordered, LeftBy;
    LeftExact(tree, p, entries);
    DoomedIff(p, e);
    OneEntryPerKey(entries, e);
    forall d | d in entries ensures Doomed(p, d) <==> p.prefix <= d.key && Due(p.exp, d.modified, p.now) && !Protected(d, p.now) && d.key !in p.stuck {
      DoomedIff(p, d);
    }
    if d :| d in entries && Doomed(p, d) && Covers(tree, d.key, e.key) {
      assert d.key == e.key ==> d == e;
    }
    if d :| d in entries && tree && d.key + [SLASH] <= e.key && Doomed(p, d) {
      assert Covers(tree, d.key, e.key);
    }
    assert Covers(tree, e.key, e.key);
  }

  /** The pass itself: what becomes of one entry, and nothing appears. */
  method ExpireThenLook(bucket: Bucket, p: Pass, e: Entry) returns (there: bool)
    requires Ordered(bucket.entries) && e in bucket.entries && (p.exp.days.Some? ==> p.exp.days.value < TWO_64)
    modifies bucket
    ensures there <==> && (Protected(e, p.now) || !(p.prefix <= e.key) || !Due(p.exp, e.modified, p.now) || e.key in p.stuck)
                       && !GoesWithParent(bucket.tree, p, old(bucket.entries), e)
    ensures forall x :: x in bucket.entries ==> x in old(bucket.entries)
  {
    hide Due, Protected, Ordered, LeftBy, GoesWithParent;
    StaysIff(bucket.tree, p, bucket.entries, e);
    LeftExact(bucket.tree, p, bucket.entries);
    bucket.ExpireObjects(p);
    there := e in bucket.entries;
  }

  /** A rule applies to an object: it is enabled, has an expiration, and the object is due, unprotected and can be deleted. */
  predicate RemovedBy(rule: Rule, now: int, stuck: set<Key>, e: Entry) {
    && rule.enabled && rule.expiration.Some? && rule.prefix <= e.key
    && Due(rule.expiration.value, e.modified, now) && !Protected(e, now) && e.key !in stuck
  }

  ghost predicate RemovedByAny(rules: seq<Rule>, now: int, stuck: set<Key>, e: Entry) {
    exists i :: 0 <= i < |rules| && RemovedBy(rules[i], now, stuck, e)
  }

  predicate DaysFit(rule: Rule) {
    rule.expiration.Some? && rule.expiration.value.days.Some? ==> rule.expiration.value.days.value < TWO_64
  }

  lemma RuledIff(rules: seq<Rule>, now: int, stuck: set<Key>, e: Entry)
    requires forall i :: 0 <= i < |rules| ==> DaysFit(rules[i])
    ensures DoomedByAny(rules, now, stuck, e) <==> RemovedByAny(rules, now, stuck, e)
  {
    hide Doomed, Due, Protected;
    forall i | 0 <= i < |rules| ensures DoomedBy(rules[i], now, stuck, e) <==> RemovedBy(rules[i], now, stuck, e) {
      if rules[i].expiration.Some? { DoomedIff(Pass(rules[i].prefix, rules[i].expiration.value, now, stuck), e); }
    }
  }

  /** The rules of a bucket in turn: what becomes of one entry. Rules that are disabled or have no expiration remove nothing. */
  method ExpireBucketThenLook(bucket: Bucket, rules: seq<Rule>, now: int, stuck: set<Key>, e: Entry) returns (there: bool)
    requires Ordered(bucket.entries) && e in bucket.entries && forall i :: 0 <= i < |rules| ==> DaysFit(rules[i])
    modifies bucket
    ensures there <==> !exists d :: d in old(bucket.entries) && RemovedByAny(rules, now, stuck, d)
                                    && (d == e || (bucket.tree && d.key + [SLASH] <= e.key))
  {
    hide DoomedByAny, RemovedByAny, Ordered;
    ghost var all := bucket.entries;
    OneEntryPerKey(all, e);
    forall d ensures DoomedByAny(rules, now, stuck, d) <==> RemovedByAny(rules, now, stuck, d) {
      RuledIff(rules, now, stuck, d);
    }
    bucket.ExpireBucket(rules, now, stuck);
    there := e in bucket.entries;
    if d :| d in all && RemovedByAny(rules, now, stuck, d) && (d == e || (bucket.tree && d.key + [SLASH] <= e.key)) {
      assert Covers(bucket.tree, d.key, e.key);
    }
  }
}

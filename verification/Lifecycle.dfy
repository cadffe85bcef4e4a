/** The lifecycle pass: expire objects while paging through a bucket that shrinks (src/lifecycle.rs). */
module Lifecycle {
  import opened Wrappers
  import opened Keys
  import opened Octets
  import opened Listing

  /** Nanoseconds in a day. Times are nanoseconds. */
  const DAY: int := 86_400_000_000_000
  const PAGE_SIZE: nat := 1000
  const SLASH: Octet := 47
  const TWO_63: nat := 0x8000_0000_0000_0000
  const TWO_64: nat := 0x1_0000_0000_0000_0000

  /** An expiration action: days (64 bits), or a date, which may not parse. */
  datatype Expiration = Expiration(days: Option<nat>, date: Option<Option<int>>)

  /** An object's age is counted from `modified`; `until` is its retention date, if one is set and parses. */
  datatype Entry = Entry(key: Key, modified: int, hold: Option<string>, until: Option<int>)

  datatype Rule = Rule(enabled: bool, prefix: Key, expiration: Option<Expiration>)

  /** Whole days of a time span, toward zero. */
  function WholeDays(span: int): int {
    if span >= 0 then span / DAY else -((-span) / DAY)
  }

  /** The cast of an unsigned 64-bit number to a signed one. */
  function AsSigned(n: nat): int {
    if n < TWO_63 then n else n - TWO_64
  }

  predicate ShouldExpire(exp: Expiration, modified: int, now: int) {
    if exp.days.Some? then WholeDays(now - modified) >= AsSigned(exp.days.value)
    else exp.date.Some? && exp.date.value.Some? && now >= exp.date.value.value
  }

  predicate IsOn(status: string) {
    |status| == 2 && (status[0] == 'O' || status[0] == 'o') && (status[1] == 'N' || status[1] == 'n')
  }

  predicate Locked(e: Entry, now: int) {
    (e.hold.Some? && IsOn(e.hold.value)) || (e.until.Some? && e.until.value > now)
  }

  /**
   * The documented rule, "age at least `days`", is what the code decides for every age
   * if and only if `days` is at least 1 and fits a signed 64-bit number.
   */
  lemma DaysAsDocumentedIff(days: nat)
    requires days < TWO_64
    ensures (forall modified, now :: ShouldExpire(Expiration(Some(days), None), modified, now) <==> now - modified >= days * DAY)
            <==> 1 <= days < TWO_63
  {
    var exp := Expiration(Some(days), None);
    if 1 <= days < TWO_63 {
      forall modified, now ensures ShouldExpire(exp, modified, now) <==> now - modified >= days * DAY {
        WholeDaysAtLeast(now - modified, days);
      }
    } else if days == 0 {
      // An object stamped just after `now` counts as zero days old.
      assert WholeDays(-1) == 0;
      assert ShouldExpire(exp, 1, 0) && !(0 - 1 >= days * DAY);
    } else {
      // The cast makes the threshold negative: a new object expires at once.
      assert WholeDays(0) == 0;
      assert ShouldExpire(exp, 0, 0) && !(0 - 0 >= days * DAY);
    }
  }

  lemma WholeDaysAtLeast(span: int, days: nat)
    requires days >= 1
    ensures WholeDays(span) >= days <==> span >= days * DAY
  {
    if span >= 0 {
      var q := span / DAY;
      assert span == q * DAY + span % DAY;
      if q >= days { assert q * DAY >= days * DAY; } else { assert (q + 1) * DAY <= days * DAY; }
    }
  }

  // ---------------------------------------------------------------------------
  // What a pass removes
  // ---------------------------------------------------------------------------

  /** One pass: a rule's prefix and action, the time, and the keys whose deletion fails. */
  datatype Pass = Pass(prefix: Key, exp: Expiration, now: int, stuck: set<Key>)

  predicate Doomed(p: Pass, e: Entry) {
    p.prefix <= e.key && ShouldExpire(p.exp, e.modified, p.now) && !Locked(e, p.now) && e.key !in p.stuck
  }

  function KeysOf(entries: seq<Entry>): (r: seq<Key>)
    ensures |r| == |entries| && forall i :: 0 <= i < |r| ==> r[i] == entries[i].key
  {
    seq(|entries|, i requires 0 <= i < |entries| => entries[i].key)
  }

  predicate Ordered(entries: seq<Entry>) {
    Sorted(KeysOf(entries))
  }

  /**
   * Deleting `d` takes `k` along. In a `tree`, an unversioned bucket of the erasure
   * store, a deletion removes the key's directory, and the keys below it are in there.
   */
  predicate Covers(tree: bool, d: Key, k: Key) {
    d == k || (tree && d + [SLASH] <= k)
  }

  lemma CoversTransitive(tree: bool, a: Key, b: Key, c: Key)
    requires Covers(tree, a, b) && Covers(tree, b, c)
    ensures Covers(tree, a, c)
  {
    if a != b && b != c {
      assert b <= c && c[..|a| + 1] == b[..|a| + 1];
    }
  }

  predicate Covered(tree: bool, gone: set<Key>, k: Key) {
    exists d :: d in gone && Covers(tree, d, k)
  }

  /** The entries left when the keys in `gone` are deleted. */
  function Without(tree: bool, gone: set<Key>, entries: seq<Entry>): seq<Entry> {
    if |entries| == 0 then []
    else (if Covered(tree, gone, entries[0].key) then [] else [entries[0]]) + Without(tree, gone, entries[1..])
  }

  function DoomedKeys(p: Pass, entries: seq<Entry>): set<Key> {
    set e | e in entries && Doomed(p, e) :: e.key
  }

  /** What a pass leaves: the entries that no doomed key covers. */
  function LeftBy(tree: bool, p: Pass, entries: seq<Entry>): seq<Entry> {
    Without(tree, DoomedKeys(p, entries), entries)
  }

  /** What it is meant to leave: the entries that are not doomed. */
  function Cleared(p: Pass, entries: seq<Entry>): seq<Entry> {
    if |entries| == 0 then []
    else (if Doomed(p, entries[0]) then [] else [entries[0]]) + Cleared(p, entries[1..])
  }

  lemma OrderedTail(entries: seq<Entry>)
    requires Ordered(entries) && |entries| > 0
    ensures Ordered(entries[1..])
    ensures forall i :: 0 <= i < |entries[1..]| ==> Less(entries[0].key, entries[1..][i].key) && entries[1..][i].key != entries[0].key
  {
    hide Less;
    var ks, tail := KeysOf(entries), KeysOf(entries[1..]);
    assert forall i :: 0 <= i < |tail| ==> tail[i] == ks[i + 1];
    LessIsStrict(entries[0].key, entries[0].key);
  }

  /** The first entry in front of some of those behind it. */
  lemma OrderedCons(entries: seq<Entry>, rest: seq<Entry>)
    requires Ordered(entries) && |entries| > 0 && Ordered(rest)
    requires forall e :: e in rest ==> e in entries[1..]
    ensures Ordered([entries[0]] + rest)
  {
    hide Less;
    OrderedTail(entries);
    var ks := KeysOf([entries[0]] + rest);
    assert forall i :: 1 <= i < |ks| ==> ks[i] == KeysOf(rest)[i - 1];
    forall i | 0 <= i < |rest| ensures Less(entries[0].key, rest[i].key) {
      assert rest[i] in entries[1..];
    }
  }

  lemma InCons<T>(s: seq<T>, rest: seq<T>)
    requires |s| > 0
    ensures [] + rest == rest
    ensures forall x :: x in s <==> x == s[0] || x in s[1..]
    ensures forall x :: x in [s[0]] + rest <==> x == s[0] || x in rest
  {
    assert s == [s[0]] + s[1..];
  }

  lemma {:induction false} WithoutLaws(tree: bool, gone: set<Key>, entries: seq<Entry>)
    requires Ordered(entries)
    ensures Ordered(Without(tree, gone, entries))
    ensures forall e :: e in Without(tree, gone, entries) <==> e in entries && !Covered(tree, gone, e.key)
  {
    hide Ordered, Covered;
    if |entries| > 0 {
      OrderedTail(entries);
      WithoutLaws(tree, gone, entries[1..]);
      var rest := Without(tree, gone, entries[1..]);
      InCons(entries, rest);
      OrderedCons(entries, rest);
    }
  }

  lemma {:induction false} WithoutNothing(tree: bool, entries: seq<Entry>)
    ensures Without(tree, {}, entries) == entries
  {
    if |entries| > 0 {
      WithoutNothing(tree, entries[1..]);
    }
  }

  /** Deleting some keys and then others is deleting them all. */
  lemma {:induction false} WithoutTwice(tree: bool, a: set<Key>, b: set<Key>, entries: seq<Entry>)
    ensures Without(tree, b, Without(tree, a, entries)) == Without(tree, a + b, entries)
  {
    hide Covers;
    if |entries| > 0 {
      var e, rest := entries[0], Without(tree, a, entries[1..]);
      WithoutTwice(tree, a, b, entries[1..]);
      assert Covered(tree, a + b, e.key) <==> Covered(tree, a, e.key) || Covered(tree, b, e.key);
      assert ([e] + rest)[1..] == rest && [] + rest == rest;
    }
  }

  /** Two sets of deletions that cover each other leave the same. */
  lemma SameCover(tree: bool, a: set<Key>, b: set<Key>, entries: seq<Entry>)
    requires forall k :: k in a ==> Covered(tree, b, k)
    requires forall k :: k in b ==> Covered(tree, a, k)
    ensures Without(tree, a, entries) == Without(tree, b, entries)
  {
    hide Covered;
    forall k ensures Covered(tree, a, k) <==> Covered(tree, b, k) {
      CoverGrows(tree, a, b, k);
      CoverGrows(tree, b, a, k);
    }
    SameWithout(tree, a, b, entries);
  }

  lemma CoverGrows(tree: bool, a: set<Key>, b: set<Key>, k: Key)
    requires forall d :: d in a ==> Covered(tree, b, d)
    ensures Covered(tree, a, k) ==> Covered(tree, b, k)
  {
    hide Covers;
    if Covered(tree, a, k) {
      var d :| d in a && Covers(tree, d, k);
      var c :| c in b && Covers(tree, c, d);
      CoversTransitive(tree, c, d, k);
    }
  }

  lemma {:induction false} SameWithout(tree: bool, a: set<Key>, b: set<Key>, entries: seq<Entry>)
    requires forall k :: Covered(tree, a, k) <==> Covered(tree, b, k)
    ensures Without(tree, a, entries) == Without(tree, b, entries)
  {
    hide Covered;
    if |entries| > 0 {
      SameWithout(tree, a, b, entries[1..]);
    }
  }

  lemma CoversItself(tree: bool, gone: set<Key>)
    ensures forall k :: k in gone ==> Covered(tree, gone, k)
  {
    forall k | k in gone ensures Covered(tree, gone, k) {
      assert Covers(tree, k, k);
    }
  }

  /** What a pass leaves: in order, exactly the entries that no doomed entry covers. */
  lemma LeftExact(tree: bool, p: Pass, entries: seq<Entry>)
    requires Ordered(entries)
    ensures Ordered(LeftBy(tree, p, entries))
    ensures forall e :: e in LeftBy(tree, p, entries) <==>
                          e in entries && !exists d :: d in entries && Doomed(p, d) && Covers(tree, d.key, e.key)
  {
    hide Doomed, Ordered, Covers;
    WithoutLaws(tree, DoomedKeys(p, entries), entries);
    forall e: Entry ensures Covered(tree, DoomedKeys(p, entries), e.key) <==> exists d :: d in entries && Doomed(p, d) && Covers(tree, d.key, e.key) {
      CoveredByDoomed(tree, p, entries, e.key);
    }
  }

  lemma CoveredByDoomed(tree: bool, p: Pass, entries: seq<Entry>, k: Key)
    ensures Covered(tree, DoomedKeys(p, entries), k) <==> exists d :: d in entries && Doomed(p, d) && Covers(tree, d.key, k)
  {
    hide Doomed, Covers;
    if d :| d in entries && Doomed(p, d) && Covers(tree, d.key, k) {
      assert d.key in DoomedKeys(p, entries);
    }
  }

  /** What it is meant to leave: in order, exactly the entries that are not doomed. */
  lemma {:induction false} ClearedExact(p: Pass, entries: seq<Entry>)
    requires Ordered(entries)
    ensures Ordered(Cleared(p, entries))
    ensures forall e :: e in Cleared(p, entries) <==> e in entries && !Doomed(p, e)
  {
    hide Ordered, Doomed;
    if |entries| > 0 {
      OrderedTail(entries);
      ClearedExact(p, entries[1..]);
      var rest := Cleared(p, entries[1..]);
      InCons(entries, rest);
      OrderedCons(entries, rest);
    }
  }

  /** No entry that is to stay lies below a doomed one. */
  ghost predicate NothingBelow(tree: bool, p: Pass, entries: seq<Entry>) {
    tree ==> forall d, e :: d in entries && e in entries && Doomed(p, d) && d.key + [SLASH] <= e.key ==> Doomed(p, e)
  }

  /**
   * A pass removes just the doomed entries if and only if the bucket is no tree, or none
   * of the others lies below one of them. Locks do not matter for this: an entry under
   * legal hold goes with the key above it.
   */
  lemma LeftIsClearedIff(tree: bool, p: Pass, entries: seq<Entry>)
    requires Ordered(entries)
    ensures LeftBy(tree, p, entries) == Cleared(p, entries) <==> NothingBelow(tree, p, entries)
  {
    hide Doomed, Ordered, Without, Cleared;
    LeftExact(tree, p, entries);
    ClearedExact(p, entries);
    if NothingBelow(tree, p, entries) {
      forall e | e in entries ensures Covered(tree, DoomedKeys(p, entries), e.key) <==> Doomed(p, e) {
        CoveredByDoomed(tree, p, entries, e.key);
        OneEntryPerKey(entries, e);
        assert Covers(tree, e.key, e.key);
      }
      SameFilter(tree, p, DoomedKeys(p, entries), entries);
    } else {
      var d, e :| d in entries && e in entries && Doomed(p, d) && d.key + [SLASH] <= e.key && !Doomed(p, e);
      assert Covers(tree, d.key, e.key);
      assert e in Cleared(p, entries) && e !in LeftBy(tree, p, entries);
    }
  }

  lemma {:induction false} SameFilter(tree: bool, p: Pass, gone: set<Key>, entries: seq<Entry>)
    requires forall e :: e in entries ==> (Covered(tree, gone, e.key) <==> Doomed(p, e))
    ensures Without(tree, gone, entries) == Cleared(p, entries)
  {
    hide Doomed, Covered;
    if |entries| > 0 {
      assert forall e :: e in entries[1..] ==> e in entries;
      SameFilter(tree, p, gone, entries[1..]);
    }
  }

  lemma OneEntryPerKey(entries: seq<Entry>, e: Entry)
    requires Ordered(entries) && e in entries
    ensures forall x :: x in entries && x.key == e.key ==> x == e
  {
    hide Less;
    var keys := KeysOf(entries);
    var j :| 0 <= j < |entries| && entries[j] == e;
    LessIsStrict(e.key, e.key);
    forall x | x in entries && x.key == e.key ensures x == e {
      var i :| 0 <= i < |entries| && entries[i] == x;
      assert keys[i] == keys[j];
    }
  }

  /** By example: "a", five days old, and "a/b", new and under legal hold; objects expire after two days. */
  const OLD_ABOVE := Entry([97], 0, None, None)
  const HELD_BELOW := Entry([97, SLASH, 98], 5 * DAY, Some("ON"), None)
  const TWO_DAYS := Pass([], Expiration(Some(2), None), 5 * DAY, {})

  lemma ExampleOrdered()
    ensures Ordered([OLD_ABOVE, HELD_BELOW])
  {
    var a, b := OLD_ABOVE.key, HELD_BELOW.key;
    assert a[1..] == [] && b[1..] == [SLASH, 98];
    assert Less(a, b);
    assert KeysOf([OLD_ABOVE, HELD_BELOW]) == [a, b];
  }

  lemma ExampleCleared()
    ensures Locked(HELD_BELOW, TWO_DAYS.now) && !Doomed(TWO_DAYS, HELD_BELOW) && Doomed(TWO_DAYS, OLD_ABOVE)
    ensures Cleared(TWO_DAYS, [OLD_ABOVE, HELD_BELOW]) == [HELD_BELOW]
  {
    assert WholeDays(5 * DAY) == 5 && AsSigned(2) == 2;
    assert IsOn("ON");
    hide WholeDays, IsOn, AsSigned;
    var both := [OLD_ABOVE, HELD_BELOW];
    assert both[1..] == [HELD_BELOW] && [HELD_BELOW][1..] == [];
    assert Cleared(TWO_DAYS, [HELD_BELOW]) == [HELD_BELOW];
  }

  /** In a tree the pass removes both, the held one too; elsewhere "a/b" stays. */
  lemma HeldGoesWithParent()
    ensures Ordered([OLD_ABOVE, HELD_BELOW]) && Locked(HELD_BELOW, TWO_DAYS.now) && !Doomed(TWO_DAYS, HELD_BELOW)
    ensures LeftBy(true, TWO_DAYS, [OLD_ABOVE, HELD_BELOW]) == []
    ensures LeftBy(false, TWO_DAYS, [OLD_ABOVE, HELD_BELOW]) == Cleared(TWO_DAYS, [OLD_ABOVE, HELD_BELOW]) == [HELD_BELOW]
  {
    var both := [OLD_ABOVE, HELD_BELOW];
    ExampleOrdered();
    ExampleCleared();
    hide Doomed, Ordered, Without, Cleared;
    assert Covers(true, OLD_ABOVE.key, HELD_BELOW.key) by { assert HELD_BELOW.key[..2] == OLD_ABOVE.key + [SLASH]; }
    LeftExact(true, TWO_DAYS, both);
    var left := LeftBy(true, TWO_DAYS, both);
    assert Covers(true, OLD_ABOVE.key, OLD_ABOVE.key);
    SomeIn(left);
    LeftIsClearedIff(false, TWO_DAYS, both);
  }

  // ---------------------------------------------------------------------------
  // Paging while deleting
  // ---------------------------------------------------------------------------

  function PlainQuery(prefix: Key): Query {
    Query(prefix, [], None, PAGE_SIZE)
  }

  /** Without a delimiter every visible key is an item of its own. */
  lemma {:induction false} PlainGroups(q: Query, keys: seq<Key>, seen: set<Item>)
    requires |q.delimiter| == 0 && forall i :: 0 <= i < |keys| ==> q.prefix <= keys[i]
    ensures |Rolled(q, keys, seen)| == |keys|
    ensures forall i :: 0 <= i < |keys| ==> Rolled(q, keys, seen)[i] == Group(Object(keys[i]), keys[i])
  {
    if |keys| > 0 {
      PlainGroups(q, keys[1..], seen + {Object(keys[0])});
    }
  }

  lemma {:induction false} PlainObjects(groups: seq<Group>, keys: seq<Key>)
    requires |groups| == |keys| && forall i :: 0 <= i < |keys| ==> groups[i] == Group(Object(keys[i]), keys[i])
    ensures ObjectsIn(groups) == keys && CommonsIn(groups) == []
  {
    if |keys| > 0 {
      var n := |keys| - 1;
      PlainObjects(groups[..n], keys[..n]);
      assert keys == keys[..n] + [keys[n]];
    }
  }

  /** A page without delimiter: the first thousand visible keys, and the next one as the token. */
  lemma PlainPage(prefix: Key, token: Option<Key>, keys: seq<Key>)
    ensures var vis, page := Visible(PlainQuery(prefix), token, keys), PageOf(PlainQuery(prefix), token, keys);
            if |vis| <= PAGE_SIZE then page.objects == vis && page.next.None?
            else page.objects == vis[..PAGE_SIZE] && page.next == Some(vis[PAGE_SIZE])
  {
    var q := PlainQuery(prefix);
    var vis := Visible(q, token, keys);
    PlainGroups(q, vis, {});
    var groups := Groups(q, token, keys);
    if |vis| <= PAGE_SIZE {
      PlainObjects(groups, vis);
    } else {
      PlainObjects(groups[..PAGE_SIZE], vis[..PAGE_SIZE]);
    }
  }

  /** The listing behind a token shows exactly the keys that are left, in order. */
  lemma VisibleLeft(tree: bool, gone: set<Key>, entries: seq<Entry>, q: Query, token: Option<Key>)
    requires Ordered(entries)
    ensures var was, now := Visible(q, token, KeysOf(entries)), Visible(q, token, KeysOf(Without(tree, gone, entries)));
            && Sorted(was) && Sorted(now)
            && forall k :: k in now <==> k in was && !Covered(tree, gone, k)
  {
    hide Less, Listed, Covered, Visible, Sorted;
    WithoutLaws(tree, gone, entries);
    OrderedKeys(entries);
    OrderedKeys(Without(tree, gone, entries));
    VisibleLaws(q, token, KeysOf(entries));
    VisibleLaws(q, token, KeysOf(Without(tree, gone, entries)));
    forall k ensures k in KeysOf(Without(tree, gone, entries)) <==> k in KeysOf(entries) && !Covered(tree, gone, k) {
      KeyEntry(entries, k);
      KeyEntry(Without(tree, gone, entries), k);
    }
  }

  lemma KeyEntry(entries: seq<Entry>, k: Key)
    ensures k in KeysOf(entries) <==> exists e :: e in entries && e.key == k
  {
    var keys := KeysOf(entries);
    if k in keys {
      var i :| 0 <= i < |keys| && keys[i] == k;
      assert entries[i].key == k;
    }
    if e :| e in entries && e.key == k {
      var i :| 0 <= i < |entries| && entries[i] == e;
      assert keys[i] == k;
    }
  }

  lemma {:induction false} VisibleShrinks(tree: bool, gone: set<Key>, entries: seq<Entry>, q: Query, token: Option<Key>)
    ensures |Visible(q, token, KeysOf(Without(tree, gone, entries)))| <= |Visible(q, token, KeysOf(entries))|
  {
    hide Covered, Listed;
    if |entries| > 0 {
      VisibleShrinks(tree, gone, entries[1..], q, token);
      var e, rest := entries[0], Without(tree, gone, entries[1..]);
      assert entries == [e] + entries[1..];
      VisibleHead(q, token, e, entries[1..]);
      VisibleHead(q, token, e, rest);
    }
  }

  lemma VisibleHead(q: Query, token: Option<Key>, e: Entry, rest: seq<Entry>)
    ensures Visible(q, token, KeysOf([e] + rest)) == (if Listed(q, token, e.key) then [e.key] else []) + Visible(q, token, KeysOf(rest))
    ensures [] + rest == rest && [] + Visible(q, token, KeysOf(rest)) == Visible(q, token, KeysOf(rest))
  {
    assert KeysOf([e] + rest)[1..] == KeysOf(rest);
  }

  /**
   * Deletions leave the listing behind a token as it was if and only if they cover no key
   * in it; outside a tree, deletions before the token never do.
   */
  lemma DeletionsHiddenIff(tree: bool, gone: set<Key>, entries: seq<Entry>, q: Query, token: Option<Key>)
    requires Ordered(entries)
    ensures var was, now := Visible(q, token, KeysOf(entries)), Visible(q, token, KeysOf(Without(tree, gone, entries)));
            && (now == was <==> forall k :: k in was ==> !Covered(tree, gone, k))
            && (!tree && (forall k :: k in gone ==> !Listed(q, token, k)) ==> now == was)
  {
    hide Less, Covered, Visible, Listed;
    var was, now := Visible(q, token, KeysOf(entries)), Visible(q, token, KeysOf(Without(tree, gone, entries)));
    VisibleLeft(tree, gone, entries, q, token);
    if forall k :: k in was ==> !Covered(tree, gone, k) {
      SortedUnique(was, now);
    }
    if !tree && (forall k :: k in gone ==> !Listed(q, token, k)) {
      forall k | k in was ensures !Covered(tree, gone, k) {
        var i :| 0 <= i < |was| && was[i] == k;
        OnlyItself(gone, k);
      }
      SortedUnique(was, now);
    }
  }

  lemma OnlyItself(gone: set<Key>, k: Key)
    ensures Covered(false, gone, k) <==> k in gone
  {
    assert Covers(false, k, k);
  }

  lemma SomeIn<T>(s: seq<T>)
    ensures s == [] || exists x :: x in s
  {
    if s != [] { assert s[0] in s; }
  }

  /** A set of keys has one order. */
  lemma {:induction false} SortedUnique(a: seq<Key>, b: seq<Key>)
    requires Sorted(a) && Sorted(b) && forall k :: k in a <==> k in b
    ensures a == b
  {
    hide Less;
    SomeIn(a);
    SomeIn(b);
    if |a| > 0 && |b| > 0 {
      assert a[0] in b && b[0] in a;
      LessIsStrict(a[0], b[0]);
      FirstIsLeast(a, b[0]);
      FirstIsLeast(b, a[0]);
      forall k ensures k in a[1..] <==> k in b[1..] {
        InTail(a, k);
        InTail(b, k);
      }
      SortedUnique(a[1..], b[1..]);
      assert a == [a[0]] + a[1..] && b == [b[0]] + b[1..];
    }
  }

  lemma FirstIsLeast(a: seq<Key>, k: Key)
    requires Sorted(a) && k in a
    ensures k == a[0] || Less(a[0], k)
  {
    hide Less;
  }

  lemma InTail(a: seq<Key>, k: Key)
    requires Sorted(a) && |a| > 0
    ensures k in a[1..] <==> k in a && k != a[0]
  {
    hide Less;
    LessIsStrict(a[0], a[0]);
    assert a == [a[0]] + a[1..];
  }

  lemma OrderedKeys(entries: seq<Entry>)
    requires Ordered(entries)
    ensures Sorted(KeysOf(entries))
  {
  }

  predicate Before(token: Option<Key>, k: Key) {
    token.Some? && Less(k, token.value)
  }

  /**
   * A page covers exactly the keys under the prefix between its token and the next, or
   * all behind its token if it is the last; the next token continues where it ended.
   */
  lemma PageCovers(prefix: Key, token: Option<Key>, entries: seq<Entry>)
    requires Ordered(entries)
    ensures var q, keys := PlainQuery(prefix), KeysOf(entries);
            var vis, page := Visible(q, token, keys), PageOf(q, token, keys);
            && Sorted(page.objects)
            && (forall k :: k in page.objects ==> k in keys && prefix <= k)
            && (page.next.None? ==> forall k :: k in keys && prefix <= k && !Before(token, k) ==> k in page.objects)
            && (page.next.Some? ==> && |vis| > PAGE_SIZE && Visible(q, page.next, keys) == vis[PAGE_SIZE..]
                                    && forall k :: k in keys && prefix <= k && Before(page.next, k) && !Before(token, k) ==> k in page.objects)
  {
    hide Less, Visible, PageOf;
    var q, keys := PlainQuery(prefix), KeysOf(entries);
    var vis := Visible(q, token, keys);
    PlainPage(prefix, token, keys);
    VisibleLaws(q, token, keys);
    if |vis| > PAGE_SIZE {
      VisibleFrom(q, token, keys, PAGE_SIZE);
      forall k | k in vis && Less(k, vis[PAGE_SIZE]) ensures k in vis[..PAGE_SIZE] {
        InFront(vis, k);
      }
    }
  }

  lemma InFront(vis: seq<Key>, k: Key)
    requires Sorted(vis) && |vis| > PAGE_SIZE && k in vis && Less(k, vis[PAGE_SIZE])
    ensures k in vis[..PAGE_SIZE]
  {
    hide Less;
    var i :| 0 <= i < |vis| && vis[i] == k;
    LessIsStrict(k, vis[PAGE_SIZE]);
    if i < PAGE_SIZE { assert vis[..PAGE_SIZE][i] == k; }
  }

  /** The entry of a key, if there is one. */
  function Lookup(entries: seq<Entry>, key: Key): (r: Option<Entry>)
    ensures r.Some? ==> r.value in entries && r.value.key == key
    ensures r.None? ==> forall e :: e in entries ==> e.key != key
  {
    if |entries| == 0 then None
    else if entries[0].key == key then Some(entries[0])
    else Lookup(entries[1..], key)
  }

  /** The doomed keys among those of a page. */
  function PageDoomed(p: Pass, entries: seq<Entry>, objects: seq<Key>): set<Key> {
    set e | e in entries && e.key in objects && Doomed(p, e) :: e.key
  }

  lemma PageDoomedNext(p: Pass, entries: seq<Entry>, objects: seq<Key>, i: nat, e: Entry)
    requires Ordered(entries) && i < |objects| && e in entries && e.key == objects[i]
    ensures PageDoomed(p, entries, objects[..i + 1]) == PageDoomed(p, entries, objects[..i]) + (if Doomed(p, e) then {e.key} else {})
  {
    hide Doomed, Ordered;
    OneEntryPerKey(entries, e);
    assert objects[..i + 1] == objects[..i] + [e.key];
  }

  /** Deleting a key once more, or one below it, changes nothing. */
  lemma AlreadyGone(tree: bool, gone: set<Key>, entries: seq<Entry>, k: Key)
    requires Covered(tree, gone, k)
    ensures Without(tree, gone + {k}, entries) == Without(tree, gone, entries)
  {
    hide Covered, Without;
    CoversItself(tree, gone);
    CoversItself(tree, gone + {k});
    SameCover(tree, gone + {k}, gone, entries);
  }

  /**
   * One object of a page. Its age is known from the listing; its locks are looked up, and
   * when it is gone already there are none to find.
   */
  lemma LookedAt(tree: bool, p: Pass, listed: seq<Entry>, gone: set<Key>, e: Entry)
    requires Ordered(listed) && e in listed && p.prefix <= e.key
    ensures var now := Without(tree, gone, listed);
            var there := Lookup(now, e.key);
            var deletes := ShouldExpire(p.exp, e.modified, p.now) && !(there.Some? && Locked(there.value, p.now)) && e.key !in p.stuck;
            (if deletes then Without(tree, {e.key}, now) else now) ==
              Without(tree, gone + (if Doomed(p, e) then {e.key} else {}), listed)
  {
    hide Ordered, ShouldExpire, Locked, Covered, Without, Lookup;
    WithoutTwice(tree, gone, {e.key}, listed);
    WithoutLaws(tree, gone, listed);
    var there := Lookup(Without(tree, gone, listed), e.key);
    if there.None? {
      assert Covered(tree, gone, e.key);
      AlreadyGone(tree, gone, listed, e.key);
    } else {
      OneEntryPerKey(listed, e);
    }
    assert gone + {} == gone;
  }

  lemma WithoutStep(tree: bool, key: Key, entries: seq<Entry>, i: nat, kept: seq<Entry>)
    requires i < |entries|
    ensures (if Covers(tree, key, entries[i].key) then kept else kept + [entries[i]]) + Without(tree, {key}, entries[i + 1..]) ==
              kept + Without(tree, {key}, entries[i..])
  {
    hide Covers;
    assert entries[i..][1..] == entries[i + 1..];
    assert Covered(tree, {key}, entries[i].key) <==> Covers(tree, key, entries[i].key) by { assert key in {key}; }
  }

  lemma WithoutNone(tree: bool, gone: set<Key>, entries: seq<Entry>)
    requires |entries| == 0
    ensures Without(tree, gone, entries) == []
  {
  }

  class Bucket {
    const tree: bool
    var entries: seq<Entry>

    constructor (tree: bool, entries: seq<Entry>)
      ensures this.tree == tree && this.entries == entries
    {
      this.tree, this.entries := tree, entries;
    }

    method Delete(key: Key)
      modifies this
      ensures entries == Without(tree, {key}, old(entries))
    {
      hide Covers, Covered, Without;
      var kept: seq<Entry> := [];
      var i := 0;
      assert entries[0..] == entries && kept + Without(tree, {key}, entries) == Without(tree, {key}, entries);
      while i < |entries|
        invariant i <= |entries| && entries == old(entries) && kept + Without(tree, {key}, entries[i..]) == Without(tree, {key}, entries)
      {
        WithoutStep(tree, key, entries, i, kept);
        if !Covers(tree, key, entries[i].key) { kept := kept + [entries[i]]; }
        i := i + 1;
      }
      WithoutNone(tree, {key}, entries[i..]);
      assert kept + [] == kept;
      entries := kept;
    }

    /** Look at the objects of one page: delete those that are expired and not locked. */
    method ExpirePage(p: Pass, objects: seq<Key>)
      requires Ordered(entries)
      requires forall k :: k in objects ==> k in KeysOf(entries) && p.prefix <= k
      modifies this
      ensures entries == Without(tree, PageDoomed(p, old(entries), objects), old(entries))
    {
      hide Doomed, Ordered, ShouldExpire, Locked, Without, PageDoomed;
      var listed := entries;
      assert PageDoomed(p, listed, objects[..0]) == {} by { NothingLooked(p, listed, objects); }
      WithoutNothing(tree, listed);
      for i := 0 to |objects|
        invariant entries == Without(tree, PageDoomed(p, listed, objects[..i]), listed)
      {
        var key := objects[i];
        KeyEntry(listed, key);
        var e := Lookup(listed, key).value;
        LookedAt(tree, p, listed, PageDoomed(p, listed, objects[..i]), e);
        PageDoomedNext(p, listed, objects, i, e);
        if ShouldExpire(p.exp, e.modified, p.now) {
          var there := Lookup(entries, key);
          var locked := there.Some? && Locked(there.value, p.now);
          if !locked && key !in p.stuck {
            Delete(key);
          }
        }
      }
      assert objects[..|objects|] == objects;
    }

    /**
     * Page through the keys under a prefix, a thousand at a time, deleting while paging.
     * Later pages are listed from the shrunken bucket, and in a tree a deletion may reach
     * behind the token; yet the pass ends, having left exactly the entries that no doomed
     * entry covers.
     */
    method ExpireObjects(p: Pass)
      requires Ordered(entries)
      modifies this
      ensures entries == LeftBy(tree, p, old(entries))
    {
      hide Doomed, Less, Visible, Listed, Ordered, Without, PageDoomed, DoomedKeys, Before;
      ghost var all := entries;
      ghost var gone: set<Key> := {};
      var token: Option<Key> := None;
      WithoutNothing(tree, all);
      StartSwept(tree, p, all);
      while true
        invariant entries == Without(tree, gone, all)
        invariant Swept(tree, p, all, token, gone)
        decreases |Visible(PlainQuery(p.prefix), token, KeysOf(entries))|
      {
        WithoutLaws(tree, gone, all);
        OrderedKeys(entries);
        var page := ListObjects(PlainQuery(p.prefix), token, KeysOf(entries));
        ghost var listed := entries;
        PageCovers(p.prefix, token, listed);
        ExpirePage(p, page.objects);
        ghost var more := PageDoomed(p, listed, page.objects);
        WithoutTwice(tree, gone, more, all);
        SweptPage(tree, p, all, token, gone, page.objects, page.next);
        if page.next.None? {
          SweptAll(tree, p, all, gone + more);
          break;
        }
        VisibleShrinks(tree, more, listed, PlainQuery(p.prefix), page.next);
        gone := gone + more;
        token := page.next;
      }
    }

    /** Run every enabled rule with an expiration action, in turn: the entries left are those that no entry doomed by a rule covers. */
    method ExpireBucket(rules: seq<Rule>, now: int, stuck: set<Key>)
      requires Ordered(entries)
      modifies this
      ensures Ordered(entries)
      ensures forall e :: e in entries <==>
                e in old(entries) && !exists d :: d in old(entries) && DoomedByAny(rules, now, stuck, d) && Covers(tree, d.key, e.key)
    {
      hide Doomed, Ordered, Without, RuledOut, DoomedByAny, Covers, Covered;
      ghost var all := entries;
      RuledOutNone(now, stuck, all);
      WithoutNothing(tree, all);
      assert rules[..0] == [];
      for i := 0 to |rules|
        invariant entries == Without(tree, RuledOut(rules[..i], now, stuck, all), all)
      {
        var rule := rules[i];
        OneMoreRule(tree, rules, i, now, stuck, all);
        if rule.enabled && rule.expiration.Some? {
          WithoutLaws(tree, RuledOut(rules[..i], now, stuck, all), all);
          ExpireObjects(Pass(rule.prefix, rule.expiration.value, now, stuck));
        }
      }
      assert rules[..|rules|] == rules;
      WithoutLaws(tree, RuledOut(rules, now, stuck, all), all);
      forall e: Entry ensures Covered(tree, RuledOut(rules, now, stuck, all), e.key) <==>
                       exists d :: d in all && DoomedByAny(rules, now, stuck, d) && Covers(tree, d.key, e.key) {
        CoveredByRuled(tree, rules, now, stuck, all, e.key);
      }
    }
  }

  lemma NothingLooked(p: Pass, listed: seq<Entry>, objects: seq<Key>)
    ensures PageDoomed(p, listed, objects[..0]) == {}
  {
  }

  /** The deletions so far: of doomed keys only, and covering every doomed key before the token. */
  ghost predicate Swept(tree: bool, p: Pass, all: seq<Entry>, token: Option<Key>, gone: set<Key>) {
    && gone <= DoomedKeys(p, all)
    && forall e :: e in all && Doomed(p, e) && Before(token, e.key) ==> Covered(tree, gone, e.key)
  }

  lemma StartSwept(tree: bool, p: Pass, all: seq<Entry>)
    ensures Swept(tree, p, all, None, {})
  {
  }

  /** After a page the deletions cover every doomed key before the next token, or all if there is none. */
  lemma SweptPage(tree: bool, p: Pass, all: seq<Entry>, token: Option<Key>, gone: set<Key>, objects: seq<Key>, next: Option<Key>)
    requires Ordered(all) && Swept(tree, p, all, token, gone)
    requires forall k :: k in KeysOf(Without(tree, gone, all)) && p.prefix <= k && (next.Some? ==> Before(next, k)) && !Before(token, k) ==> k in objects
    ensures var more := PageDoomed(p, Without(tree, gone, all), objects);
            && gone + more <= DoomedKeys(p, all)
            && forall e :: e in all && Doomed(p, e) && (next.Some? ==> Before(next, e.key)) ==> Covered(tree, gone + more, e.key)
  {
    hide ShouldExpire, Locked, Ordered, Without, Before, Covers;
    var left := Without(tree, gone, all);
    var more := PageDoomed(p, left, objects);
    WithoutLaws(tree, gone, all);
    CoversItself(tree, gone + more);
    forall e | e in all && Doomed(p, e) && (next.Some? ==> Before(next, e.key)) ensures Covered(tree, gone + more, e.key) {
      if !Covered(tree, gone, e.key) {
        assert e in left;
        KeyEntry(left, e.key);
        assert e.key in more;
      }
    }
  }

  lemma SweptAll(tree: bool, p: Pass, all: seq<Entry>, gone: set<Key>)
    requires gone <= DoomedKeys(p, all)
    requires forall e :: e in all && Doomed(p, e) ==> Covered(tree, gone, e.key)
    ensures Without(tree, gone, all) == LeftBy(tree, p, all)
  {
    hide Doomed, Covered, Without;
    CoversItself(tree, DoomedKeys(p, all));
    SameCover(tree, gone, DoomedKeys(p, all), all);
  }

  predicate DoomedBy(rule: Rule, now: int, stuck: set<Key>, e: Entry) {
    rule.enabled && rule.expiration.Some? && Doomed(Pass(rule.prefix, rule.expiration.value, now, stuck), e)
  }

  predicate DoomedByAny(rules: seq<Rule>, now: int, stuck: set<Key>, e: Entry) {
    exists i :: 0 <= i < |rules| && DoomedBy(rules[i], now, stuck, e)
  }

  function RuledOut(rules: seq<Rule>, now: int, stuck: set<Key>, entries: seq<Entry>): set<Key> {
    set e | e in entries && DoomedByAny(rules, now, stuck, e) :: e.key
  }

  lemma RuledOutNone(now: int, stuck: set<Key>, entries: seq<Entry>)
    ensures RuledOut([], now, stuck, entries) == {}
  {
  }

  lemma CoveredByRuled(tree: bool, rules: seq<Rule>, now: int, stuck: set<Key>, entries: seq<Entry>, k: Key)
    ensures Covered(tree, RuledOut(rules, now, stuck, entries), k) <==>
            exists d :: d in entries && DoomedByAny(rules, now, stuck, d) && Covers(tree, d.key, k)
  {
    hide DoomedByAny, Covers;
    if d :| d in entries && DoomedByAny(rules, now, stuck, d) && Covers(tree, d.key, k) {
      assert d.key in RuledOut(rules, now, stuck, entries);
    }
  }

  lemma DoomedByOneMore(rules: seq<Rule>, i: nat, now: int, stuck: set<Key>, e: Entry)
    requires i < |rules|
    ensures DoomedByAny(rules[..i + 1], now, stuck, e) <==> DoomedByAny(rules[..i], now, stuck, e) || DoomedBy(rules[i], now, stuck, e)
  {
    hide DoomedBy;
    assert rules[..i + 1][i] == rules[i];
    assert forall j :: 0 <= j < i ==> rules[..i + 1][j] == rules[..i][j];
  }

  /** A rule that works on what the rules before it left removes what it would remove from the whole bucket. */
  lemma OneMoreRule(tree: bool, rules: seq<Rule>, i: nat, now: int, stuck: set<Key>, all: seq<Entry>)
    requires i < |rules| && Ordered(all)
    ensures var left := Without(tree, RuledOut(rules[..i], now, stuck, all), all);
            (if rules[i].enabled && rules[i].expiration.Some? then LeftBy(tree, Pass(rules[i].prefix, rules[i].expiration.value, now, stuck), left) else left)
              == Without(tree, RuledOut(rules[..i + 1], now, stuck, all), all)
  {
    hide Doomed, Ordered, Without, DoomedByAny, Covered;
    var rule := rules[i];
    var gone, both := RuledOut(rules[..i], now, stuck, all), RuledOut(rules[..i + 1], now, stuck, all);
    forall e ensures DoomedByAny(rules[..i + 1], now, stuck, e) <==> DoomedByAny(rules[..i], now, stuck, e) || DoomedBy(rule, now, stuck, e) {
      DoomedByOneMore(rules, i, now, stuck, e);
    }
    if rule.enabled && rule.expiration.Some? {
      var p := Pass(rule.prefix, rule.expiration.value, now, stuck);
      var left := Without(tree, gone, all);
      WithoutLaws(tree, gone, all);
      WithoutTwice(tree, gone, DoomedKeys(p, left), all);
      CoversItself(tree, gone + DoomedKeys(p, left));
      CoversItself(tree, both);
      forall k | k in both ensures Covered(tree, gone + DoomedKeys(p, left), k) {
        var e :| e in all && DoomedByAny(rules[..i + 1], now, stuck, e) && e.key == k;
        if k !in gone && e !in left { CoveredMore(tree, gone, DoomedKeys(p, left), k); }
      }
      forall k | k in gone + DoomedKeys(p, left) ensures Covered(tree, both, k) {
        assert k in both;
      }
      SameCover(tree, gone + DoomedKeys(p, left), both, all);
    } else {
      assert both == gone;
    }
  }

  lemma CoveredMore(tree: bool, a: set<Key>, b: set<Key>, k: Key)
    requires Covered(tree, a, k)
    ensures Covered(tree, a + b, k)
  {
    hide Covers;
  }
}

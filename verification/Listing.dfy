/** Listing a bucket with delimiter roll-up and continuation tokens (src/storage/fs.rs, src/erasure/store.rs). */
module Listing {
  import opened Wrappers
  import opened Keys

  /** What a key is listed as: itself, or the part up to the first delimiter behind the prefix. */
  datatype Item = Object(key: Key) | Common(prefix: Key)

  /** An item and the first key behind it. */
  datatype Group = Group(item: Item, first: Key)

  /** What to list. An absent delimiter is the empty one. */
  datatype Query = Query(prefix: Key, delimiter: Key, startAfter: Option<Key>, maxKeys: nat)

  datatype Page = Page(objects: seq<Key>, commons: seq<Key>, next: Option<Key>)

  function ItemOf(q: Query, key: Key): Item
    requires q.prefix <= key
  {
    if |q.delimiter| == 0 then Object(key)
    else match Find(key[|q.prefix|..], q.delimiter)
      case None => Object(key)
      case Some(i) => Common(key[..|q.prefix| + i + |q.delimiter|])
  }

  predicate Listed(q: Query, token: Option<Key>, key: Key) {
    && q.prefix <= key
    && (token.Some? ==> !Less(key, token.value))
    && (q.startAfter.Some? ==> Less(q.startAfter.value, key))
  }

  function Visible(q: Query, token: Option<Key>, keys: seq<Key>): (r: seq<Key>)
    ensures forall i :: 0 <= i < |r| ==> Listed(q, token, r[i]) && q.prefix <= r[i]
  {
    if |keys| == 0 then []
    else (if Listed(q, token, keys[0]) then [keys[0]] else []) + Visible(q, token, keys[1..])
  }

  /** Every key as its item, a common prefix only where it first appears. */
  function Rolled(q: Query, keys: seq<Key>, seen: set<Item>): seq<Group>
    requires forall i :: 0 <= i < |keys| ==> q.prefix <= keys[i]
  {
    if |keys| == 0 then []
    else
      var item := ItemOf(q, keys[0]);
      if item.Common? && item in seen then Rolled(q, keys[1..], seen)
      else [Group(item, keys[0])] + Rolled(q, keys[1..], seen + {item})
  }

  function Groups(q: Query, token: Option<Key>, keys: seq<Key>): seq<Group> {
    Rolled(q, Visible(q, token, keys), {})
  }

  function ObjectsIn(groups: seq<Group>): seq<Key> {
    if |groups| == 0 then []
    else ObjectsIn(groups[..|groups| - 1]) + match groups[|groups| - 1].item case Object(k) => [k] case Common(_) => []
  }

  function CommonsIn(groups: seq<Group>): seq<Key> {
    if |groups| == 0 then []
    else CommonsIn(groups[..|groups| - 1]) + match groups[|groups| - 1].item case Object(_) => [] case Common(p) => [p]
  }

  /** One page: the first `maxKeys` items, and the first key behind them as the token. */
  function PageOf(q: Query, token: Option<Key>, keys: seq<Key>): Page {
    var groups := Groups(q, token, keys);
    if |groups| <= q.maxKeys then Page(ObjectsIn(groups), CommonsIn(groups), None)
    else Page(ObjectsIn(groups[..q.maxKeys]), CommonsIn(groups[..q.maxKeys]), Some(groups[q.maxKeys].first))
  }

  /** Ordered insertion, as a sorted set does it. */
  function Insert(s: seq<Key>, x: Key): seq<Key> {
    if |s| == 0 then [x]
    else if Less(x, s[0]) then [x] + s
    else if x == s[0] then s
    else [s[0]] + Insert(s[1..], x)
  }

  lemma {:induction false} InsertLast(s: seq<Key>, x: Key)
    requires forall y :: y in s ==> Less(y, x)
    ensures Insert(s, x) == s + [x]
  {
    if |s| > 0 {
      LessIsStrict(s[0], x);
      InsertLast(s[1..], x);
    }
  }

  // ---------------------------------------------------------------------------
  // Items in order
  // ---------------------------------------------------------------------------

  function Text(item: Item): Key {
    match item
    case Object(k) => k
    case Common(p) => p
  }

  /** A key that begins with another key's common prefix is rolled into it. */
  lemma SharesCommon(q: Query, a: Key, b: Key)
    requires q.prefix <= a && q.prefix <= b && ItemOf(q, a).Common? && ItemOf(q, a).prefix <= b
    ensures ItemOf(q, b) == ItemOf(q, a)
  {
    var n := |q.prefix|;
    var s, t := a[n..], b[n..];
    var i := Find(s, q.delimiter).value;
    var cut := n + i + |q.delimiter|;
    assert a[..cut] == b[..cut];
    assert s[..i + |q.delimiter|] == a[..cut][n..] == b[..cut][n..] == t[..i + |q.delimiter|];
    FindIsLocal(s, q.delimiter, t);
  }

  lemma ItemBegins(q: Query, key: Key)
    requires q.prefix <= key
    ensures Text(ItemOf(q, key)) <= key
  {
  }

  /** Ordered keys have ordered items. */
  lemma ItemsOrdered(q: Query, a: Key, b: Key)
    requires q.prefix <= a && q.prefix <= b && Less(a, b) && ItemOf(q, a) != ItemOf(q, b)
    ensures Less(Text(ItemOf(q, a)), Text(ItemOf(q, b)))
  {
    var x, y := ItemOf(q, a), ItemOf(q, b);
    ItemBegins(q, a);
    ItemBegins(q, b);
    if x.Common? || y.Common? {
      if Text(y) <= Text(x) {
        assert Text(y) <= a;
        if y.Common? {
          SharesCommon(q, b, a);
        } else {
          PrefixNotAfter(b, a);
        }
      }
      PrefixesOrdered(Text(x), a, Text(y), b);
    }
  }

  /** Keys with one common prefix are neighbours. */
  lemma CommonConvex(q: Query, a: Key, b: Key, c: Key)
    requires q.prefix <= a && q.prefix <= b && q.prefix <= c && Less(a, b) && Less(b, c)
    requires ItemOf(q, a).Common? && ItemOf(q, a) == ItemOf(q, c)
    ensures ItemOf(q, b) == ItemOf(q, a)
  {
    ItemBegins(q, a);
    ItemBegins(q, c);
    PrefixConvex(ItemOf(q, a).prefix, a, b, c);
    SharesCommon(q, a, b);
  }

  // ---------------------------------------------------------------------------
  // The listing loop
  // ---------------------------------------------------------------------------

  lemma PartsMember(groups: seq<Group>, k: Key)
    ensures k in ObjectsIn(groups) <==> exists i :: 0 <= i < |groups| && groups[i].item == Object(k)
    ensures k in CommonsIn(groups) <==> exists i :: 0 <= i < |groups| && groups[i].item == Common(k)
  {
    ObjectsMember(groups, k);
    CommonsMember(groups, k);
    hide ObjectsIn, CommonsIn;
  }

  predicate Shown(groups: seq<Group>, item: Item) {
    exists i :: 0 <= i < |groups| && groups[i].item == item
  }

  lemma ShownAppend(groups: seq<Group>, g: Group, item: Item)
    ensures Shown(groups + [g], item) <==> Shown(groups, item) || item == g.item
  {
    if Shown(groups, item) {
      var i :| 0 <= i < |groups| && groups[i].item == item;
      assert (groups + [g])[i].item == item;
    }
    assert (groups + [g])[|groups|] == g;
  }

  lemma {:induction false} ObjectsMember(groups: seq<Group>, k: Key)
    ensures k in ObjectsIn(groups) <==> Shown(groups, Object(k))
  {
    if |groups| > 0 {
      hide Shown;
      var n := |groups| - 1;
      ObjectsMember(groups[..n], k);
      ShownAppend(groups[..n], groups[n], Object(k));
      assert groups == groups[..n] + [groups[n]];
    }
  }

  lemma {:induction false} CommonsMember(groups: seq<Group>, k: Key)
    ensures k in CommonsIn(groups) <==> Shown(groups, Common(k))
  {
    if |groups| > 0 {
      hide Shown;
      var n := |groups| - 1;
      CommonsMember(groups[..n], k);
      ShownAppend(groups[..n], groups[n], Common(k));
      assert groups == groups[..n] + [groups[n]];
    }
  }

  /** Each group comes from a listed key before `key`. */
  predicate Behind(q: Query, groups: seq<Group>, key: Key) {
    forall i :: 0 <= i < |groups| ==> q.prefix <= groups[i].first && ItemOf(q, groups[i].first) == groups[i].item && Less(groups[i].first, key)
  }

  /** A new common prefix sorts behind those already there. */
  lemma NewCommonIsLast(q: Query, groups: seq<Group>, key: Key)
    requires q.prefix <= key && Behind(q, groups, key) && ItemOf(q, key).Common?
    requires forall i :: 0 <= i < |groups| ==> groups[i].item != ItemOf(q, key)
    ensures Insert(CommonsIn(groups), ItemOf(q, key).prefix) == CommonsIn(groups) + [ItemOf(q, key).prefix]
  {
    forall y | y in CommonsIn(groups) ensures Less(y, ItemOf(q, key).prefix) {
      PartsMember(groups, y);
      var i :| 0 <= i < |groups| && groups[i].item == Common(y);
      ItemsOrdered(q, groups[i].first, key);
    }
    InsertLast(CommonsIn(groups), ItemOf(q, key).prefix);
  }

  lemma AppendParts(groups: seq<Group>, g: Group)
    ensures ObjectsIn(groups + [g]) == ObjectsIn(groups) + match g.item case Object(k) => [k] case Common(_) => []
    ensures CommonsIn(groups + [g]) == CommonsIn(groups) + match g.item case Object(_) => [] case Common(p) => [p]
  {
    assert (groups + [g])[..|groups|] == groups;
  }

  lemma VisibleStep(q: Query, token: Option<Key>, keys: seq<Key>, i: nat)
    requires i < |keys|
    ensures Visible(q, token, keys[i..])
            == (if Listed(q, token, keys[i]) then [keys[i]] else []) + Visible(q, token, keys[i + 1..])
  {
    assert keys[i..][1..] == keys[i + 1..];
  }

  lemma RolledStep(q: Query, key: Key, rest: seq<Key>, seen: set<Item>)
    requires q.prefix <= key && forall i :: 0 <= i < |rest| ==> q.prefix <= rest[i]
    ensures Rolled(q, [key] + rest, seen)
            == if ItemOf(q, key).Common? && ItemOf(q, key) in seen then Rolled(q, rest, seen)
               else [Group(ItemOf(q, key), key)] + Rolled(q, rest, seen + {ItemOf(q, key)})
  {
    assert ([key] + rest)[1..] == rest;
  }

  lemma BehindNext(q: Query, groups: seq<Group>, keys: seq<Key>, i: nat)
    requires Sorted(keys) && i < |keys| && Behind(q, groups, keys[i])
    ensures i + 1 < |keys| ==> Behind(q, groups, keys[i + 1])
  {
    if i + 1 < |keys| {
      forall j | 0 <= j < |groups| ensures Less(groups[j].first, keys[i + 1]) {
        LessTransitive(groups[j].first, keys[i], keys[i + 1]);
      }
    }
  }

  /** The loop's state before key `i`: the groups found so far, and what they show. */
  ghost predicate At(q: Query, token: Option<Key>, keys: seq<Key>, i: nat, done: seq<Group>, seen: set<Item>) {
    && i <= |keys|
    && done + Rolled(q, Visible(q, token, keys[i..]), seen) == Groups(q, token, keys)
    && (forall item :: item in seen <==> Shown(done, item))
    && (i < |keys| ==> Behind(q, done, keys[i]))
  }

  lemma StartAt(q: Query, token: Option<Key>, keys: seq<Key>)
    ensures At(q, token, keys, 0, [], {})
  {
    hide Rolled, Visible;
    assert keys[0..] == keys;
    assert [] + Groups(q, token, keys) == Groups(q, token, keys);
  }

  /** A key that is not listed, or whose common prefix is there already, changes nothing. */
  lemma StepOver(q: Query, token: Option<Key>, keys: seq<Key>, i: nat, done: seq<Group>, seen: set<Item>)
    requires Sorted(keys) && i < |keys| && At(q, token, keys, i, done, seen)
    requires Listed(q, token, keys[i]) ==> q.prefix <= keys[i] && ItemOf(q, keys[i]).Common? && ItemOf(q, keys[i]) in seen
    ensures At(q, token, keys, i + 1, done, seen)
  {
    hide ItemOf, Listed, Less, Rolled, Visible, Sorted;
    VisibleStep(q, token, keys, i);
    BehindNext(q, done, keys, i);
    var rest := Visible(q, token, keys[i + 1..]);
    if Listed(q, token, keys[i]) {
      RolledStep(q, keys[i], rest, seen);
    } else {
      assert [] + rest == rest;
    }
  }

  /** Any other key is the next group. */
  lemma StepInto(q: Query, token: Option<Key>, keys: seq<Key>, i: nat, done: seq<Group>, seen: set<Item>)
    requires Sorted(keys) && i < |keys| && At(q, token, keys, i, done, seen)
    requires Listed(q, token, keys[i]) && q.prefix <= keys[i] && !(ItemOf(q, keys[i]).Common? && ItemOf(q, keys[i]) in seen)
    ensures var g := Group(ItemOf(q, keys[i]), keys[i]);
            && At(q, token, keys, i + 1, done + [g], seen + {g.item})
            && done + [g] <= Groups(q, token, keys)
  {
    hide ItemOf, Listed, Less, Rolled, Visible, Sorted, Behind, Groups;
    VisibleStep(q, token, keys, i);
    BehindAppend(q, done, keys, i);
    var rest, g := Visible(q, token, keys[i + 1..]), Group(ItemOf(q, keys[i]), keys[i]);
    RolledStep(q, keys[i], rest, seen);
    var more := Rolled(q, rest, seen + {g.item});
    assert done + ([g] + more) == (done + [g]) + more;
    forall item ensures item in seen + {g.item} <==> Shown(done + [g], item) {
      ShownAppend(done, g, item);
    }
  }

  lemma AllDone(q: Query, token: Option<Key>, keys: seq<Key>, done: seq<Group>, seen: set<Item>)
    requires At(q, token, keys, |keys|, done, seen)
    ensures done == Groups(q, token, keys)
  {
    hide Groups, Shown;
    var none := keys[|keys|..];
    assert |none| == 0;
    assert Rolled(q, Visible(q, token, none), seen) == [];
  }

  /** Walk the keys in order, rolling up and counting, until the page is full. */
  method ListObjects(q: Query, token: Option<Key>, keys: seq<Key>) returns (page: Page)
    requires Sorted(keys)
    ensures page == PageOf(q, token, keys)
  {
    hide ItemOf, Listed, Less, Groups, At, Sorted, ObjectsIn, CommonsIn;
    var chosen: seq<Key>, common: seq<Key>, count := [], [], 0;
    ghost var done: seq<Group>, seen: set<Item> := [], {};
    StartAt(q, token, keys);
    NoParts();
    var i := 0;
    while i < |keys|
      invariant i <= |keys| && count == |done| <= q.maxKeys
      invariant At(q, token, keys, i, done, seen)
      invariant chosen == ObjectsIn(done) && common == CommonsIn(done)
    {
      var key := keys[i];
      if !Listed(q, token, key) {
        StepOver(q, token, keys, i, done, seen);
        i := i + 1;
        continue;
      }
      ListedPrefix(q, token, key);
      var item := ItemOf(q, key);
      if item.Common? {
        SeenIsCommon(q, token, keys, i, done, seen, item);
        if item.prefix in common {
          StepOver(q, token, keys, i, done, seen);
          i := i + 1;
          continue;
        }
        NewCommonIsLast(q, done, key);
      }
      StepInto(q, token, keys, i, done, seen);
      ghost var g := Group(item, key);
      if count >= q.maxKeys {
        PageFull(q, token, keys, done, g);
        return Page(chosen, common, Some(key));
      }
      AppendParts(done, g);
      if item.Common? {
        common := Insert(common, item.prefix);
      } else {
        chosen := chosen + [key];
        ObjectItem(q, key);
      }
      done, seen := done + [g], seen + {item};
      count, i := count + 1, i + 1;
    }
    AllDone(q, token, keys, done, seen);
    page := Page(chosen, common, None);
  }

  lemma NoParts()
    ensures ObjectsIn([]) == [] && CommonsIn([]) == []
  {
  }

  lemma SeenIsCommon(q: Query, token: Option<Key>, keys: seq<Key>, i: nat, done: seq<Group>, seen: set<Item>, item: Item)
    requires i < |keys| && At(q, token, keys, i, done, seen) && item.Common?
    ensures item in seen <==> item.prefix in CommonsIn(done)
    ensures Behind(q, done, keys[i]) && (item !in seen ==> forall j :: 0 <= j < |done| ==> done[j].item != item)
  {
    hide Rolled, Visible, Groups;
    PartsMember(done, item.prefix);
  }

  lemma PageFull(q: Query, token: Option<Key>, keys: seq<Key>, done: seq<Group>, g: Group)
    requires |done| == q.maxKeys && done + [g] <= Groups(q, token, keys)
    ensures PageOf(q, token, keys) == Page(ObjectsIn(done), CommonsIn(done), Some(g.first))
  {
    hide Groups, ObjectsIn, CommonsIn;
    var groups := Groups(q, token, keys);
    assert groups[..q.maxKeys] == done && groups[q.maxKeys] == (done + [g])[q.maxKeys];
  }

  lemma ListedPrefix(q: Query, token: Option<Key>, key: Key)
    requires Listed(q, token, key)
    ensures q.prefix <= key
  {
  }

  lemma ObjectItem(q: Query, key: Key)
    requires q.prefix <= key && ItemOf(q, key).Object?
    ensures ItemOf(q, key) == Object(key)
  {
  }

  lemma BehindAppend(q: Query, groups: seq<Group>, keys: seq<Key>, i: nat)
    requires Sorted(keys) && i < |keys| && q.prefix <= keys[i] && Behind(q, groups, keys[i])
    ensures i + 1 < |keys| ==> Behind(q, groups + [Group(ItemOf(q, keys[i]), keys[i])], keys[i + 1])
  {
    hide ItemOf;
    BehindNext(q, groups, keys, i);
  }

  // ---------------------------------------------------------------------------
  // What a listing says
  // ---------------------------------------------------------------------------

  lemma {:induction false} VisibleLaws(q: Query, token: Option<Key>, keys: seq<Key>)
    requires Sorted(keys)
    ensures Sorted(Visible(q, token, keys))
    ensures forall k :: k in Visible(q, token, keys) <==> k in keys && Listed(q, token, k)
  {
    hide Less, Listed;
    if |keys| > 0 {
      VisibleLaws(q, token, keys[1..]);
      var rest := Visible(q, token, keys[1..]);
      assert forall k :: k in keys <==> k == keys[0] || k in keys[1..];
      forall i | 0 <= i < |rest| ensures Less(keys[0], rest[i]) {
        assert rest[i] in keys[1..];
      }
    }
  }

  lemma InTail(keys: seq<Key>, k: Key)
    requires |keys| > 0
    ensures k in keys <==> k == keys[0] || k in keys[1..]
  {
    assert keys == [keys[0]] + keys[1..];
  }

  /** Each group stands for one of the keys and is not among those already seen. */
  lemma {:induction false} RolledFromKeys(q: Query, keys: seq<Key>, seen: set<Item>, i: nat)
    requires forall i :: 0 <= i < |keys| ==> q.prefix <= keys[i]
    requires i < |Rolled(q, keys, seen)|
    ensures var g := Rolled(q, keys, seen)[i];
            g.first in keys && q.prefix <= g.first && g.item == ItemOf(q, g.first) && (g.item.Common? ==> g.item !in seen)
  {
    hide ItemOf;
    var item, g := ItemOf(q, keys[0]), Rolled(q, keys, seen)[i];
    InTail(keys, g.first);
    if item.Common? && item in seen {
      RolledFromKeys(q, keys[1..], seen, i);
    } else if i > 0 {
      RolledFromKeys(q, keys[1..], seen + {item}, i - 1);
    }
  }

  lemma {:induction false} RolledOrdered(q: Query, keys: seq<Key>, seen: set<Item>, i: nat, j: nat)
    requires Sorted(keys) && forall i :: 0 <= i < |keys| ==> q.prefix <= keys[i]
    requires i < j < |Rolled(q, keys, seen)|
    ensures Less(Text(Rolled(q, keys, seen)[i].item), Text(Rolled(q, keys, seen)[j].item))
  {
    hide Less, ItemOf, Text;
    var item := ItemOf(q, keys[0]);
    if item.Common? && item in seen {
      RolledOrdered(q, keys[1..], seen, i, j);
    } else if i > 0 {
      RolledOrdered(q, keys[1..], seen + {item}, i - 1, j - 1);
    } else {
      RolledFromKeys(q, keys[1..], seen + {item}, j - 1);
      HeadItemFirst(q, keys, Rolled(q, keys[1..], seen + {item})[j - 1], item);
    }
  }

  lemma {:induction false} RolledComplete(q: Query, keys: seq<Key>, seen: set<Item>, k: Key)
    requires forall i :: 0 <= i < |keys| ==> q.prefix <= keys[i]
    requires k in keys && q.prefix <= k && !(ItemOf(q, k).Common? && ItemOf(q, k) in seen)
    ensures Shown(Rolled(q, keys, seen), ItemOf(q, k))
  {
    hide ItemOf;
    var item, groups := ItemOf(q, keys[0]), Rolled(q, keys, seen);
    InTail(keys, k);
    if item.Common? && item in seen {
      RolledComplete(q, keys[1..], seen, k);
    } else if ItemOf(q, k) == item {
      assert groups[0].item == item;
    } else {
      RolledComplete(q, keys[1..], seen + {item}, k);
      var rest := Rolled(q, keys[1..], seen + {item});
      var i :| 0 <= i < |rest| && rest[i].item == ItemOf(q, k);
      assert groups[i + 1] == rest[i];
    }
  }

  lemma HeadItemFirst(q: Query, keys: seq<Key>, g: Group, item: Item)
    requires Sorted(keys) && |keys| > 0 && q.prefix <= keys[0] && item == ItemOf(q, keys[0])
    requires g.first in keys[1..] && q.prefix <= g.first && g.item == ItemOf(q, g.first) && (g.item.Common? ==> g.item != item)
    ensures Less(Text(item), Text(g.item))
  {
    LessIsStrict(keys[0], keys[0]);
    assert Less(keys[0], g.first);
    ItemsOrdered(q, keys[0], g.first);
  }

  /**
   * The unpaged listing: an object entry for exactly the listed keys with no delimiter
   * behind the prefix, a common prefix for exactly the groups of the others, all items
   * strictly in order, so none twice.
   */
  lemma ListingMeaning(q: Query, token: Option<Key>, keys: seq<Key>, k: Key)
    requires Sorted(keys)
    ensures var groups := Groups(q, token, keys);
            && (k in ObjectsIn(groups) <==> k in keys && Listed(q, token, k) && ItemOf(q, k).Object?)
            && (k in CommonsIn(groups) <==> exists m :: m in keys && Listed(q, token, m) && ItemOf(q, m) == Common(k))
            && (forall i, j :: 0 <= i < j < |groups| ==> Less(Text(groups[i].item), Text(groups[j].item)))
  {
    hide Less, Text, ItemOf, Rolled, Visible, Listed;
    var vis, groups := Visible(q, token, keys), Groups(q, token, keys);
    VisibleLaws(q, token, keys);
    PartsMember(groups, k);
    forall i | 0 <= i < |groups| ensures groups[i].first in vis && groups[i].item == ItemOf(q, groups[i].first) {
      RolledFromKeys(q, vis, {}, i);
    }
    forall i, j | 0 <= i < j < |groups| ensures Less(Text(groups[i].item), Text(groups[j].item)) {
      RolledOrdered(q, vis, {}, i, j);
    }
    forall m | m in keys && Listed(q, token, m) ensures q.prefix <= m && Shown(groups, ItemOf(q, m)) {
      ListedPrefix(q, token, m);
      RolledComplete(q, vis, {}, m);
    }
    if k in keys && Listed(q, token, k) && ItemOf(q, k).Object? { ObjectItem(q, k); }
    if k in ObjectsIn(groups) {
      var i :| 0 <= i < |groups| && groups[i].item == Object(k);
      ObjectIsKey(q, groups[i].first);
    }
  }

  /** The key is asked for: under the prefix, not before the token, and strictly behind the start key. */
  predicate Asked(q: Query, token: Option<Key>, k: Key) {
    && |q.prefix| <= |k| && k[..|q.prefix|] == q.prefix
    && (token.Some? ==> k == token.value || Less(token.value, k))
    && (q.startAfter.Some? ==> k != q.startAfter.value && Less(q.startAfter.value, k))
  }

  /** No delimiter behind the prefix. */
  ghost predicate Undivided(q: Query, k: Key)
    requires |q.prefix| <= |k|
  {
    |q.delimiter| == 0 || forall i :: !OccursAt(k[|q.prefix|..], q.delimiter, i)
  }

  /** The first delimiter behind the prefix ends where `p` does, and `p` is the key up to there. */
  ghost predicate DividedAt(q: Query, k: Key, p: Key) {
    && p <= k && |q.delimiter| > 0 && |q.prefix| + |q.delimiter| <= |p|
    && var i := |p| - |q.prefix| - |q.delimiter|;
    && OccursAt(k[|q.prefix|..], q.delimiter, i)
    && forall j :: OccursAt(k[|q.prefix|..], q.delimiter, j) ==> i <= j
  }

  /**
   * The unpaged listing by the keys: objects are exactly the keys asked for that have no
   * delimiter behind the prefix; common prefixes are exactly the others, each cut behind
   * its first delimiter. The start key itself is never listed.
   */
  lemma ListingByKeys(q: Query, token: Option<Key>, keys: seq<Key>, k: Key)
    requires Sorted(keys)
    ensures var groups := Groups(q, token, keys);
            && (k in ObjectsIn(groups) <==> k in keys && Asked(q, token, k) && Undivided(q, k))
            && (k in CommonsIn(groups) <==> exists m :: m in keys && Asked(q, token, m) && DividedAt(q, m, k))
            && (q.startAfter == Some(k) ==> k !in ObjectsIn(groups))
  {
    hide Less, Groups, ObjectsIn, CommonsIn, ItemOf, Listed, DividedAt, Undivided, Sorted;
    ListingMeaning(q, token, keys, k);
    forall m ensures Listed(q, token, m) <==> Asked(q, token, m) { AskedIff(q, token, m); }
    forall m | Asked(q, token, m)
      ensures q.prefix <= m
      ensures ItemOf(q, m).Object? <==> Undivided(q, m)
      ensures ItemOf(q, m) == Common(k) <==> DividedAt(q, m, k)
    {
      ItemByDelimiter(q, m, k);
    }
  }

  lemma AskedIff(q: Query, token: Option<Key>, k: Key)
    ensures Listed(q, token, k) <==> Asked(q, token, k)
  {
    hide Less;
    if token.Some? { LessIsStrict(token.value, k); }
    if q.startAfter.Some? { LessIsStrict(k, k); }
  }

  lemma ItemByDelimiter(q: Query, k: Key, p: Key)
    requires q.prefix <= k
    ensures ItemOf(q, k).Object? <==> Undivided(q, k)
    ensures ItemOf(q, k) == Common(p) <==> DividedAt(q, k, p)
  {
    var rest := k[|q.prefix|..];
    FindIsFirst(rest, q.delimiter);
    if DividedAt(q, k, p) {
      assert p == k[..|p|];
    }
  }

  lemma ObjectIsKey(q: Query, key: Key)
    requires q.prefix <= key
    ensures ItemOf(q, key).Object? ==> ItemOf(q, key).key == key
  {
  }

  // ---------------------------------------------------------------------------
  // Paging
  // ---------------------------------------------------------------------------

  function ItemsOf(q: Query, keys: seq<Key>): set<Item>
    requires forall i :: 0 <= i < |keys| ==> q.prefix <= keys[i]
  {
    if |keys| == 0 then {} else {ItemOf(q, keys[0])} + ItemsOf(q, keys[1..])
  }

  lemma {:induction false} ItemsOfMember(q: Query, keys: seq<Key>, item: Item)
    requires forall i :: 0 <= i < |keys| ==> q.prefix <= keys[i]
    ensures item in ItemsOf(q, keys) <==> exists i :: 0 <= i < |keys| && ItemOf(q, keys[i]) == item
  {
    hide ItemOf;
    if |keys| > 0 {
      ItemsOfMember(q, keys[1..], item);
      assert forall i :: 1 <= i < |keys| ==> keys[1..][i - 1] == keys[i];
      if i :| 0 <= i < |keys[1..]| && ItemOf(q, keys[1..][i]) == item {
        assert ItemOf(q, keys[i + 1]) == item;
      }
    }
  }

  /** Where group `n` starts, with everything already seen by then. */
  lemma {:induction false} GroupStart(q: Query, keys: seq<Key>, seen: set<Item>, n: nat) returns (p: nat)
    requires forall i :: 0 <= i < |keys| ==> q.prefix <= keys[i]
    requires n < |Rolled(q, keys, seen)|
    ensures p < |keys| && keys[p] == Rolled(q, keys, seen)[n].first
    ensures Rolled(q, keys, seen)[n..] == Rolled(q, keys[p..], seen + ItemsOf(q, keys[..p]))
    ensures ItemOf(q, keys[p]).Common? ==> ItemOf(q, keys[p]) !in seen + ItemsOf(q, keys[..p])
  {
    hide ItemOf;
    var item := ItemOf(q, keys[0]);
    var skip := item.Common? && item in seen;
    if !skip && n == 0 {
      p := 0;
      assert keys[0..] == keys && seen + ItemsOf(q, keys[..0]) == seen;
    } else {
      var rest := GroupStart(q, keys[1..], seen + {item}, if skip then n else n - 1) by {
        if skip { assert seen + {item} == seen; }
      }
      p := rest + 1;
      assert keys[1..][rest..] == keys[p..];
      assert keys[..p][0] == keys[0] && keys[..p][1..] == keys[1..][..rest];
      assert seen + ItemsOf(q, keys[..p]) == (seen + {item}) + ItemsOf(q, keys[1..][..rest]);
      if skip { assert seen + {item} == seen; }
    }
  }

  lemma {:induction false} SeenIrrelevant(q: Query, keys: seq<Key>, s: set<Item>, t: set<Item>)
    requires forall i :: 0 <= i < |keys| ==> q.prefix <= keys[i]
    requires forall i :: 0 <= i < |keys| && ItemOf(q, keys[i]).Common? ==> (ItemOf(q, keys[i]) in s <==> ItemOf(q, keys[i]) in t)
    ensures Rolled(q, keys, s) == Rolled(q, keys, t)
  {
    hide ItemOf;
    if |keys| > 0 {
      var item := ItemOf(q, keys[0]);
      assert forall i :: 0 <= i < |keys[1..]| ==> keys[1..][i] == keys[i + 1];
      if item.Common? && item in s {
        SeenIrrelevant(q, keys[1..], s, t);
      } else {
        SeenIrrelevant(q, keys[1..], s + {item}, t + {item});
      }
    }
  }

  /** Starting over at the first key of a group gives the remaining groups: nothing seen before comes back. */
  lemma RestartAtGroup(q: Query, keys: seq<Key>, n: nat) returns (p: nat)
    requires Sorted(keys) && forall i :: 0 <= i < |keys| ==> q.prefix <= keys[i]
    requires n < |Rolled(q, keys, {})|
    ensures p < |keys| && keys[p] == Rolled(q, keys, {})[n].first
    ensures Rolled(q, keys, {})[n..] == Rolled(q, keys[p..], {})
  {
    hide ItemOf, Less;
    p := GroupStart(q, keys, {}, n);
    var seen := ItemsOf(q, keys[..p]);
    assert {} + seen == seen;
    forall i | p <= i < |keys| && ItemOf(q, keys[i]).Common? ensures ItemOf(q, keys[i]) !in seen {
      ItemsOfMember(q, keys[..p], ItemOf(q, keys[i]));
      ItemsOfMember(q, keys[..p], ItemOf(q, keys[p]));
      if ItemOf(q, keys[i]) in seen {
        var a :| 0 <= a < p && ItemOf(q, keys[..p][a]) == ItemOf(q, keys[i]);
        assert keys[..p][a] == keys[a];
        if i > p { CommonConvex(q, keys[a], keys[p], keys[i]); }
      }
    }
    SeenIrrelevant(q, keys[p..], seen, {});
  }

  /** What a later token leaves visible is the rest of what was visible. */
  lemma {:induction false} VisibleFrom(q: Query, token: Option<Key>, keys: seq<Key>, p: nat)
    requires Sorted(keys) && p < |Visible(q, token, keys)|
    ensures Visible(q, Some(Visible(q, token, keys)[p]), keys) == Visible(q, token, keys)[p..]
  {
    hide Less, Listed, Sorted;
    var vis, rest := Visible(q, token, keys), Visible(q, token, keys[1..]);
    if Listed(q, token, keys[0]) && p == 0 {
      assert vis[0..] == vis && vis[0] == keys[0];
      forall i | 0 <= i < |keys| ensures Listed(q, token, keys[i]) <==> Listed(q, Some(keys[0]), keys[i]) {
        AfterToken(q, token, keys[0], keys, i);
      }
      SameVisible(q, token, Some(keys[0]), keys);
    } else {
      var p' := if Listed(q, token, keys[0]) then p - 1 else p;
      SortedTail(keys);
      HeadHidden(q, token, keys, p');
      VisibleFrom(q, token, keys[1..], p');
      assert vis[p..] == rest[p'..] && vis[p] == rest[p'];
    }
  }

  lemma SortedTail(keys: seq<Key>)
    requires Sorted(keys) && |keys| > 0
    ensures Sorted(keys[1..])
  {
  }

  lemma HeadHidden(q: Query, token: Option<Key>, keys: seq<Key>, p: nat)
    requires Sorted(keys) && |keys| > 0 && p < |Visible(q, token, keys[1..])|
    ensures !Listed(q, Some(Visible(q, token, keys[1..])[p]), keys[0])
  {
    hide Visible;
    VisibleLaws(q, token, keys[1..]);
    var t := Visible(q, token, keys[1..])[p];
    assert t in keys[1..];
    assert Less(keys[0], t);
  }

  lemma AfterToken(q: Query, token: Option<Key>, t: Key, keys: seq<Key>, i: nat)
    requires Sorted(keys) && i < |keys| && keys[0] == t && Listed(q, token, t)
    ensures Listed(q, token, keys[i]) <==> Listed(q, Some(t), keys[i])
  {
    if i > 0 {
      LessIsStrict(t, keys[i]);
      if token.Some? && Less(keys[i], token.value) { LessTransitive(t, keys[i], token.value); }
    } else {
      LessIsStrict(t, t);
    }
  }

  lemma {:induction false} SameVisible(q: Query, a: Option<Key>, b: Option<Key>, keys: seq<Key>)
    requires forall i :: 0 <= i < |keys| ==> (Listed(q, a, keys[i]) <==> Listed(q, b, keys[i]))
    ensures Visible(q, a, keys) == Visible(q, b, keys)
  {
    if |keys| > 0 {
      SameVisible(q, a, b, keys[1..]);
    }
  }

  /** The next token continues exactly where the page ended. */
  lemma NextPage(q: Query, token: Option<Key>, keys: seq<Key>)
    requires Sorted(keys) && |Groups(q, token, keys)| > q.maxKeys
    ensures Groups(q, Some(Groups(q, token, keys)[q.maxKeys].first), keys) == Groups(q, token, keys)[q.maxKeys..]
  {
    hide ItemOf, Less, Listed, Rolled;
    VisibleLaws(q, token, keys);
    var p := RestartAtGroup(q, Visible(q, token, keys), q.maxKeys);
    VisibleFrom(q, token, keys, p);
  }

  /** All pages, following the tokens. It ends, because pages are not empty. */
  ghost function Follow(q: Query, token: Option<Key>, keys: seq<Key>): seq<Page>
    requires Sorted(keys) && q.maxKeys >= 1
    decreases |Groups(q, token, keys)|
  {
    var page := PageOf(q, token, keys);
    [page] + if page.next.None? then [] else
      NextPage(q, token, keys);
      Follow(q, page.next, keys)
  }

  ghost function AllObjects(pages: seq<Page>): seq<Key> {
    if |pages| == 0 then [] else pages[0].objects + AllObjects(pages[1..])
  }

  ghost function AllCommons(pages: seq<Page>): seq<Key> {
    if |pages| == 0 then [] else pages[0].commons + AllCommons(pages[1..])
  }

  lemma {:induction false} SplitParts(a: seq<Group>, b: seq<Group>)
    ensures ObjectsIn(a + b) == ObjectsIn(a) + ObjectsIn(b) && CommonsIn(a + b) == CommonsIn(a) + CommonsIn(b)
  {
    if |b| == 0 {
      assert a + b == a;
    } else {
      var n := |b| - 1;
      SplitParts(a, b[..n]);
      assert a + b == (a + b[..n]) + [b[n]] && b == b[..n] + [b[n]];
      AppendParts(a + b[..n], b[n]);
      AppendParts(b[..n], b[n]);
    }
  }

  /**
   * Paging is exact: for every key set, prefix, delimiter, start and page size of at
   * least one, the pages put together are the unpaged listing, and every page before
   * the last one is full.
   */
  lemma {:induction false} PagingExact(q: Query, token: Option<Key>, keys: seq<Key>)
    requires Sorted(keys) && q.maxKeys >= 1
    ensures var pages := Follow(q, token, keys);
            && AllObjects(pages) == ObjectsIn(Groups(q, token, keys))
            && AllCommons(pages) == CommonsIn(Groups(q, token, keys))
            && pages[|pages| - 1].next.None?
            && (forall i :: 0 <= i < |pages| - 1 ==> |pages[i].objects| + |pages[i].commons| == q.maxKeys)
    decreases |Groups(q, token, keys)|
  {
    hide Groups, ObjectsIn, CommonsIn;
    var groups, page, pages := Groups(q, token, keys), PageOf(q, token, keys), Follow(q, token, keys);
    if page.next.None? {
      assert pages == [page] && pages[1..] == [];
    } else {
      NextPage(q, token, keys);
      PagingExact(q, page.next, keys);
      var rest := Follow(q, page.next, keys);
      assert pages == [page] + rest && pages[1..] == rest;
      assert groups == groups[..q.maxKeys] + groups[q.maxKeys..];
      SplitParts(groups[..q.maxKeys], groups[q.maxKeys..]);
      PartsSize(groups[..q.maxKeys]);
      LaterPages(page, rest, q.maxKeys);
    }
  }

  lemma LaterPages(page: Page, rest: seq<Page>, n: nat)
    requires |rest| > 0 && |page.objects| + |page.commons| == n
    requires forall i :: 0 <= i < |rest| - 1 ==> |rest[i].objects| + |rest[i].commons| == n
    ensures var pages := [page] + rest;
            pages[|pages| - 1] == rest[|rest| - 1] && forall i :: 0 <= i < |pages| - 1 ==> |pages[i].objects| + |pages[i].commons| == n
  {
  }

  lemma {:induction false} PartsSize(groups: seq<Group>)
    ensures |ObjectsIn(groups)| + |CommonsIn(groups)| == |groups|
  {
    if |groups| > 0 {
      PartsSize(groups[..|groups| - 1]);
    }
  }

  /** Following a token makes progress if and only if a page may hold anything: with `maxKeys` 0 the same page comes back for ever. */
  lemma ProgressIff(q: Query, token: Option<Key>, keys: seq<Key>)
    requires Sorted(keys) && PageOf(q, token, keys).next.Some?
    ensures var next := PageOf(q, token, keys).next;
            && (|Groups(q, next, keys)| < |Groups(q, token, keys)| <==> q.maxKeys > 0)
            && (q.maxKeys == 0 ==> PageOf(q, next, keys) == PageOf(q, token, keys) == Page([], [], next))
  {
    hide Groups;
    NextPage(q, token, keys);
    var groups := Groups(q, token, keys);
    assert q.maxKeys == 0 ==> groups[0..] == groups;
  }
}

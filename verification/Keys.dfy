/** Keys as octets: their order, prefixes, and the first occurrence of a delimiter. */
module Keys {
  import opened Wrappers
  import opened Octets

  type Key = seq<Octet>

  predicate Less(a: Key, b: Key) {
    |b| > 0 && (|a| == 0 || a[0] < b[0] || (a[0] == b[0] && Less(a[1..], b[1..])))
  }

  /** The first difference is at `n`: `a` ends there, or has the smaller octet. */
  predicate LowerAt(a: Key, b: Key, n: nat) {
    n <= |a| && n < |b| && a[..n] == b[..n] && (n == |a| || a[n] < b[n])
  }

  lemma LowerHeads(a: Key, b: Key, n: nat)
    ensures LowerAt(a, b, n) && n > 0 ==> a[0] == b[0]
  {
    if LowerAt(a, b, n) && n > 0 { assert a[0] == a[..n][0] && b[0] == b[..n][0]; }
  }

  /** The order is that of octet strings: a proper prefix first, else the smaller octet at the first difference. */
  lemma {:induction false} LessIff(a: Key, b: Key)
    ensures Less(a, b) <==> exists n: nat :: LowerAt(a, b, n)
  {
    if |b| > 0 && (|a| == 0 || a[0] < b[0]) {
      assert LowerAt(a, b, 0);
    } else if |a| > 0 && |b| > 0 && a[0] == b[0] {
      LessIff(a[1..], b[1..]);
      if n: nat :| LowerAt(a[1..], b[1..], n) {
        assert a[..n + 1] == [a[0]] + a[1..][..n] && b[..n + 1] == [b[0]] + b[1..][..n];
        assert LowerAt(a, b, n + 1);
      }
      if n: nat :| LowerAt(a, b, n) {
        assert n > 0;
        assert a[1..][..n - 1] == a[..n][1..] && b[1..][..n - 1] == b[..n][1..];
        assert LowerAt(a[1..], b[1..], n - 1);
      }
    } else {
      forall n: nat ensures !LowerAt(a, b, n) { LowerHeads(a, b, n); }
    }
  }

  predicate Sorted(keys: seq<Key>) {
    forall i, j :: 0 <= i < j < |keys| ==> Less(keys[i], keys[j])
  }

  lemma {:induction false} LessIsStrict(a: Key, b: Key)
    ensures !(Less(a, b) && Less(b, a)) && !Less(a, a)
    ensures Less(a, b) || Less(b, a) || a == b
  {
    if |a| > 0 && |b| > 0 {
      LessIsStrict(a[1..], b[1..]);
      LessIsStrict(a[1..], a[1..]);
      assert a == [a[0]] + a[1..] && b == [b[0]] + b[1..];
    } else if |a| > 0 {
      LessIsStrict(a[1..], a[1..]);
    }
  }

  lemma {:induction false} LessTransitive(a: Key, b: Key, c: Key)
    requires Less(a, b) && Less(b, c)
    ensures Less(a, c)
  {
    if |a| > 0 && a[0] == b[0] && b[0] == c[0] {
      LessTransitive(a[1..], b[1..], c[1..]);
    }
  }

  /** A prefix does not come after what it begins. */
  lemma {:induction false} PrefixNotAfter(p: Key, a: Key)
    requires p <= a
    ensures !Less(a, p)
  {
    if |p| > 0 {
      PrefixNotAfter(p[1..], a[1..]);
    }
  }

  /** What lies between two keys with a common prefix has it too. */
  lemma {:induction false} PrefixConvex(p: Key, a: Key, b: Key, c: Key)
    requires p <= a && p <= c && Less(a, b) && Less(b, c)
    ensures p <= b
  {
    if |p| > 0 {
      assert a[0] == c[0] == b[0];
      PrefixConvex(p[1..], a[1..], b[1..], c[1..]);
      assert p == [p[0]] + p[1..] && b == [b[0]] + b[1..];
    }
  }

  lemma PrefixTails(q: Key, p: Key)
    requires |q| > 0 && |p| > 0
    ensures q <= p <==> q[0] == p[0] && q[1..] <= p[1..]
  {
    assert q == [q[0]] + q[1..] && p == [p[0]] + p[1..];
  }

  /** Prefixes of ordered keys are ordered, unless the later one begins the earlier. */
  lemma {:induction false} PrefixesOrdered(p: Key, a: Key, q: Key, b: Key)
    requires p <= a && q <= b && Less(a, b) && !(q <= p)
    ensures Less(p, q)
  {
    if |p| > 0 && a[0] == b[0] {
      PrefixTails(q, p);
      PrefixesOrdered(p[1..], a[1..], q[1..], b[1..]);
    }
  }

  /** The first place where `d` occurs. */
  function Find(s: Key, d: Key): (r: Option<nat>)
    ensures r.Some? ==> r.value + |d| <= |s| && s[r.value..r.value + |d|] == d
  {
    if d <= s then Some(0)
    else if |s| == 0 then None
    else match Find(s[1..], d)
      case None => None
      case Some(i) =>
        assert s[1..][i..i + |d|] == s[i + 1..i + 1 + |d|];
        Some(i + 1)
  }

  predicate OccursAt(s: Key, d: Key, i: nat) {
    i + |d| <= |s| && s[i..i + |d|] == d
  }

  /** The first place where `d` occurs, if it does at all. */
  lemma {:induction false} FindIsFirst(s: Key, d: Key)
    ensures Find(s, d).None? <==> forall i: nat :: !OccursAt(s, d, i)
    ensures Find(s, d).Some? ==> OccursAt(s, d, Find(s, d).value) && forall i: nat :: OccursAt(s, d, i) ==> Find(s, d).value <= i
  {
    if d <= s {
      assert s[0..|d|] == d;
      assert OccursAt(s, d, 0);
    } else if |s| == 0 {
      assert forall i: nat :: OccursAt(s, d, i) ==> i == 0;
    } else {
      FindIsFirst(s[1..], d);
      assert !OccursAt(s, d, 0);
      forall i: nat ensures OccursAt(s, d, i + 1) <==> OccursAt(s[1..], d, i) {
        if i + 1 + |d| <= |s| { assert s[1..][i..i + |d|] == s[i + 1..i + 1 + |d|]; }
      }
      forall i: nat ensures OccursAt(s, d, i) ==> i > 0 && OccursAt(s[1..], d, i - 1) {
        if i > 0 { assert OccursAt(s, d, (i - 1) + 1) <==> OccursAt(s[1..], d, i - 1); }
      }
    }
  }

  lemma SharedHead(d: Key, head: Key, s: Key, t: Key)
    requires |d| <= |head| && head <= s && head <= t
    ensures d <= s <==> d <= t
  {
    assert s[..|d|] == head[..|d|] == t[..|d|];
  }

  /** The first occurrence is settled by the text up to its end. */
  lemma {:induction false} FindIsLocal(s: Key, d: Key, t: Key)
    requires Find(s, d).Some? && s[..Find(s, d).value + |d|] <= t
    ensures Find(t, d) == Find(s, d)
  {
    var i := Find(s, d).value;
    var head := s[..i + |d|];
    if i == 0 {
      assert d == head;
    } else {
      TailOfHead(s, i + |d|, t);
      FindIsLocal(s[1..], d, t[1..]);
      SharedHead(d, head, s, t);
    }
  }

  lemma TailOfHead(s: Key, n: nat, t: Key)
    requires 1 <= n <= |s| && s[..n] <= t
    ensures s[1..][..n - 1] <= t[1..]
  {
    assert s[1..][..n - 1] == s[..n][1..];
  }
}

/** The canonical query string of a signed request (src/auth/sigv4.rs). */
module CanonicalQuery {
  import opened Wrappers
  import opened Octets
  import opened Keys

  type Text = seq<Octet>

  const PERCENT: Octet := 37
  const AMPERSAND: Octet := 38
  const EQUALS: Octet := 61

  datatype Pair = Pair(key: Text, value: Text)

  /** The library's lossy UTF-8 decoding: any function that leaves its own results alone,
   * as decoding that loses nothing does. */
  ghost predicate Lossy(lossy: Text -> Text) {
    forall s: Text :: lossy(lossy(s)) == lossy(s)
  }

  predicate Unreserved(o: Octet) {
    48 <= o <= 57 || 65 <= o <= 90 || 97 <= o <= 122 || o == 45 || o == 46 || o == 95 || o == 126
  }

  function UpperHex(d: nat): Octet
    requires d < 16
  {
    if d < 10 then 48 + d else 55 + d
  }

  predicate EscapeAt(s: Text) {
    |s| >= 3 && s[0] == PERCENT && Digit(s[1]).Some? && Digit(s[2]).Some?
  }

  /** Percent-decoding; a percent sign without two hexadecimal digits stands for itself. */
  function Unescape(s: Text): Text {
    if |s| == 0 then []
    else if EscapeAt(s) then
      [16 * Digit(s[1]).value + Digit(s[2]).value] + Unescape(s[3..])
    else [s[0]] + Unescape(s[1..])
  }

  function Escape(s: Text): Text {
    if |s| == 0 then []
    else (if Unreserved(s[0]) then [s[0]] else [PERCENT, UpperHex(s[0] / 16), UpperHex(s[0] % 16)]) + Escape(s[1..])
  }

  function Split(s: Text, sep: Octet): (r: seq<Text>)
    ensures |r| > 0
  {
    if |s| == 0 then [[]]
    else
      var rest := Split(s[1..], sep);
      if s[0] == sep then [[]] + rest else [[s[0]] + rest[0]] + rest[1..]
  }

  /** Split at the first equals sign; a piece without one is a key with an empty value. */
  function SplitOnce(s: Text): Pair {
    if |s| == 0 then Pair([], [])
    else if s[0] == EQUALS then Pair([], s[1..])
    else
      var p := SplitOnce(s[1..]);
      Pair([s[0]] + p.key, p.value)
  }

  /** What a piece of the query means. */
  function Meaning(lossy: Text -> Text, piece: Text): Pair {
    var p := SplitOnce(piece);
    Pair(lossy(Unescape(p.key)), lossy(Unescape(p.value)))
  }

  function Escaped(p: Pair): Pair {
    Pair(Escape(p.key), Escape(p.value))
  }

  function Unescaped(p: Pair): Pair {
    Pair(Unescape(p.key), Unescape(p.value))
  }

  function Map<A, B>(f: A -> B, s: seq<A>): (r: seq<B>)
    ensures |r| == |s| && forall i :: 0 <= i < |r| ==> r[i] == f(s[i])
  {
    seq(|s|, i requires 0 <= i < |s| => f(s[i]))
  }

  predicate AtMost(a: Pair, b: Pair) {
    Less(a.key, b.key) || (a.key == b.key && !Less(b.value, a.value))
  }

  function Insert(s: seq<Pair>, x: Pair): seq<Pair> {
    if |s| == 0 || AtMost(x, s[0]) then [x] + s else [s[0]] + Insert(s[1..], x)
  }

  function Sort(s: seq<Pair>): seq<Pair> {
    if |s| == 0 then [] else Insert(Sort(s[1..]), s[0])
  }

  function Print(p: Pair): Text {
    p.key + [EQUALS] + p.value
  }

  function Join(pieces: seq<Text>): Text {
    if |pieces| == 0 then [] else if |pieces| == 1 then pieces[0] else pieces[0] + [AMPERSAND] + Join(pieces[1..])
  }

  /** The pairs a query means, in the order they come. */
  function Meanings(lossy: Text -> Text, query: Text): seq<Pair> {
    Map(piece => Meaning(lossy, piece), Split(query, AMPERSAND))
  }

  /** Encode every pair, sort, print and join. */
  function Canonical(lossy: Text -> Text, query: Text): Text {
    if |query| == 0 then [] else Join(Map(Print, Sort(Map(Escaped, Meanings(lossy, query)))))
  }

  // ---------------------------------------------------------------------------
  // Escaping
  // ---------------------------------------------------------------------------

  lemma {:induction false} UnescapeEscape(s: Text)
    ensures Unescape(Escape(s)) == s
  {
    if |s| > 0 {
      UnescapeEscape(s[1..]);
      var head, rest := if Unreserved(s[0]) then [s[0]] else [PERCENT, UpperHex(s[0] / 16), UpperHex(s[0] % 16)], Escape(s[1..]);
      assert Escape(s) == head + rest;
      assert (head + rest)[|head|..] == rest;
      assert s == [s[0]] + s[1..];
    }
  }

  predicate Clean(s: Text) {
    AMPERSAND !in s && EQUALS !in s
  }

  lemma {:induction false} EscapeClean(s: Text)
    ensures Clean(Escape(s))
  {
    if |s| > 0 {
      EscapeClean(s[1..]);
    }
  }

  // ---------------------------------------------------------------------------
  // Printing and splitting
  // ---------------------------------------------------------------------------

  lemma {:induction false} SplitPlain(s: Text, sep: Octet)
    requires sep !in s
    ensures Split(s, sep) == [s]
  {
    if |s| > 0 {
      assert s[0] in s && forall x :: x in s[1..] ==> x in s;
      SplitPlain(s[1..], sep);
      assert s == [s[0]] + s[1..];
    }
  }

  lemma {:induction false} SplitFirst(s: Text, sep: Octet, rest: Text)
    requires sep !in s
    ensures Split(s + [sep] + rest, sep) == [s] + Split(rest, sep)
  {
    if |s| == 0 {
      assert ([sep] + rest)[1..] == rest && s + [sep] + rest == [sep] + rest;
    } else {
      assert s[0] in s && forall x :: x in s[1..] ==> x in s;
      SplitFirst(s[1..], sep, rest);
      assert (s + [sep] + rest)[1..] == s[1..] + [sep] + rest;
      assert s == [s[0]] + s[1..];
    }
  }

  lemma {:induction false} SplitJoin(pieces: seq<Text>)
    requires |pieces| > 0 && forall i :: 0 <= i < |pieces| ==> AMPERSAND !in pieces[i]
    ensures Split(Join(pieces), AMPERSAND) == pieces
  {
    if |pieces| == 1 {
      SplitPlain(pieces[0], AMPERSAND);
    } else {
      SplitJoin(pieces[1..]);
      SplitFirst(pieces[0], AMPERSAND, Join(pieces[1..]));
    }
  }

  lemma {:induction false} SplitPrinted(key: Text, value: Text)
    requires EQUALS !in key
    ensures SplitOnce(key + [EQUALS] + value) == Pair(key, value)
  {
    var s := key + [EQUALS] + value;
    if |key| == 0 {
      assert s[1..] == value;
    } else {
      assert key[0] in key && forall x :: x in key[1..] ==> x in key;
      SplitPrinted(key[1..], value);
      assert s[1..] == key[1..] + [EQUALS] + value;
      assert key == [key[0]] + key[1..];
    }
  }

  predicate AllClean(pairs: seq<Pair>) {
    forall i :: 0 <= i < |pairs| ==> Clean(pairs[i].key) && Clean(pairs[i].value)
  }

  /** A printed list of clean pairs splits back into them. */
  lemma PrintedSplits(pairs: seq<Pair>)
    requires |pairs| > 0 && AllClean(pairs)
    ensures Split(Join(Map(Print, pairs)), AMPERSAND) == Map(Print, pairs)
    ensures |Join(Map(Print, pairs))| > 0
    ensures forall i :: 0 <= i < |pairs| ==> SplitOnce(Print(pairs[i])) == pairs[i]
  {
    var pieces := Map(Print, pairs);
    forall i | 0 <= i < |pieces| ensures AMPERSAND !in pieces[i] && SplitOnce(Print(pairs[i])) == pairs[i] {
      assert pieces[i] == Print(pairs[i]);
      SplitPrinted(pairs[i].key, pairs[i].value);
    }
    SplitJoin(pieces);
    assert |Print(pairs[0])| > 0;
  }

  // ---------------------------------------------------------------------------
  // Sorting
  // ---------------------------------------------------------------------------

  lemma OrderLaws(a: Pair, b: Pair, c: Pair)
    ensures AtMost(a, b) || AtMost(b, a)
    ensures AtMost(a, b) && AtMost(b, a) ==> a == b
    ensures AtMost(a, b) && AtMost(b, c) ==> AtMost(a, c)
  {
    hide Less;
    LessIsStrict(a.key, b.key);
    LessIsStrict(b.key, c.key);
    LessIsStrict(a.value, b.value);
    LessIsStrict(b.value, c.value);
    LessIsStrict(a.value, c.value);
    if Less(a.key, b.key) && Less(b.key, c.key) { LessTransitive(a.key, b.key, c.key); }
    if Less(a.value, b.value) && Less(b.value, c.value) { LessTransitive(a.value, b.value, c.value); }
  }

  predicate Ascending(s: seq<Pair>) {
    forall i, j :: 0 <= i < j < |s| ==> AtMost(s[i], s[j])
  }

  lemma {:induction false} InsertLaws(s: seq<Pair>, x: Pair)
    requires Ascending(s)
    ensures Ascending(Insert(s, x)) && multiset(Insert(s, x)) == multiset(s) + multiset{x}
  {
    hide AtMost;
    if |s| > 0 && !AtMost(x, s[0]) {
      InsertLaws(s[1..], x);
      var rest := Insert(s[1..], x);
      assert s == [s[0]] + s[1..];
      OrderLaws(x, s[0], s[0]);
      forall i | 0 <= i < |rest| ensures AtMost(s[0], rest[i]) {
        assert rest[i] in multiset(rest);
      }
    } else if |s| > 0 {
      forall i | 0 <= i < |s| ensures AtMost(x, s[i]) {
        OrderLaws(x, s[0], s[i]);
      }
    }
  }

  lemma {:induction false} SortLaws(s: seq<Pair>)
    ensures Ascending(Sort(s)) && multiset(Sort(s)) == multiset(s) && |Sort(s)| == |s|
  {
    if |s| > 0 {
      SortLaws(s[1..]);
      InsertLaws(Sort(s[1..]), s[0]);
      assert s == [s[0]] + s[1..];
      assert |multiset(Sort(s))| == |multiset(s)|;
    }
  }

  lemma HeadCount(s: seq<Pair>)
    requires |s| > 0
    ensures multiset(s) == multiset{s[0]} + multiset(s[1..])
  {
    assert s == [s[0]] + s[1..];
  }

  /** The least of two equal collections is the same. */
  lemma SameHead(a: seq<Pair>, b: seq<Pair>)
    requires Ascending(a) && Ascending(b) && multiset(a) == multiset(b) && |a| > 0 && |b| > 0
    ensures a[0] == b[0]
  {
    hide AtMost;
    assert a[0] in multiset(b) && b[0] in multiset(a);
    var i :| 0 <= i < |b| && b[i] == a[0];
    var j :| 0 <= j < |a| && a[j] == b[0];
    OrderLaws(a[0], b[0], b[0]);
  }

  lemma AscendingTail(s: seq<Pair>)
    requires Ascending(s) && |s| > 0
    ensures Ascending(s[1..])
  {
    hide AtMost;
  }

  /** There is one ascending arrangement. */
  lemma {:induction false} AscendingUnique(a: seq<Pair>, b: seq<Pair>)
    requires Ascending(a) && Ascending(b) && multiset(a) == multiset(b)
    ensures a == b
  {
    hide Ascending;
    assert |multiset(a)| == |multiset(b)|;
    if |a| > 0 {
      SameHead(a, b);
      AscendingTail(a);
      AscendingTail(b);
      HeadCount(a);
      HeadCount(b);
      assert multiset(a[1..]) == multiset(a) - multiset{a[0]} == multiset(b[1..]);
      AscendingUnique(a[1..], b[1..]);
      assert a == [a[0]] + a[1..] && b == [b[0]] + b[1..];
    }
  }

  function Removed<A>(s: seq<A>, j: nat): (r: seq<A>)
    requires j < |s|
    ensures |r| == |s| - 1
  {
    s[..j] + s[j + 1..]
  }

  lemma RemovedCount<A>(s: seq<A>, j: nat)
    requires j < |s|
    ensures multiset(s) == multiset(Removed(s, j)) + multiset{s[j]}
  {
    assert s == s[..j] + [s[j]] + s[j + 1..];
  }

  lemma {:induction false} MapMultiset<A, B>(f: A -> B, a: seq<A>, b: seq<A>)
    requires multiset(a) == multiset(b)
    ensures multiset(Map(f, a)) == multiset(Map(f, b))
  {
    assert |multiset(a)| == |multiset(b)|;
    if |a| > 0 {
      assert a[0] in multiset(b);
      var j :| 0 <= j < |b| && b[j] == a[0];
      RemovedCount(a, 0);
      RemovedCount(b, j);
      assert multiset(Removed(a, 0)) == multiset(a) - multiset{a[0]} == multiset(Removed(b, j));
      MapMultiset(f, Removed(a, 0), Removed(b, j));
      MapRemoved(f, a, 0);
      MapRemoved(f, b, j);
    }
  }

  lemma MapRemoved<A, B>(f: A -> B, s: seq<A>, j: nat)
    requires j < |s|
    ensures multiset(Map(f, s)) == multiset(Map(f, Removed(s, j))) + multiset{f(s[j])}
  {
    RemovedCount(Map(f, s), j);
    assert Removed(Map(f, s), j) == Map(f, Removed(s, j));
  }

  // ---------------------------------------------------------------------------
  // The normal form
  // ---------------------------------------------------------------------------

  function Encoded(lossy: Text -> Text, query: Text): seq<Pair> {
    Sort(Map(Escaped, Meanings(lossy, query)))
  }

  lemma EncodedClean(lossy: Text -> Text, query: Text)
    ensures AllClean(Encoded(lossy, query)) && |Encoded(lossy, query)| > 0
    ensures forall p :: p in Encoded(lossy, query) ==> exists m :: m in Meanings(lossy, query) && p == Escaped(m)
  {
    hide Sort, Split, Escape, Unescape, SplitOnce;
    var pairs := Map(Escaped, Meanings(lossy, query));
    SortLaws(pairs);
    forall i | 0 <= i < |Encoded(lossy, query)|
      ensures Clean(Encoded(lossy, query)[i].key) && Clean(Encoded(lossy, query)[i].value)
      ensures exists m :: m in Meanings(lossy, query) && Encoded(lossy, query)[i] == Escaped(m)
    {
      var p := Encoded(lossy, query)[i];
      assert p in multiset(Sort(pairs)) && p in pairs;
      var j :| 0 <= j < |pairs| && pairs[j] == p;
      assert Meanings(lossy, query)[j] in Meanings(lossy, query);
      EscapeClean(Meanings(lossy, query)[j].key);
      EscapeClean(Meanings(lossy, query)[j].value);
    }
  }

  /** The pairs a canonical query means are those of the query, sorted. */
  lemma CanonicalMeans(lossy: Text -> Text, query: Text)
    requires Lossy(lossy) && |query| > 0
    ensures |Canonical(lossy, query)| > 0
    ensures Map(Escaped, Meanings(lossy, Canonical(lossy, query))) == Encoded(lossy, query)
  {
    hide Sort, Split, Escape, Unescape, SplitOnce, Join, Print, Clean;
    var pairs := Encoded(lossy, query);
    EncodedClean(lossy, query);
    PrintedSplits(pairs);
    var means := Meanings(lossy, Canonical(lossy, query));
    forall i | 0 <= i < |pairs| ensures Escaped(means[i]) == pairs[i] {
      assert pairs[i] in Encoded(lossy, query);
      var m :| m in Meanings(lossy, query) && pairs[i] == Escaped(m);
      MeaningIsLossy(lossy, query, m);
      UnescapeEscape(m.key);
      UnescapeEscape(m.value);
      assert means[i] == Meaning(lossy, Print(pairs[i]));
    }
  }

  lemma MeaningIsLossy(lossy: Text -> Text, query: Text, m: Pair)
    requires Lossy(lossy) && m in Meanings(lossy, query)
    ensures lossy(m.key) == m.key && lossy(m.value) == m.value
  {
    hide Split, Unescape, SplitOnce;
    var i :| 0 <= i < |Split(query, AMPERSAND)| && Meaning(lossy, Split(query, AMPERSAND)[i]) == m;
    var p := SplitOnce(Split(query, AMPERSAND)[i]);
  }

  /** Canonicalising is idempotent. */
  lemma CanonicalIdempotent(lossy: Text -> Text, query: Text)
    requires Lossy(lossy)
    ensures Canonical(lossy, Canonical(lossy, query)) == Canonical(lossy, query)
  {
    if |query| > 0 {
      hide Sort, Split, Escape, Unescape, SplitOnce, Join, Print, Meanings;
      CanonicalMeans(lossy, query);
      var pairs := Encoded(lossy, query);
      SortLaws(Map(Escaped, Meanings(lossy, query)));
      SortLaws(pairs);
      AscendingUnique(Sort(pairs), pairs);
    }
  }

  /** The pairs a query means, each as often as it comes; the empty query means none. */
  function Parameters(lossy: Text -> Text, query: Text): multiset<Pair> {
    if |query| == 0 then multiset{} else multiset(Meanings(lossy, query))
  }

  lemma SomeParameters(lossy: Text -> Text, query: Text)
    requires |query| > 0
    ensures |Canonical(lossy, query)| > 0 && Parameters(lossy, query) != multiset{}
  {
    hide Sort, Escape, Unescape, SplitOnce, Join, Print, Clean, Meaning, Split;
    EncodedClean(lossy, query);
    PrintedSplits(Encoded(lossy, query));
    assert Meanings(lossy, query)[0] in Parameters(lossy, query);
  }

  /**
   * The canonical query is a normal form: two queries, empty or not, have the same one
   * if and only if they mean the same pairs, each as often, in whatever order and spelling.
   */
  lemma NormalFormIff(lossy: Text -> Text, a: Text, b: Text)
    ensures Canonical(lossy, a) == Canonical(lossy, b) <==> Parameters(lossy, a) == Parameters(lossy, b)
  {
    hide Sort, Split, Escape, Unescape, SplitOnce, Join, Print, Meanings, Clean;
    if |a| > 0 { SomeParameters(lossy, a); }
    if |b| > 0 { SomeParameters(lossy, b); }
    if |a| > 0 && |b| > 0 { SameForm(lossy, a, b); }
  }

  lemma SameForm(lossy: Text -> Text, a: Text, b: Text)
    requires |a| > 0 && |b| > 0
    ensures Canonical(lossy, a) == Canonical(lossy, b) <==> multiset(Meanings(lossy, a)) == multiset(Meanings(lossy, b))
  {
    hide Sort, Split, Escape, Unescape, SplitOnce, Join, Print, Meanings, Clean;
    var x, y := Map(Escaped, Meanings(lossy, a)), Map(Escaped, Meanings(lossy, b));
    SortLaws(x);
    SortLaws(y);
    if multiset(Meanings(lossy, a)) == multiset(Meanings(lossy, b)) {
      MapMultiset(Escaped, Meanings(lossy, a), Meanings(lossy, b));
      AscendingUnique(Sort(x), Sort(y));
    }
    if Canonical(lossy, a) == Canonical(lossy, b) {
      EncodedClean(lossy, a);
      EncodedClean(lossy, b);
      PrintedSplits(Sort(x));
      PrintedSplits(Sort(y));
      PrintInjective(Sort(x), Sort(y));
      MapMultiset(Unescaped, x, y);
      UnescapedBack(Meanings(lossy, a));
      UnescapedBack(Meanings(lossy, b));
    }
  }

  lemma PrintInjective(x: seq<Pair>, y: seq<Pair>)
    requires Map(Print, x) == Map(Print, y)
    requires forall i :: 0 <= i < |x| ==> SplitOnce(Print(x[i])) == x[i]
    requires forall i :: 0 <= i < |y| ==> SplitOnce(Print(y[i])) == y[i]
    ensures x == y
  {
    hide SplitOnce, Print;
    assert |x| == |Map(Print, x)| == |Map(Print, y)| == |y|;
    forall i | 0 <= i < |x| ensures x[i] == y[i] {
      assert Map(Print, x)[i] == Print(x[i]) && Map(Print, y)[i] == Print(y[i]);
    }
  }

  lemma UnescapedBack(pairs: seq<Pair>)
    ensures Map(Unescaped, Map(Escaped, pairs)) == pairs
  {
    forall i | 0 <= i < |pairs| ensures Unescaped(Escaped(pairs[i])) == pairs[i] {
      UnescapeEscape(pairs[i].key);
      UnescapeEscape(pairs[i].value);
    }
  }

  // ---------------------------------------------------------------------------
  // Spelling
  // ---------------------------------------------------------------------------

  /** A percent escape of `c`, in either case. */
  predicate Spells(e: Text, c: Octet) {
    |e| == 3 && e[0] == PERCENT && Digit(e[1]) == Some(c / 16) && Digit(e[2]) == Some(c % 16)
  }

  predicate IsDigit(o: Octet) {
    Digit(o).Some?
  }

  /** Between `a` and `b` the raw character `c` becomes part of an escape. */
  predicate Joins(a: Text, c: Octet, b: Text) {
    || (c == PERCENT && |b| >= 2 && IsDigit(b[0]) && IsDigit(b[1]))
    || (IsDigit(c) && |b| >= 1 && IsDigit(b[0]) && |a| >= 1 && a[|a| - 1] == PERCENT)
    || (IsDigit(c) && |a| >= 2 && a[|a| - 2] == PERCENT && IsDigit(a[|a| - 1]))
  }

  function LastPiece(a: Text): Text {
    var pieces := Split(a, AMPERSAND);
    pieces[|pieces| - 1]
  }

  /** Behind `a` the raw character `c` delimits: an ampersand, or the first equals sign of its piece. */
  predicate Delimits(a: Text, c: Octet) {
    c == AMPERSAND || (c == EQUALS && EQUALS !in LastPiece(a))
  }

  lemma DropFront<T>(a: seq<T>, m: seq<T>, b: seq<T>, n: nat)
    requires n <= |a|
    ensures (a + m + b)[n..] == a[n..] + m + b
  {
  }

  /** Decoding step by step: two digits behind a percent sign are one character, anything else is itself. */
  lemma UnescapeOther(o: Octet, s: Text)
    requires o != PERCENT
    ensures Unescape([o] + s) == [o] + Unescape(s)
  {
    assert ([o] + s)[1..] == s;
  }

  lemma UnescapeDigits(x: Octet, y: Octet, s: Text)
    requires IsDigit(x) && IsDigit(y)
    ensures Unescape([PERCENT, x, y] + s) == [16 * Digit(x).value + Digit(y).value] + Unescape(s)
  {
    assert ([PERCENT, x, y] + s)[3..] == s;
  }

  lemma UnescapePercent(s: Text)
    requires !(|s| >= 2 && IsDigit(s[0]) && IsDigit(s[1]))
    ensures Unescape([PERCENT] + s) == [PERCENT] + Unescape(s)
  {
    assert ([PERCENT] + s)[1..] == s;
  }

  lemma DigitIsPlain(x: Octet)
    ensures IsDigit(x) ==> x != PERCENT && x != AMPERSAND && x != EQUALS
  {
  }

  lemma SpelledFirst(c: Octet, e: Text, b: Text)
    requires Spells(e, c)
    ensures Unescape(e + b) == [c] + Unescape(b)
    ensures Unescape([c] + b) == [c] + Unescape(b) <==> !Joins([], c, b)
  {
    hide Unescape, Digit;
    assert e == [PERCENT, e[1], e[2]] && c == 16 * (c / 16) + c % 16;
    UnescapeDigits(e[1], e[2], b);
    if c != PERCENT {
      UnescapeOther(c, b);
    } else if Joins([], c, b) {
      var x, y, rest := b[0], b[1], b[2..];
      DigitIsPlain(x);
      DigitIsPlain(y);
      UnescapeDigits(x, y, rest);
      UnescapeOther(y, rest);
      UnescapeOther(x, [y] + rest);
      assert b == [x] + ([y] + rest) && [c] + b == [PERCENT, x, y] + rest;
    } else {
      UnescapePercent(b);
    }
  }

  /** The character completes an escape that `a` begins: one octet raw, three when encoded. */
  lemma SpelledBehindPercent(c: Octet, e: Text, b: Text)
    requires Spells(e, c) && IsDigit(c) && |b| >= 1 && IsDigit(b[0])
    ensures Unescape([PERCENT] + [c] + b) != Unescape([PERCENT] + e + b)
  {
    hide Unescape, Digit;
    var x, rest := b[0], b[1..];
    DigitIsPlain(x);
    assert b == [x] + rest;
    UnescapeDigits(c, x, rest);
    assert [PERCENT] + [c] + b == [PERCENT, c, x] + rest;
    UnescapeOther(x, rest);
    SpelledFirst(c, e, b);
    DigitIsPlain((e + b)[0]);
    UnescapePercent(e + b);
    assert [PERCENT] + e + b == [PERCENT] + (e + b);
  }

  lemma SpelledBehindDigit(x: Octet, c: Octet, e: Text, b: Text)
    requires Spells(e, c) && IsDigit(c) && IsDigit(x)
    ensures Unescape([PERCENT, x] + [c] + b) != Unescape([PERCENT, x] + e + b)
  {
    hide Unescape, Digit;
    UnescapeDigits(x, c, b);
    assert [PERCENT, x] + [c] + b == [PERCENT, x, c] + b;
    SpelledFirst(c, e, b);
    DigitIsPlain(x);
    UnescapeOther(x, e + b);
    var rest := [x] + (e + b);
    DigitIsPlain(rest[1]);
    UnescapePercent(rest);
    assert [PERCENT, x] + e + b == [PERCENT] + rest;
  }

  /** The first step of decoding reads `n` octets of `a`, whatever follows. */
  lemma UnescapeStep(a: Text, m: Text, b: Text, n: nat)
    requires |a| > 0 && n == (if EscapeAt(a) then 3 else 1) && EscapeAt(a + m + b) == EscapeAt(a)
    ensures n <= |a|
    ensures Unescape(a + m + b) == [if EscapeAt(a) then 16 * Digit(a[1]).value + Digit(a[2]).value else a[0]] + Unescape(a[n..] + m + b)
  {
    hide Digit;
    var s := a + m + b;
    DropFront(a, m, b, n);
    assert s[0] == a[0] && (n == 3 ==> s[1] == a[1] && s[2] == a[2]);
  }

  lemma SameRest(s: Text, t: Text, p: Text, q: Text)
    requires |s| > 0 && |t| > 0 && s == [s[0]] + p && t == [t[0]] + q && s[0] == t[0]
    ensures s == t <==> p == q
  {
    assert s[1..] == p && t[1..] == q;
  }

  lemma JoinsBehind(a: Text, c: Octet, b: Text, n: nat)
    requires |a| > 0 && n == (if EscapeAt(a) then 3 else 1)
    requires !(a == [PERCENT] && IsDigit(c) && |b| >= 1 && IsDigit(b[0])) && !(|a| == 2 && a[0] == PERCENT && IsDigit(a[1]) && IsDigit(c))
    ensures Joins(a, c, b) <==> Joins(a[n..], c, b)
  {
    hide Digit;
    if EscapeAt(a) {
      DigitIsPlain(a[1]);
      DigitIsPlain(a[2]);
    }
  }

  /** Decoded, it makes no difference whether `c` is raw or encoded if and only if it does not become part of an escape. */
  lemma {:induction false} SpelledUnescapes(a: Text, c: Octet, e: Text, b: Text)
    requires Spells(e, c)
    ensures Unescape(a + [c] + b) == Unescape(a + e + b) <==> !Joins(a, c, b)
  {
    hide Digit, Unescape;
    DigitIsPlain(PERCENT);
    if |a| == 0 {
      SpelledFirst(c, e, b);
      assert a + [c] + b == [c] + b && a + e + b == e + b;
    } else if a == [PERCENT] && IsDigit(c) && |b| >= 1 && IsDigit(b[0]) {
      SpelledBehindPercent(c, e, b);
    } else if |a| == 2 && a[0] == PERCENT && IsDigit(a[1]) && IsDigit(c) {
      assert a == [PERCENT, a[1]];
      SpelledBehindDigit(a[1], c, e, b);
    } else {
      var n := if EscapeAt(a) then 3 else 1;
      SpelledEscapeAt(a, c, e, b);
      SpelledUnescapes(a[n..], c, e, b);
      UnescapeStep(a, [c], b, n);
      UnescapeStep(a, e, b, n);
      SameRest(Unescape(a + [c] + b), Unescape(a + e + b), Unescape(a[n..] + [c] + b), Unescape(a[n..] + e + b));
      JoinsBehind(a, c, b, n);
    }
  }

  lemma SpelledEscapeAt(a: Text, c: Octet, e: Text, b: Text)
    requires Spells(e, c) && |a| > 0
    requires !(a == [PERCENT] && IsDigit(c) && |b| >= 1 && IsDigit(b[0])) && !(|a| == 2 && a[0] == PERCENT && IsDigit(a[1]) && IsDigit(c))
    ensures EscapeAt(a + [c] + b) == EscapeAt(a + e + b) == EscapeAt(a)
  {
    hide Digit;
    DigitIsPlain(PERCENT);
    var raw, esc := a + [c] + b, a + e + b;
    if |a| == 2 { assert raw[2] == c && esc[2] == PERCENT; }
    if |a| == 1 { assert raw[1] == c && esc[1] == PERCENT && (|raw| >= 3 ==> raw[2] == b[0]); }
  }

  /** The pieces of two texts written one behind the other. */
  function Glued(p: seq<Text>, q: seq<Text>): seq<Text>
    requires |p| > 0 && |q| > 0
  {
    p[..|p| - 1] + [p[|p| - 1] + q[0]] + q[1..]
  }

  lemma {:induction false} SplitGlued(a: Text, b: Text)
    ensures Split(a + b, AMPERSAND) == Glued(Split(a, AMPERSAND), Split(b, AMPERSAND))
  {
    if |a| == 0 {
      assert a + b == b;
      assert [] + Split(b, AMPERSAND)[0] == Split(b, AMPERSAND)[0];
    } else {
      SplitGlued(a[1..], b);
      assert (a + b)[1..] == a[1..] + b;
      var p, q := Split(a[1..], AMPERSAND), Split(b, AMPERSAND);
      if a[0] == AMPERSAND {
        GluedBehind([], p, q);
      } else {
        GluedInto(a[0], p, q);
      }
    }
  }

  lemma GluedBehind(x: Text, p: seq<Text>, q: seq<Text>)
    requires |p| > 0 && |q| > 0
    ensures Glued([x] + p, q) == [x] + Glued(p, q)
  {
    assert ([x] + p)[..|p|] == [x] + p[..|p| - 1];
  }

  lemma GluedInto(o: Octet, p: seq<Text>, q: seq<Text>)
    requires |p| > 0 && |q| > 0
    ensures Glued([[o] + p[0]] + p[1..], q) == [[o] + Glued(p, q)[0]] + Glued(p, q)[1..]
  {
    if |p| == 1 {
      assert ([o] + p[0]) + q[0] == [o] + (p[0] + q[0]);
    } else {
      assert ([[o] + p[0]] + p[1..])[..|p| - 1] == [[o] + p[0]] + p[..|p| - 1][1..];
    }
  }

  lemma {:induction false} SplitPlainFirst(m: Text, b: Text)
    requires AMPERSAND !in m
    ensures var rest := Split(b, AMPERSAND); Split(m + b, AMPERSAND) == [m + rest[0]] + rest[1..]
  {
    SplitPlain(m, AMPERSAND);
    SplitGlued(m, b);
  }

  lemma SpelledIsPlain(c: Octet, e: Text)
    requires Spells(e, c)
    ensures AMPERSAND !in e && EQUALS !in e
  {
    hide Digit;
    DigitIsPlain(e[1]);
    DigitIsPlain(e[2]);
    assert e == [PERCENT, e[1], e[2]];
  }

  /** Text `m` between `a` and `b`, without an ampersand, is in the piece where `a` ends and `b` begins. */
  lemma SplitMiddle(a: Text, m: Text, b: Text)
    requires AMPERSAND !in m
    ensures var p, q, r := Split(a, AMPERSAND), Split(b, AMPERSAND), Split(a + m + b, AMPERSAND);
            && |r| == |p| + |q| - 1 && r == Glued(p, q)[|p| - 1 := LastPiece(a) + m + q[0]]
  {
    hide Split;
    SplitGlued(a, m + b);
    SplitPlainFirst(m, b);
    assert a + m + b == a + (m + b);
    assert LastPiece(a) + m + Split(b, AMPERSAND)[0] == LastPiece(a) + (m + Split(b, AMPERSAND)[0]);
  }

  lemma SplitOnceStep(s: Text)
    requires |s| > 0
    ensures var p := SplitOnce(s[1..]);
            SplitOnce(s) == if s[0] == EQUALS then Pair([], s[1..]) else Pair([s[0]] + p.key, p.value)
  {
  }

  lemma HeadOrTail(x: Text)
    requires |x| > 0
    ensures EQUALS in x <==> x[0] == EQUALS || EQUALS in x[1..]
  {
    assert x == [x[0]] + x[1..];
  }

  /** Key and value of two texts written one behind the other. */
  lemma {:induction false} SplitOnceGlued(x: Text, t: Text)
    ensures SplitOnce(x + t) == if EQUALS in x then Pair(SplitOnce(x).key, SplitOnce(x).value + t)
                                else Pair(x + SplitOnce(t).key, SplitOnce(t).value)
  {
    hide SplitOnce;
    if |x| == 0 {
      assert x + t == t;
      assert [] + SplitOnce(t).key == SplitOnce(t).key;
    } else {
      SplitOnceGlued(x[1..], t);
      SplitOnceStep(x);
      SplitOnceStep(x + t);
      assert (x + t)[1..] == x[1..] + t;
      assert [x[0]] + (x[1..] + SplitOnce(t).key) == x + SplitOnce(t).key;
      HeadOrTail(x);
    }
  }

  predicate Breaks(o: Octet) {
    o == AMPERSAND || o == EQUALS
  }

  /** `x` is what stands behind a delimiter in `a`, `y` what stands before one in `b`. */
  predicate Ends(a: Text, x: Text) {
    |x| <= |a| && a[|a| - |x|..] == x && (|x| < |a| ==> Breaks(a[|a| - |x| - 1]))
  }

  predicate Begins(b: Text, y: Text) {
    |y| <= |b| && b[..|y|] == y && (|y| < |b| ==> Breaks(b[|y|]))
  }

  lemma JoinsLocally(a: Text, c: Octet, b: Text, x: Text, y: Text)
    requires Ends(a, x) && Begins(b, y)
    ensures Joins(a, c, b) <==> Joins(x, c, y)
  {
    hide Digit;
    DigitIsPlain(AMPERSAND);
    DigitIsPlain(EQUALS);
    assert |x| >= 1 ==> x[|x| - 1] == a[|a| - 1];
    assert |x| >= 2 ==> x[|x| - 2] == a[|a| - 2];
    assert |y| >= 1 ==> y[0] == b[0];
    assert |y| >= 2 ==> y[1] == b[1];
  }

  lemma {:induction false} FirstPieceBegins(b: Text)
    ensures Begins(b, Split(b, AMPERSAND)[0])
  {
    if |b| > 0 && b[0] != AMPERSAND {
      FirstPieceBegins(b[1..]);
      var y := Split(b[1..], AMPERSAND)[0];
      assert b[..|y| + 1] == [b[0]] + b[1..][..|y|];
    }
  }

  lemma EndsMore(a: Text, x: Text)
    requires |a| > 0 && Ends(a[1..], x) && (|x| < |a[1..]| || Breaks(a[0]))
    ensures Ends(a, x)
  {
    assert a[1..][|a| - 1 - |x|..] == a[|a| - |x|..];
  }

  lemma {:induction false} LastPieceEnds(a: Text)
    ensures Ends(a, LastPiece(a))
    ensures |Split(a, AMPERSAND)| > 1 ==> |LastPiece(a)| < |a|
  {
    hide Ends, Split, LastPiece;
    if |a| == 0 {
      NoPiece();
      Whole([]);
    } else {
      LastPieceEnds(a[1..]);
      LastPieceStep(a);
      if |Split(a[1..], AMPERSAND)| > 1 || a[0] == AMPERSAND {
        assert |a[1..]| < |a|;
        assert |LastPiece(a[1..])| <= |a[1..]| by { EndsLength(a[1..], LastPiece(a[1..])); }
        EndsMore(a, LastPiece(a[1..]));
      } else {
        Whole(a);
      }
    }
  }

  lemma NoPiece()
    ensures Split([], AMPERSAND) == [[]] && LastPiece([]) == []
  {
  }

  lemma EndsLength(a: Text, x: Text)
    requires Ends(a, x)
    ensures |x| <= |a|
  {
  }

  lemma LastOfMore(o: Octet, p: seq<Text>)
    requires |p| > 0
    ensures ([[]] + p)[|p|] == p[|p| - 1]
    ensures |p| > 1 ==> ([[o] + p[0]] + p[1..])[|p| - 1] == p[|p| - 1]
  {
  }

  lemma LastPieceStep(a: Text)
    requires |a| > 0
    ensures var p := Split(a[1..], AMPERSAND);
            if |p| > 1 || a[0] == AMPERSAND then LastPiece(a) == LastPiece(a[1..])
            else LastPiece(a) == a && |Split(a, AMPERSAND)| == 1
  {
    hide Split;
    var p := Split(a[1..], AMPERSAND);
    assert Split(a, AMPERSAND) == (if a[0] == AMPERSAND then [[]] + p else [[a[0]] + p[0]] + p[1..]) by { SplitStep(a); }
    LastOfMore(a[0], p);
    if |p| == 1 && a[0] != AMPERSAND {
      OnePiece(a[1..]);
      assert a == [a[0]] + a[1..];
    }
  }

  lemma SplitStep(a: Text)
    requires |a| > 0
    ensures var p := Split(a[1..], AMPERSAND);
            Split(a, AMPERSAND) == if a[0] == AMPERSAND then [[]] + p else [[a[0]] + p[0]] + p[1..]
  {
  }

  lemma {:induction false} OnePiece(a: Text)
    requires |Split(a, AMPERSAND)| == 1
    ensures Split(a, AMPERSAND) == [a]
  {
    if |a| > 0 {
      OnePiece(a[1..]);
      assert a == [a[0]] + a[1..];
    }
  }

  lemma {:induction false} KeyBegins(y: Text)
    ensures Begins(y, SplitOnce(y).key)
  {
    if |y| > 0 && y[0] != EQUALS {
      KeyBegins(y[1..]);
      var k := SplitOnce(y[1..]).key;
      assert y[..|k| + 1] == [y[0]] + y[1..][..|k|];
    }
  }

  lemma {:induction false} ValueEnds(x: Text)
    requires EQUALS in x
    ensures Ends(x, SplitOnce(x).value) && |SplitOnce(x).value| < |x|
  {
    hide Ends;
    if x[0] == EQUALS {
      Whole(x[1..]);
      EndsMore(x, x[1..]);
    } else {
      assert x == [x[0]] + x[1..];
      ValueEnds(x[1..]);
      EndsMore(x, SplitOnce(x[1..]).value);
    }
  }

  /** In one piece: the pair is the same if and only if `c` joins no escape and is not the piece's first equals sign. */
  lemma SpelledPairIff(x: Text, c: Octet, e: Text, y: Text)
    requires Spells(e, c)
    ensures Unescaped(SplitOnce(x + [c] + y)) == Unescaped(SplitOnce(x + e + y)) <==> !Joins(x, c, y) && !(c == EQUALS && EQUALS !in x)
  {
    hide Unescape, Joins, Spells, SplitOnce, Ends, Begins;
    assert x + [c] + y == x + ([c] + y) && x + e + y == x + (e + y);
    SpelledIsPlain(c, e);
    SplitOnceGlued(x, [c] + y);
    SplitOnceGlued(x, e + y);
    if EQUALS in x {
      var u := SplitOnce(x).value;
      ValueEnds(x);
      assert Begins(y, y) by { Whole(y); }
      JoinsLocally(x, c, y, u, y);
      SpelledUnescapes(u, c, e, y);
      assert u + ([c] + y) == u + [c] + y && u + (e + y) == u + e + y;
    } else {
      var v := SplitOnce(y).key;
      SplitOnceGlued(e, y);
      KeyBegins(y);
      assert Ends(x, x) by { Whole(x); }
      JoinsLocally(x, c, y, x, v);
      SpelledUnescapes(x, c, e, v);
      assert x + (e + v) == x + e + v;
      if c == EQUALS {
        FirstEquals(x, y);
        UnescapeBehind(x, v);
        EqualsJoinsNothing(x, v);
      } else {
        SplitOnceGlued([c], y);
        assert x + ([c] + v) == x + [c] + v;
      }
    }
  }

  lemma Whole(x: Text)
    ensures Ends(x, x) && Begins(x, x)
  {
  }

  lemma EqualsJoinsNothing(x: Text, v: Text)
    ensures !Joins(x, EQUALS, v)
  {
  }

  lemma FirstEquals(x: Text, y: Text)
    ensures SplitOnce([EQUALS] + y) == Pair([], y) && x + [] == x
  {
    assert ([EQUALS] + y)[1..] == y;
  }

  /** What stands behind an equals sign only adds to what is decoded. */
  lemma {:induction false} UnescapeBehind(x: Text, v: Text)
    ensures |Unescape(x + [EQUALS] + v)| > |Unescape(x)|
  {
    hide Digit;
    DigitIsPlain(EQUALS);
    var s := x + [EQUALS] + v;
    if |x| > 0 {
      assert |x| <= 2 ==> s[|x|] == EQUALS;
      assert EscapeAt(s) == EscapeAt(x);
      var n := if EscapeAt(x) then 3 else 1;
      DropFront(x, [EQUALS], v, n);
      UnescapeBehind(x[n..], v);
    }
  }

  lemma MeaningsOf(lossy: Text -> Text, query: Text)
    ensures |Meanings(lossy, query)| == |Split(query, AMPERSAND)|
    ensures forall i :: 0 <= i < |Split(query, AMPERSAND)| ==> Meanings(lossy, query)[i] == Meaning(lossy, Split(query, AMPERSAND)[i])
  {
    hide Split, Meaning;
  }

  lemma OneDiffers<T>(a: seq<T>, b: seq<T>, i: nat)
    requires |a| == |b| && i < |a| && forall j :: 0 <= j < |a| && j != i ==> a[j] == b[j]
    ensures multiset(a) == multiset(b) <==> a[i] == b[i]
  {
    RemovedCount(a, i);
    RemovedCount(b, i);
    assert Removed(a, i) == Removed(b, i);
    if a[i] != b[i] {
      assert multiset(a)[a[i]] == multiset(Removed(a, i))[a[i]] + 1;
      assert multiset(b)[a[i]] == multiset(Removed(a, i))[a[i]];
    } else {
      assert a == b;
    }
  }

  lemma MoreMeanings(lossy: Text -> Text, a: Text, e: Text, b: Text)
    requires AMPERSAND !in e
    ensures multiset(Meanings(lossy, a + [AMPERSAND] + b)) != multiset(Meanings(lossy, a + e + b))
  {
    hide Split, Meaning, Meanings;
    var raw, esc := a + [AMPERSAND] + b, a + e + b;
    SplitGlued(a, [AMPERSAND] + b);
    AmpersandFirst(b);
    assert raw == a + ([AMPERSAND] + b);
    SplitMiddle(a, e, b);
    MeaningsOf(lossy, raw);
    MeaningsOf(lossy, esc);
    assert |multiset(Meanings(lossy, raw))| == |Meanings(lossy, raw)| && |multiset(Meanings(lossy, esc))| == |Meanings(lossy, esc)|;
  }

  lemma AmpersandFirst(b: Text)
    ensures |Split([AMPERSAND] + b, AMPERSAND)| == |Split(b, AMPERSAND)| + 1
  {
    assert ([AMPERSAND] + b)[1..] == b;
  }

  /** Respelling changes the meaning of one piece at most. */
  lemma SameMeanings(lossy: Text -> Text, a: Text, c: Octet, e: Text, b: Text)
    requires Spells(e, c) && c != AMPERSAND
    ensures var x, y := LastPiece(a), Split(b, AMPERSAND)[0];
            multiset(Meanings(lossy, a + [c] + b)) == multiset(Meanings(lossy, a + e + b)) <==>
              Meaning(lossy, x + [c] + y) == Meaning(lossy, x + e + y)
  {
    hide Split, Meaning, Meanings, LastPiece, Spells;
    var raw, esc, i := a + [c] + b, a + e + b, |Split(a, AMPERSAND)| - 1;
    SpelledIsPlain(c, e);
    SplitMiddle(a, [c], b);
    SplitMiddle(a, e, b);
    MeaningsOf(lossy, raw);
    MeaningsOf(lossy, esc);
    OneDiffers(Meanings(lossy, raw), Meanings(lossy, esc), i);
  }

  lemma SameMeaning(lossy: Text -> Text, p: Text, q: Text)
    ensures Unescaped(SplitOnce(p)) == Unescaped(SplitOnce(q)) ==> Meaning(lossy, p) == Meaning(lossy, q)
    ensures (forall s: Text :: lossy(s) == s) && Meaning(lossy, p) == Meaning(lossy, q) ==> Unescaped(SplitOnce(p)) == Unescaped(SplitOnce(q))
  {
    hide SplitOnce, Unescape;
  }

  /**
   * Whether a character arrives raw or percent-encoded makes no difference, anywhere in
   * any query, if it neither delimits there nor becomes part of an escape. When decoding
   * loses nothing, only if.
   */
  lemma SpellingIrrelevantIff(lossy: Text -> Text, a: Text, c: Octet, e: Text, b: Text)
    requires Spells(e, c)
    ensures !Delimits(a, c) && !Joins(a, c, b) ==> Canonical(lossy, a + [c] + b) == Canonical(lossy, a + e + b)
    ensures (forall s: Text :: lossy(s) == s) ==>
              (Canonical(lossy, a + [c] + b) == Canonical(lossy, a + e + b) <==> !Delimits(a, c) && !Joins(a, c, b))
  {
    hide Split, Meaning, Meanings, LastPiece, Digit, Joins, Canonical, SplitOnce, Unescape, Unescaped, Ends, Begins;
    assert |a + [c] + b| > 0 && |a + e + b| > 0 by { assert |e| == 3; }
    SameForm(lossy, a + [c] + b, a + e + b);
    SpelledIsPlain(c, e);
    if c == AMPERSAND {
      MoreMeanings(lossy, a, e, b);
    } else {
      var x, y := LastPiece(a), Split(b, AMPERSAND)[0];
      SameMeanings(lossy, a, c, e, b);
      SameMeaning(lossy, x + [c] + y, x + e + y);
      SpelledPairIff(x, c, e, y);
      LastPieceEnds(a);
      FirstPieceBegins(b);
      JoinsLocally(a, c, b, x, y);
    }
  }

  // ---------------------------------------------------------------------------
  // The form itself
  // ---------------------------------------------------------------------------

  const HEX_DIGITS := "0123456789ABCDEF"

  /** The characters left as they are: letters, digits, hyphen, full stop, low line, tilde. */
  predicate Raw(c: char) {
    'A' <= c <= 'Z' || 'a' <= c <= 'z' || '0' <= c <= '9' || c == '-' || c == '.' || c == '_' || c == '~'
  }

  function Characters(s: Text): string {
    seq(|s|, i requires 0 <= i < |s| => s[i] as char)
  }

  /** One octet in print: itself, or a percent sign and two upper-case digits. */
  function InPrint(o: Octet): string {
    if Raw(o as char) then [o as char] else ['%', HEX_DIGITS[o / 16], HEX_DIGITS[o % 16]]
  }

  function AllInPrint(s: Text): string {
    if |s| == 0 then [] else InPrint(s[0]) + AllInPrint(s[1..])
  }

  lemma UpperHexInPrint(d: nat)
    requires d < 16
    ensures UpperHex(d) as char == HEX_DIGITS[d]
  {
    assert HEX_DIGITS[..10] == "0123456789" && HEX_DIGITS[10..] == "ABCDEF";
    if d < 10 { assert HEX_DIGITS[d] == "0123456789"[d]; } else { assert HEX_DIGITS[d] == "ABCDEF"[d - 10]; }
  }

  lemma OctetInPrint(o: Octet)
    ensures Characters(if Unreserved(o) then [o] else [PERCENT, UpperHex(o / 16), UpperHex(o % 16)]) == InPrint(o)
  {
    hide UpperHex;
    UpperHexInPrint(o / 16);
    UpperHexInPrint(o % 16);
    assert PERCENT as char == '%';
  }

  lemma JoinedCharacters(a: Text, b: Text)
    ensures Characters(a + b) == Characters(a) + Characters(b)
  {
  }

  /** The encoding in print: the unreserved characters of section 2.3 of RFC 3986 raw, every other octet as an upper-case escape. */
  lemma {:induction false} EscapedInPrint(s: Text)
    ensures Characters(Escape(s)) == AllInPrint(s)
  {
    if |s| > 0 {
      hide Unreserved, UpperHex, InPrint;
      EscapedInPrint(s[1..]);
      OctetInPrint(s[0]);
      JoinedCharacters(if Unreserved(s[0]) then [s[0]] else [PERCENT, UpperHex(s[0] / 16), UpperHex(s[0] % 16)], Escape(s[1..]));
    }
  }

  /** Pairs in print: each as key, equals sign and value, an ampersand between one and the next. */
  function PairsInPrint(pairs: seq<Pair>): string {
    if |pairs| == 0 then ""
    else AllInPrint(pairs[0].key) + "=" + AllInPrint(pairs[0].value) + (if |pairs| == 1 then "" else "&" + PairsInPrint(pairs[1..]))
  }

  lemma OnePairInPrint(p: Pair)
    ensures Characters(Print(Escaped(p))) == AllInPrint(p.key) + "=" + AllInPrint(p.value)
  {
    hide Escape, AllInPrint;
    EscapedInPrint(p.key);
    EscapedInPrint(p.value);
    JoinedCharacters(Escape(p.key) + [EQUALS], Escape(p.value));
    JoinedCharacters(Escape(p.key), [EQUALS]);
    assert Characters([EQUALS]) == "=";
  }

  lemma AmpersandInPrint()
    ensures Characters([AMPERSAND]) == "&"
  {
  }

  lemma {:induction false} JoinInPrint(pairs: seq<Pair>)
    ensures Characters(Join(Map(Print, Map(Escaped, pairs)))) == PairsInPrint(pairs)
  {
    if |pairs| > 0 {
      hide Escaped, Print, AllInPrint, Characters;
      OnePairInPrint(pairs[0]);
      var pieces := Map(Print, Map(Escaped, pairs));
      if |pairs| > 1 {
        JoinInPrint(pairs[1..]);
        assert pieces[1..] == Map(Print, Map(Escaped, pairs[1..]));
        var first, rest := pieces[0], Join(pieces[1..]);
        JoinedCharacters(first + [AMPERSAND], rest);
        JoinedCharacters(first, [AMPERSAND]);
        assert Characters([AMPERSAND]) == "&" by { AmpersandInPrint(); }
      }
    }
  }

  /**
   * The canonical query in print: the pairs the query means, each as often as it comes,
   * sorted by encoded key and then by encoded value.
   */
  lemma CanonicalInPrint(lossy: Text -> Text, query: Text) returns (pairs: seq<Pair>)
    ensures multiset(pairs) == Parameters(lossy, query)
    ensures Characters(Canonical(lossy, query)) == PairsInPrint(pairs)
    ensures forall i, j :: 0 <= i < j < |pairs| ==> Before(Escape(pairs[i].key), Escape(pairs[j].key))
    ensures forall i, j :: 0 <= i < j < |pairs| && pairs[i].key == pairs[j].key ==> Before(Escape(pairs[i].value), Escape(pairs[j].value))
  {
    pairs := [];
    if |query| > 0 {
      hide Sort, Meanings, Join, Print, Before, Escape, PairsInPrint;
      var meant := Meanings(lossy, query);
      var sorted := Sort(Map(Escaped, meant));
      SortLaws(Map(Escaped, meant));
      MapMultiset(Unescaped, sorted, Map(Escaped, meant));
      UnescapedBack(meant);
      pairs := Map(Unescaped, sorted);
      EscapedBack(lossy, query);
      JoinInPrint(pairs);
      forall i, j | 0 <= i < j < |pairs|
        ensures Before(Escape(pairs[i].key), Escape(pairs[j].key))
        ensures pairs[i].key == pairs[j].key ==> Before(Escape(pairs[i].value), Escape(pairs[j].value))
      {
        assert Escaped(pairs[i]) == sorted[i] && Escaped(pairs[j]) == sorted[j];
        assert AtMost(sorted[i], sorted[j]);
        AtMostIsBefore(sorted[i], sorted[j]);
      }
    }
  }

  /** Equal, or lower as octet strings go. */
  ghost predicate Before(a: Text, b: Text) {
    a == b || exists n: nat :: LowerAt(a, b, n)
  }

  lemma AtMostIsBefore(a: Pair, b: Pair)
    requires AtMost(a, b)
    ensures Before(a.key, b.key) && (a.key == b.key ==> Before(a.value, b.value))
  {
    hide Less, LowerAt;
    LessIff(a.key, b.key);
    LessIff(a.value, b.value);
    LessIsStrict(a.key, b.key);
    LessIsStrict(a.value, b.value);
  }

  /** Decoding the encoded pairs of a query and encoding them again changes nothing. */
  lemma EscapedBack(lossy: Text -> Text, query: Text)
    ensures var sorted := Encoded(lossy, query); Map(Escaped, Map(Unescaped, sorted)) == sorted
  {
    hide Sort, Meanings, Escape, Unescape;
    var sorted := Encoded(lossy, query);
    EncodedClean(lossy, query);
    forall i | 0 <= i < |sorted| ensures Escaped(Unescaped(sorted[i])) == sorted[i] {
      assert sorted[i] in sorted;
      var m :| m in Meanings(lossy, query) && sorted[i] == Escaped(m);
      UnescapeEscape(m.key);
      UnescapeEscape(m.value);
    }
  }

  function Identity(s: Text): Text { s }

  /** The law of the decoding can be met: by decoding that loses nothing. */
  lemma LossyExists() returns (lossy: Text -> Text)
    ensures Lossy(lossy)
  {
    lossy := Identity;
    forall s: Text ensures lossy(lossy(s)) == lossy(s) {
      assert lossy(s) == Identity(s);
    }
  }
}

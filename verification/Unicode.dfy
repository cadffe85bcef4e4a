/** Well-formed UTF-8 and white space, octet by octet, as the upload decoder's text library reads them. */
module Unicode {
  import opened Wrappers
  import opened Octets

  predicate Continues(s: seq<Octet>, i: nat) {
    i < |s| && 0x80 <= s[i] < 0xC0
  }

  /** Length of the well-formed UTF-8 character at the start, 0 if there is none (section 4 of RFC 3629). */
  function CharLen(s: seq<Octet>): (n: nat)
    ensures n <= |s|
  {
    if |s| == 0 then 0
    else if s[0] < 0x80 then 1
    else if 0xC2 <= s[0] < 0xE0 && Continues(s, 1) then 2
    else if 0xE0 <= s[0] < 0xF0 && Continues(s, 1) && Continues(s, 2)
            && (s[0] == 0xE0 ==> s[1] >= 0xA0) && (s[0] == 0xED ==> s[1] < 0xA0) then 3
    else if 0xF0 <= s[0] < 0xF5 && Continues(s, 1) && Continues(s, 2) && Continues(s, 3)
            && (s[0] == 0xF0 ==> s[1] >= 0x90) && (s[0] == 0xF4 ==> s[1] < 0x90) then 4
    else 0
  }

  predicate Utf8(s: seq<Octet>) {
    |s| == 0 || (CharLen(s) > 0 && Utf8(s[CharLen(s)..]))
  }

  // White space characters of one, two and three octets.

  predicate Space1(a: Octet) {
    a == 32 || 9 <= a <= 13
  }

  predicate Space2(a: Octet, b: Octet) {
    a == 0xC2 && (b == 0x85 || b == 0xA0)
  }

  predicate Space3(a: Octet, b: Octet, c: Octet) {
    || (a == 0xE1 && b == 0x9A && c == 0x80)
    || (a == 0xE2 && b == 0x80 && (0x80 <= c <= 0x8A || c == 0xA8 || c == 0xA9 || c == 0xAF))
    || (a == 0xE2 && b == 0x81 && c == 0x9F)
    || (a == 0xE3 && b == 0x80 && c == 0x80)
  }

  /** Length of the white space character at the start, 0 if there is none. */
  function SpaceLen(s: seq<Octet>): (n: nat)
    ensures n <= |s|
  {
    if |s| >= 1 && Space1(s[0]) then 1
    else if |s| >= 2 && Space2(s[0], s[1]) then 2
    else if |s| >= 3 && Space3(s[0], s[1], s[2]) then 3
    else 0
  }

  /** Length of the white space character at the end, 0 if there is none. */
  function EndSpaceLen(s: seq<Octet>): (r: nat)
    ensures r <= |s|
  {
    var n := |s|;
    if n >= 1 && Space1(s[n - 1]) then 1
    else if n >= 2 && Space2(s[n - 2], s[n - 1]) then 2
    else if n >= 3 && Space3(s[n - 3], s[n - 2], s[n - 1]) then 3
    else 0
  }

  lemma {:induction false} Utf8Append(a: seq<Octet>, b: seq<Octet>)
    requires Utf8(a) && Utf8(b)
    ensures Utf8(a + b)
  {
    if |a| == 0 {
      assert a + b == b;
    } else {
      var n := CharLen(a);
      assert CharLen(a + b) == n;
      Utf8Append(a[n..], b);
      assert (a + b)[n..] == a[n..] + b;
    }
  }

  lemma {:induction false} AsciiIsUtf8(s: seq<Octet>)
    requires forall i :: 0 <= i < |s| ==> s[i] < 128
    ensures Utf8(s)
  {
    if |s| > 0 {
      AsciiIsUtf8(s[1..]);
    }
  }

  // ---------------------------------------------------------------------------
  // By code points
  // ---------------------------------------------------------------------------

  /** The code points that are characters: all but the surrogates. */
  predicate Scalar(c: nat) {
    c < 0xD800 || 0xE000 <= c < 0x11_0000
  }

  /** The encoding of one character (section 3 of RFC 3629). */
  function Encode(c: nat): (r: seq<Octet>)
    requires Scalar(c)
    ensures 1 <= |r| <= 4
  {
    if c < 0x80 then [c]
    else if c < 0x800 then [0xC0 + c / 64, 0x80 + c % 64]
    else if c < 0x1_0000 then [0xE0 + c / 4096, 0x80 + c / 64 % 64, 0x80 + c % 64]
    else [0xF0 + c / 262144, 0x80 + c / 4096 % 64, 0x80 + c / 64 % 64, 0x80 + c % 64]
  }

  /** A text starts with character `c`. */
  predicate StartsWithChar(s: seq<Octet>, c: nat) {
    Scalar(c) && Encode(c) <= s
  }

  lemma Two(s: seq<Octet>)
    requires CharLen(s) == 2
    ensures exists c :: StartsWithChar(s, c)
  {
    var a: nat, b: nat := s[0] - 0xC0, s[1] - 0x80;
    var c := a * 64 + b;
    assert c / 64 == a && c % 64 == b;
    assert Encode(c) == s[..2];
    assert StartsWithChar(s, c);
  }

  lemma Three(s: seq<Octet>)
    requires CharLen(s) == 3
    ensures exists c :: StartsWithChar(s, c)
  {
    var a: nat, b: nat, d: nat := s[0] - 0xE0, s[1] - 0x80, s[2] - 0x80;
    var c := (a * 64 + b) * 64 + d;
    assert c / 64 == a * 64 + b && c % 64 == d && c / 4096 == a;
    assert Encode(c) == s[..3];
    assert StartsWithChar(s, c);
  }

  lemma Four(s: seq<Octet>)
    requires CharLen(s) == 4
    ensures exists c :: StartsWithChar(s, c)
  {
    var a: nat, b: nat, d: nat, e: nat := s[0] - 0xF0, s[1] - 0x80, s[2] - 0x80, s[3] - 0x80;
    var c := ((a * 64 + b) * 64 + d) * 64 + e;
    assert c / 64 == (a * 64 + b) * 64 + d && c % 64 == e;
    assert c / 4096 == a * 64 + b && c / 262144 == a;
    assert Encode(c) == s[..4];
    assert StartsWithChar(s, c);
  }

  lemma OneLength(c: nat)
    requires Scalar(c)
    ensures CharLen(Encode(c)) == |Encode(c)|
  {
    hide CharLen;
    if c < 0x80 {
      ShapeOfOne([c]);
    } else if c < 0x800 {
      ShapeOfTwo(c / 64, c % 64);
    } else if c < 0x1_0000 {
      ShapeOfThree(c / 4096, c / 64 % 64, c % 64);
    } else {
      ShapeOfFour(c / 262144, c / 4096 % 64, c / 64 % 64, c % 64);
    }
  }

  lemma ShapeOfOne(s: seq<Octet>)
    requires |s| == 1 && s[0] < 0x80
    ensures CharLen(s) == 1
  {
  }

  lemma ShapeOfTwo(a: nat, b: nat)
    requires 2 <= a < 32 && b < 64
    ensures CharLen([0xC0 + a, 0x80 + b]) == 2
  {
  }

  lemma ShapeOfThree(a: nat, b: nat, c: nat)
    requires a < 16 && b < 64 && c < 64 && (a == 0 ==> b >= 32) && (a == 13 ==> b < 32)
    ensures CharLen([0xE0 + a, 0x80 + b, 0x80 + c]) == 3
  {
  }

  lemma ShapeOfFour(a: nat, b: nat, c: nat, d: nat)
    requires a < 5 && b < 64 && c < 64 && d < 64 && (a == 0 ==> b >= 16) && (a == 4 ==> b < 16)
    ensures CharLen([0xF0 + a, 0x80 + b, 0x80 + c, 0x80 + d]) == 4
  {
  }

  lemma EncodedLength(s: seq<Octet>, c: nat)
    requires StartsWithChar(s, c)
    ensures CharLen(s) == |Encode(c)| && s == Encode(c) + s[CharLen(s)..]
  {
    var e := Encode(c);
    OneLength(c);
    hide Encode, CharLen;
    SameStart(e, s);
  }

  /** What starts a text is found there whatever follows. */
  lemma SameStart(e: seq<Octet>, s: seq<Octet>)
    requires e <= s && |e| > 0 && CharLen(e) == |e|
    ensures CharLen(s) == |e| && s == e + s[|e|..]
  {
    assert forall i :: 0 <= i < |e| ==> s[i] == e[i];
  }

  /** A character is found at the start of a text exactly when the text starts with its encoding. */
  lemma CharLenIff(s: seq<Octet>)
    ensures CharLen(s) > 0 <==> exists c :: StartsWithChar(s, c)
    ensures forall c :: StartsWithChar(s, c) ==> CharLen(s) == |Encode(c)|
  {
    hide Encode;
    forall c | StartsWithChar(s, c) ensures CharLen(s) == |Encode(c)| > 0 {
      OneOrMore(s, c);
      EncodedLength(s, c);
    }
    if CharLen(s) == 1 { One(s); }
    if CharLen(s) == 2 { Two(s); }
    if CharLen(s) == 3 { Three(s); }
    if CharLen(s) == 4 { Four(s); }
  }

  lemma One(s: seq<Octet>)
    requires CharLen(s) == 1
    ensures StartsWithChar(s, s[0])
  {
    assert Encode(s[0]) == s[..1];
  }

  lemma OneOrMore(s: seq<Octet>, c: nat)
    requires StartsWithChar(s, c)
    ensures Scalar(c) && |Encode(c)| >= 1
  {
  }

  predicate Scalars(text: seq<nat>) {
    forall i :: 0 <= i < |text| ==> Scalar(text[i])
  }

  function Encoding(text: seq<nat>): seq<Octet>
    requires Scalars(text)
  {
    if |text| == 0 then [] else Encode(text[0]) + Encoding(text[1..])
  }

  /** Well-formed octets are exactly the encodings of texts of characters. */
  lemma Utf8Iff(s: seq<Octet>)
    ensures Utf8(s) <==> exists text :: Scalars(text) && Encoding(text) == s
  {
    if Utf8(s) { var text := Decoding(s); }
    if text :| Scalars(text) && Encoding(text) == s { EncodingIsUtf8(text); }
  }

  lemma {:induction false} Decoding(s: seq<Octet>) returns (text: seq<nat>)
    requires Utf8(s)
    ensures Scalars(text) && Encoding(text) == s
  {
    text := [];
    if |s| > 0 {
      hide Encode, StartsWithChar, CharLen;
      CharLenIff(s);
      var c :| StartsWithChar(s, c);
      OneOrMore(s, c);
      EncodedLength(s, c);
      var rest := Decoding(s[CharLen(s)..]);
      text := [c] + rest;
      assert text[1..] == rest;
    }
  }

  lemma {:induction false} EncodingIsUtf8(text: seq<nat>)
    requires Scalars(text)
    ensures Utf8(Encoding(text))
  {
    if |text| > 0 {
      hide Encode, StartsWithChar, CharLen;
      EncodingIsUtf8(text[1..]);
      var s := Encoding(text);
      assert Encode(text[0]) <= s && s[|Encode(text[0])|..] == Encoding(text[1..]);
      IsStart(s, text[0]);
      EncodedLength(s, text[0]);
    }
  }

  lemma IsStart(s: seq<Octet>, c: nat)
    requires Scalar(c) && Encode(c) <= s
    ensures StartsWithChar(s, c)
  {
  }

  /** The characters with the White_Space property of the Unicode standard. */
  predicate WhiteSpace(c: nat) {
    9 <= c <= 13 || c == 0x20 || c == 0x85 || c == 0xA0 || c == 0x1680 || 0x2000 <= c <= 0x200A
    || c == 0x2028 || c == 0x2029 || c == 0x202F || c == 0x205F || c == 0x3000
  }

  lemma WhiteEncodings(c: nat)
    requires WhiteSpace(c)
    ensures Scalar(c)
    ensures var e := Encode(c);
            || (|e| == 1 && Space1(e[0])) || (|e| == 2 && Space2(e[0], e[1])) || (|e| == 3 && Space3(e[0], e[1], e[2]))
  {
  }

  lemma WhiteDecodings(e: seq<Octet>)
    requires (|e| == 1 && Space1(e[0])) || (|e| == 2 && Space2(e[0], e[1])) || (|e| == 3 && Space3(e[0], e[1], e[2]))
    ensures exists c :: WhiteSpace(c) && Scalar(c) && Encode(c) == e
  {
    var c: nat := e[|e| - 1];
    if |e| == 3 {
      var a: nat, b: nat, d: nat := e[0] - 0xE0, e[1] - 0x80, e[2] - 0x80;
      c := (a * 64 + b) * 64 + d;
    }
    assert WhiteSpace(c) && Encode(c) == e;
  }

  lemma WhiteIff(e: seq<Octet>)
    ensures (|e| == 1 && Space1(e[0])) || (|e| == 2 && Space2(e[0], e[1])) || (|e| == 3 && Space3(e[0], e[1], e[2])) <==>
            exists c :: WhiteSpace(c) && Scalar(c) && Encode(c) == e
  {
    hide WhiteSpace, Encode, Space1, Space2, Space3, Scalar;
    if (|e| == 1 && Space1(e[0])) || (|e| == 2 && Space2(e[0], e[1])) || (|e| == 3 && Space3(e[0], e[1], e[2])) { WhiteDecodings(e); }
    if c :| WhiteSpace(c) && Scalar(c) && Encode(c) == e { WhiteEncodings(c); }
  }

  lemma FirstSpace(s: seq<Octet>, n: nat)
    requires 0 < n <= |s|
    ensures var e := s[..n];
            SpaceLen(s) == n <==> (|e| == 1 && Space1(e[0])) || (|e| == 2 && Space2(e[0], e[1])) || (|e| == 3 && Space3(e[0], e[1], e[2]))
  {
  }

  lemma LastSpace(s: seq<Octet>, n: nat)
    requires 0 < n <= |s|
    ensures var e := s[|s| - n..];
            EndSpaceLen(s) == n <==> (|e| == 1 && Space1(e[0])) || (|e| == 2 && Space2(e[0], e[1])) || (|e| == 3 && Space3(e[0], e[1], e[2]))
  {
  }

  /** White space is found at the start, or at the end, exactly when the text starts, or ends, with the encoding of a white space character. */
  lemma SpaceLenIff(s: seq<Octet>, n: nat)
    requires 0 < n <= |s|
    ensures SpaceLen(s) == n <==> exists c :: WhiteSpace(c) && Scalar(c) && Encode(c) == s[..n]
    ensures EndSpaceLen(s) == n <==> exists c :: WhiteSpace(c) && Scalar(c) && Encode(c) == s[|s| - n..]
  {
    WhiteIff(s[..n]);
    WhiteIff(s[|s| - n..]);
    FirstSpace(s, n);
    LastSpace(s, n);
    hide *;
  }
}

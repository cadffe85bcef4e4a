/** Stripping the `aws-chunked` framing from an upload body (src/auth/chunked.rs). */
module AwsChunked {
  import opened Wrappers
  import opened Octets
  import opened Unicode

  const LF: Octet := 10
  const CR: Octet := 13
  const SEMICOLON: Octet := 59
  const PLUS: Octet := 43
  const TWO_64: nat := 0x1_0000_0000_0000_0000

  /** How decoding stopped: at the zero chunk or the end of the body, or at a line that is no size. */
  datatype Decoded = Decoded(out: seq<Octet>, ok: bool)

  /** Up to the first line feed, included, or to the end. */
  function LineOf(s: seq<Octet>): (r: seq<Octet>)
    ensures r <= s && (|s| > 0 ==> |r| > 0)
  {
    if |s| == 0 then [] else if s[0] == LF then [LF] else [s[0]] + LineOf(s[1..])
  }

  function TrimEnd(s: seq<Octet>): (r: seq<Octet>)
    ensures r <= s
  {
    if |s| > 0 && (s[|s| - 1] == CR || s[|s| - 1] == LF) then TrimEnd(s[..|s| - 1]) else s
  }

  function BeforeSemicolon(s: seq<Octet>): seq<Octet> {
    if |s| == 0 || s[0] == SEMICOLON then [] else [s[0]] + BeforeSemicolon(s[1..])
  }

  function TrimLeft(s: seq<Octet>): (r: seq<Octet>)
    ensures |r| <= |s|
  {
    if SpaceLen(s) > 0 then TrimLeft(s[SpaceLen(s)..]) else s
  }

  function TrimRight(s: seq<Octet>): seq<Octet> {
    if EndSpaceLen(s) > 0 then TrimRight(s[..|s| - EndSpaceLen(s)]) else s
  }

  /** The text taken for the chunk size. */
  function SizeText(line: seq<Octet>): seq<Octet> {
    TrimRight(TrimLeft(BeforeSemicolon(TrimEnd(line))))
  }

  function HexValue(s: seq<Octet>): Option<nat> {
    if |s| == 0 then Some(0)
    else match (HexValue(s[..|s| - 1]), Digit(s[|s| - 1]))
      case (Some(v), Some(d)) => Some(16 * v + d)
      case _ => None
  }

  /** A hexadecimal number of 64 bits, with an optional plus sign. */
  function ParseSize(s: seq<Octet>): Option<nat> {
    var digits := if |s| > 0 && s[0] == PLUS then s[1..] else s;
    if |digits| == 0 then None
    else match HexValue(digits)
      case None => None
      case Some(v) => if v < TWO_64 then Some(v) else None
  }

  /** Where the octets behind a chunk of `size` octets start: past the line end that follows it. */
  function NextLine(size: nat, after: seq<Octet>): (at: nat)
    ensures at <= |after| && (size > 0 ==> Smaller(size, |after|) <= at)
  {
    Smaller(Smaller(size, |after|) + 2, |after|)
  }

  function Decode(body: seq<Octet>): Decoded
    decreases |body|
  {
    if |body| == 0 then Decoded([], true)
    else
      var line := LineOf(body);
      var after := body[|line|..];
      if !Utf8(line) then Decoded([], false)
      else if |SizeText(line)| == 0 then Decode(after)
      else match ParseSize(SizeText(line))
        case None => Decoded([], false)
        case Some(size) =>
          if size == 0 then Decoded([], true)
          else
            var more := Decode(after[NextLine(size, after)..]);
            Decoded(after[..Smaller(size, |after|)] + more.out, more.ok)
  }

  /** One size line: whether it is malformed, blank, the end, or the size of the data behind it. */
  lemma DecodeStep(body: seq<Octet>)
    requires |body| > 0
    ensures var line := LineOf(body);
            var after := body[|line|..];
            Decode(body) ==
              if !Utf8(line) then Decoded([], false)
              else if |SizeText(line)| == 0 then Decode(after)
              else match ParseSize(SizeText(line))
                   case None => Decoded([], false)
                   case Some(size) =>
                     if size == 0 then Decoded([], true)
                     else
                       var more := Decode(after[NextLine(size, after)..]);
                       Decoded(after[..Smaller(size, |after|)] + more.out, more.ok)
  {
    hide SizeText, ParseSize, LineOf, Utf8, Smaller, NextLine;
  }

  /** Read size lines and copy that many octets each, until a zero size, a bad line or the end. */
  method Pump(body: seq<Octet>) returns (r: Decoded)
    ensures r == Decode(body)
  {
    hide SizeText, ParseSize, LineOf, Utf8, Smaller, Decode;
    var rest, out := body, [];
    DecodeNothing([]);
    while |rest| > 0
      invariant Decode(body) == Decoded(out + Decode(rest).out, Decode(rest).ok)
      decreases |rest|
    {
      DecodeStep(rest);
      var line := LineOf(rest);
      if !Utf8(line) {
        assert out + [] == out;
        return Decoded(out, false);
      }
      var after := rest[|line|..];
      var text := SizeText(line);
      if |text| == 0 {
        rest := after;
        continue;
      }
      var size := ParseSize(text);
      if size.None? {
        assert out + [] == out;
        return Decoded(out, false);
      }
      if size.value == 0 {
        assert out + [] == out;
        return Decoded(out, true);
      }
      var n := Smaller(size.value, |after|);
      rest := after[Smaller(n + 2, |after|)..];
      assert rest == after[NextLine(size.value, after)..];
      assert out + (after[..n] + Decode(rest).out) == (out + after[..n]) + Decode(rest).out;
      out := out + after[..n];
    }
    assert rest == [] && out + [] == out;
    r := Decoded(out, true);
  }

  lemma DecodeNothing(body: seq<Octet>)
    requires |body| == 0
    ensures Decode(body) == Decoded([], true)
  {
  }

  // ---------------------------------------------------------------------------
  // Framed bodies
  // ---------------------------------------------------------------------------

  /** Lower-case hexadecimal without leading zeros. */
  function Hex(n: nat): (r: seq<Octet>)
    ensures |r| > 0
  {
    if n < 16 then [HexDigit(n)] else Hex(n / 16) + [HexDigit(n % 16)]
  }

  function HexDigit(d: nat): Octet
    requires d < 16
  {
    if d < 10 then 48 + d else 87 + d
  }

  lemma {:induction false} HexParses(n: nat)
    ensures HexValue(Hex(n)) == Some(n)
    ensures forall i :: 0 <= i < |Hex(n)| ==> Digit(Hex(n)[i]).Some?
  {
    if n < 16 {
      var s := Hex(n);
      assert s[..0] == [] && s[|s| - 1] == HexDigit(n);
      assert HexValue(s[..|s| - 1]) == Some(0);
    } else {
      HexParses(n / 16);
      var s := Hex(n);
      assert s[..|s| - 1] == Hex(n / 16);
    }
  }

  /** What may follow the size on its line: nothing, or any text from a semicolon on, without a line feed. */
  predicate Extension(ext: seq<Octet>) {
    |ext| > 0 ==> ext[0] == SEMICOLON && Utf8(ext) && LF !in ext
  }

  function SizeLine(n: nat, ext: seq<Octet>): seq<Octet> {
    Hex(n) + ext + [CR, LF]
  }

  /** A chunk and the extension sent with it. */
  datatype Chunk = Chunk(data: seq<Octet>, ext: seq<Octet>)

  predicate Sendable(chunks: seq<Chunk>) {
    forall i :: 0 <= i < |chunks| ==> 0 < |chunks[i].data| < TWO_64 && Extension(chunks[i].ext)
  }

  /** The framed body: each chunk behind its size line, then the zero chunk, then anything. */
  function Framed(chunks: seq<Chunk>, last: seq<Octet>, tail: seq<Octet>): seq<Octet> {
    if |chunks| == 0 then SizeLine(0, last) + tail
    else SizeLine(|chunks[0].data|, chunks[0].ext) + chunks[0].data + [CR, LF] + Framed(chunks[1..], last, tail)
  }

  function Payload(chunks: seq<Chunk>): seq<Octet> {
    if |chunks| == 0 then [] else chunks[0].data + Payload(chunks[1..])
  }

  lemma {:induction false} LineEnds(s: seq<Octet>, rest: seq<Octet>)
    requires LF !in s
    ensures LineOf(s + [LF] + rest) == s + [LF]
    ensures LineOf(s) == s
  {
    if |s| > 0 {
      assert s[0] in s && forall x :: x in s[1..] ==> x in s;
      LineEnds(s[1..], rest);
      assert (s + [LF] + rest)[1..] == s[1..] + [LF] + rest;
      assert s == [s[0]] + s[1..];
    }
  }

  lemma {:induction false} TrimEndKeeps(s: seq<Octet>, i: nat)
    requires i < |s| && s[i] != CR && s[i] != LF
    ensures |TrimEnd(s)| > i
  {
    if s[|s| - 1] == CR || s[|s| - 1] == LF {
      TrimEndKeeps(s[..|s| - 1], i);
    }
  }

  lemma {:induction false} CutAtSemicolon(a: seq<Octet>, rest: seq<Octet>)
    requires SEMICOLON !in a
    ensures BeforeSemicolon(a + [SEMICOLON] + rest) == a
  {
    if |a| > 0 {
      assert a[0] in a && forall x :: x in a[1..] ==> x in a;
      CutAtSemicolon(a[1..], rest);
      assert (a + [SEMICOLON] + rest)[1..] == a[1..] + [SEMICOLON] + rest;
      assert a == [a[0]] + a[1..];
    }
  }

  /** A text as it may stand in the size's place: no white space at its ends, no semicolon, on one line. */
  predicate Token(text: seq<Octet>) {
    && |text| > 0 && 33 <= text[0] < 127 && 33 <= text[|text| - 1] < 127
    && SEMICOLON !in text && LF !in text && Utf8(text)
  }

  lemma HexIsToken(n: nat)
    ensures Token(Hex(n))
  {
    hide Hex, Utf8;
    HexParses(n);
    var hex := Hex(n);
    forall i | 0 <= i < |hex| ensures 48 <= hex[i] < 128 && hex[i] != SEMICOLON && hex[i] != 127 {
      assert Digit(hex[i]).Some?;
    }
    AsciiIsUtf8(hex);
  }

  lemma EmptyIsUtf8(ext: seq<Octet>)
    requires Extension(ext)
    ensures Utf8(ext) && LF !in ext
  {
  }

  lemma {:induction false} NoSemicolon(s: seq<Octet>)
    requires SEMICOLON !in s
    ensures BeforeSemicolon(s) == s
  {
    if |s| > 0 {
      assert s[0] in s && forall x :: x in s[1..] ==> x in s;
      NoSemicolon(s[1..]);
      assert s == [s[0]] + s[1..];
    }
  }

  lemma LineEndTrimmed(text: seq<Octet>)
    requires |text| > 0 && text[|text| - 1] != CR && text[|text| - 1] != LF
    ensures TrimEnd(text + [CR, LF]) == text
  {
    var line := text + [CR, LF];
    assert line[..|line| - 1] == text + [CR];
    assert (text + [CR])[..|text|] == text;
    assert TrimEnd(text) == text;
    assert TrimEnd(text + [CR]) == text;
  }

  predicate Blanks(s: seq<Octet>) {
    forall i :: 0 <= i < |s| ==> s[i] == 32 || s[i] == 9
  }

  lemma {:induction false} BlanksLeft(blanks: seq<Octet>, s: seq<Octet>)
    requires Blanks(blanks) && |s| > 0 && 33 <= s[0] < 127
    ensures TrimLeft(blanks + s) == s
  {
    if |blanks| == 0 {
      assert blanks + s == s;
    } else {
      BlanksLeft(blanks[1..], s);
      assert (blanks + s)[1..] == blanks[1..] + s;
    }
  }

  lemma {:induction false} BlanksRight(s: seq<Octet>, blanks: seq<Octet>)
    requires Blanks(blanks) && |s| > 0 && 33 <= s[|s| - 1] < 127
    ensures TrimRight(s + blanks) == s
  {
    if |blanks| == 0 {
      assert s + blanks == s;
    } else {
      var n := |blanks| - 1;
      BlanksRight(s, blanks[..n]);
      assert (s + blanks)[..|s| + n] == s + blanks[..n];
    }
  }

  /** The text in the size's place, among blanks, is what is taken for the size, with an extension or without. */
  lemma LineText(before: seq<Octet>, text: seq<Octet>, after: seq<Octet>, ext: seq<Octet>, rest: seq<Octet>)
    requires Token(text) && Extension(ext) && Blanks(before) && Blanks(after)
    ensures var line := before + text + after + ext + [CR, LF];
            LineOf(line + rest) == line && Utf8(line) && SizeText(line) == text
  {
    hide LineOf, Utf8, TrimLeft, TrimRight, TrimEnd, BeforeSemicolon;
    EmptyIsUtf8(ext);
    var field := before + text + after;
    FieldFacts(before, text, after);
    var line := field + ext + [CR, LF];
    assert line + rest == (field + ext + [CR]) + [LF] + rest && line == (field + ext + [CR]) + [LF];
    LineEnds(field + ext + [CR], rest);
    LineIsUtf8(field, ext);
    assert field == before + (text + after);
    BlanksLeft(before, text + after);
    BlanksRight(text, after);
    if |ext| == 0 {
      assert line == field + [CR, LF];
      LineEndTrimmed(field);
      NoSemicolon(field);
    } else {
      CutExtension(field, ext);
    }
  }

  lemma FieldFacts(before: seq<Octet>, text: seq<Octet>, after: seq<Octet>)
    requires Token(text) && Blanks(before) && Blanks(after)
    ensures var field := before + text + after;
            && |field| > 0 && Utf8(field) && SEMICOLON !in field && LF !in field
            && field[|field| - 1] != CR && field[|field| - 1] != LF
  {
    hide Utf8;
    AsciiIsUtf8(before);
    AsciiIsUtf8(after);
    Utf8Append(before, text);
    Utf8Append(before + text, after);
  }

  lemma CutExtension(field: seq<Octet>, ext: seq<Octet>)
    requires SEMICOLON !in field && |ext| > 0 && ext[0] == SEMICOLON
    ensures BeforeSemicolon(TrimEnd(field + ext + [CR, LF])) == field
  {
    hide TrimEnd, BeforeSemicolon;
    var line := field + ext + [CR, LF];
    assert line[|field|] == SEMICOLON;
    TrimEndKeeps(line, |field|);
    var trimmed := TrimEnd(line);
    assert trimmed == field + [SEMICOLON] + trimmed[|field| + 1..] by {
      assert trimmed[..|field| + 1] == line[..|field| + 1] == field + [SEMICOLON];
    }
    CutAtSemicolon(field, trimmed[|field| + 1..]);
  }

  lemma PlainLine(text: seq<Octet>, ext: seq<Octet>, rest: seq<Octet>)
    requires Token(text) && Extension(ext)
    ensures var line := text + ext + [CR, LF];
            LineOf(line + rest) == line && Utf8(line) && SizeText(line) == text
  {
    hide LineOf, Utf8, SizeText;
    LineText([], text, [], ext, rest);
    assert [] + text + [] == text;
  }

  /** A size line announces its size. */
  lemma SizeLineReads(n: nat, ext: seq<Octet>, rest: seq<Octet>)
    requires Extension(ext) && n < TWO_64
    ensures LineOf(SizeLine(n, ext) + rest) == SizeLine(n, ext)
    ensures Utf8(SizeLine(n, ext))
    ensures |SizeText(SizeLine(n, ext))| > 0 && ParseSize(SizeText(SizeLine(n, ext))) == Some(n)
  {
    hide Hex, HexValue, LineOf, Utf8, SizeText, Token, Extension;
    HexParses(n);
    HexIsToken(n);
    PlainLine(Hex(n), ext, rest);
    assert Digit(Hex(n)[0]).Some?;
  }

  predicate AllDigits(s: seq<Octet>) {
    forall i :: 0 <= i < |s| ==> Digit(s[i]).Some?
  }

  lemma {:induction false} HexValueIff(s: seq<Octet>)
    ensures HexValue(s).Some? <==> AllDigits(s)
  {
    hide Digit;
    if |s| > 0 {
      HexValueIff(s[..|s| - 1]);
    }
  }

  /** A number by its digits, whatever their case, with any leading zeros. */
  lemma HexValueAt(s: seq<Octet>, d: Octet)
    ensures Digit(d).Some? && HexValue(s).Some? ==> HexValue(s + [d]) == Some(16 * HexValue(s).value + Digit(d).value)
  {
    assert (s + [d])[..|s|] == s;
  }

  /** What is a size: one or more hexadecimal digits, behind a plus sign or not, below 2^64. */
  lemma ParseSizeIff(s: seq<Octet>)
    ensures var digits := if |s| > 0 && s[0] == PLUS then s[1..] else s;
            ParseSize(s).Some? <==> |digits| > 0 && AllDigits(digits) && HexValue(digits).GetOr(0) < TWO_64
  {
    HexValueIff(if |s| > 0 && s[0] == PLUS then s[1..] else s);
  }

  lemma LineIsUtf8(hex: seq<Octet>, ext: seq<Octet>)
    requires Utf8(hex) && Utf8(ext)
    ensures Utf8(hex + ext + [CR, LF])
  {
    AsciiIsUtf8([CR, LF]);
    Utf8Append(hex, ext);
    Utf8Append(hex + ext, [CR, LF]);
  }

  /** One framed chunk. */
  lemma ChunkDecodes(c: Chunk, rest: seq<Octet>)
    requires 0 < |c.data| < TWO_64 && Extension(c.ext)
    ensures Decode(SizeLine(|c.data|, c.ext) + c.data + [CR, LF] + rest) == Decoded(c.data + Decode(rest).out, Decode(rest).ok)
  {
    hide SizeText, ParseSize, SizeLine, LineOf;
    var line := SizeLine(|c.data|, c.ext);
    var after := c.data + [CR, LF] + rest;
    var body := line + c.data + [CR, LF] + rest;
    assert body == line + after;
    SizeLineReads(|c.data|, c.ext, after);
    assert |line| > 0 by { LineNotEmpty(|c.data|, c.ext); }
    assert body[|line|..] == after;
    assert after[..|c.data|] == c.data && after[|c.data| + 2..] == rest;
  }

  lemma LineNotEmpty(n: nat, ext: seq<Octet>)
    ensures |SizeLine(n, ext)| > 0
  {
  }

  /**
   * Any framed body decodes to the data of its chunks, whatever octets they hold, and
   * decoding stops at the zero chunk, whatever follows it.
   */
  lemma {:induction false} FramedDecodes(chunks: seq<Chunk>, last: seq<Octet>, tail: seq<Octet>)
    requires Sendable(chunks) && Extension(last)
    ensures Decode(Framed(chunks, last, tail)) == Decoded(Payload(chunks), true)
  {
    hide SizeText, ParseSize, SizeLine, LineOf, Extension;
    if |chunks| == 0 {
      SizeLineReads(0, last, tail);
      LineNotEmpty(0, last);
    } else {
      FramedDecodes(chunks[1..], last, tail);
      ChunkDecodes(chunks[0], Framed(chunks[1..], last, tail));
    }
  }

  /** Chunks without the zero chunk, and whatever comes behind them. */
  function Started(chunks: seq<Chunk>, rest: seq<Octet>): seq<Octet> {
    if |chunks| == 0 then rest
    else SizeLine(|chunks[0].data|, chunks[0].ext) + chunks[0].data + [CR, LF] + Started(chunks[1..], rest)
  }

  lemma {:induction false} StartedDecodes(chunks: seq<Chunk>, rest: seq<Octet>)
    requires Sendable(chunks)
    ensures Decode(Started(chunks, rest)) == Decoded(Payload(chunks) + Decode(rest).out, Decode(rest).ok)
  {
    hide SizeText, ParseSize, SizeLine, LineOf, Extension, Decode, Utf8;
    if |chunks| == 0 {
      assert Payload(chunks) + Decode(rest).out == Decode(rest).out;
    } else {
      StartedDecodes(chunks[1..], rest);
      ChunkDecodes(chunks[0], Started(chunks[1..], rest));
      assert chunks[0].data + (Payload(chunks[1..]) + Decode(rest).out) == Payload(chunks) + Decode(rest).out;
    }
  }

  /**
   * A body whose next line is no size, because of a character that is no digit or a number
   * of 2^64 and more, stops there with an error, having yielded the chunks before it.
   */
  lemma BadSizeStops(chunks: seq<Chunk>, text: seq<Octet>, ext: seq<Octet>, rest: seq<Octet>)
    requires Sendable(chunks) && Token(text) && Extension(ext)
    requires var digits := if text[0] == PLUS then text[1..] else text;
             |digits| == 0 || !AllDigits(digits) || HexValue(digits).GetOr(0) >= TWO_64
    ensures Decode(Started(chunks, text + ext + [CR, LF] + rest)) == Decoded(Payload(chunks), false)
  {
    hide SizeText, ParseSize, LineOf, Utf8, Token, Extension, Started, Decode, HexValue, AllDigits;
    var line := text + ext + [CR, LF];
    StartedDecodes(chunks, line + rest);
    PlainLine(text, ext, rest);
    TokenNotEmpty(text);
    ParseSizeIff(text);
    assert |line + rest| > 0;
    DecodeStep(line + rest);
    assert Payload(chunks) + [] == Payload(chunks);
  }

  /** So does a body whose next line is not the encoding of any text. */
  lemma BadTextStops(chunks: seq<Chunk>, line: seq<Octet>, rest: seq<Octet>)
    requires Sendable(chunks) && LF !in line
    requires forall text :: Scalars(text) ==> Encoding(text) != line + [LF]
    ensures Decode(Started(chunks, line + [LF] + rest)) == Decoded(Payload(chunks), false)
  {
    hide SizeText, ParseSize, LineOf, Utf8, Started, Decode, Encoding;
    StartedDecodes(chunks, line + [LF] + rest);
    LineEnds(line, rest);
    Utf8Iff(line + [LF]);
    DecodeStep(line + [LF] + rest);
    assert Payload(chunks) + [] == Payload(chunks);
  }

  lemma TokenNotEmpty(text: seq<Octet>)
    requires Token(text)
    ensures |text| > 0
  {
  }

  /** A body that ends behind a chunk, without the zero chunk, is taken as complete; blank lines between chunks are passed over. */
  lemma LenientEnds(chunks: seq<Chunk>, rest: seq<Octet>)
    requires Sendable(chunks)
    ensures Decode(Started(chunks, [])) == Decoded(Payload(chunks), true)
    ensures Decode(Started(chunks, [CR, LF] + rest)) == Decode(Started(chunks, rest))
  {
    hide SizeText, ParseSize, LineOf, Utf8, Started, Decode;
    StartedDecodes(chunks, []);
    StartedDecodes(chunks, rest);
    StartedDecodes(chunks, [CR, LF] + rest);
    DecodeNothing([]);
    assert Payload(chunks) + [] == Payload(chunks);
    BlankLine(rest);
    DecodeStep([CR, LF] + rest);
    assert ([CR, LF] + rest)[2..] == rest;
  }

  lemma BlankLine(rest: seq<Octet>)
    ensures LineOf([CR, LF] + rest) == [CR, LF] && Utf8([CR, LF]) && SizeText([CR, LF]) == []
  {
    LineEnds([CR], rest);
    assert [CR] + [LF] + rest == [CR, LF] + rest && [CR] + [LF] == [CR, LF];
    AsciiIsUtf8([CR, LF]);
    assert [CR, LF][..1] == [CR] && [CR][..0] == [];
    assert TrimEnd([CR]) == [];
    assert TrimEnd([CR, LF]) == [];
  }

  lemma LineStep(s: seq<Octet>)
    requires |s| > 0
    ensures LineOf(s) == if s[0] == LF then [LF] else [s[0]] + LineOf(s[1..])
  {
  }

  lemma {:induction false} CutLine(s: seq<Octet>, cut: nat)
    requires cut <= |s|
    ensures LineOf(s[..cut]) == if cut < |LineOf(s)| then s[..cut] else LineOf(s)
  {
    if cut == 0 {
      assert s[..cut] == [];
    } else {
      hide LineOf;
      var part := s[..cut];
      LineStep(s);
      LineStep(part);
      assert part[0] == s[0] && part[1..] == s[1..][..cut - 1] && part == [s[0]] + part[1..];
      CutLine(s[1..], cut - 1);
    }
  }

  /** A body that is one unfinished line, or none, yields nothing. */
  lemma LoneLine(s: seq<Octet>)
    requires LineOf(s) == s
    ensures Decode(s).out == []
  {
    hide SizeText, ParseSize, LineOf;
    DecodeNothing(s[|s|..]);
    if |s| > 0 { DecodeStep(s); }
  }

  lemma SliceOfCut(s: seq<Octet>, cut: nat, at: nat)
    requires at <= cut <= |s|
    ensures s[..cut][at..] == s[at..][..cut - at]
  {
  }

  lemma JoinPrefix<T>(a: seq<T>, x: seq<T>, b: seq<T>, y: seq<T>)
    requires a <= b && (|x| == 0 || (a == b && x <= y))
    ensures a + x <= b + y
  {
    if |x| == 0 { assert a + x == a; }
  }

  /** Truncating any body, well framed or not, yields a prefix of what the whole body yields. */
  lemma {:induction false} TruncationYieldsPrefix(body: seq<Octet>, cut: nat)
    requires cut <= |body|
    ensures Decode(body[..cut]).out <= Decode(body).out
    decreases |body|, 1
  {
    hide SizeText, ParseSize, LineOf, Utf8;
    var line := LineOf(body);
    CutLine(body, cut);
    if cut < |line| || cut == 0 {
      LoneLine(body[..cut]);
    } else {
      SliceOfCut(body, cut, |line|);
      var size := ParseSize(SizeText(line));
      if Utf8(line) && |SizeText(line)| == 0 {
        TruncationYieldsPrefix(body[|line|..], cut - |line|);
      } else if Utf8(line) && size.Some? && size.value > 0 {
        CutInData(body, cut, size.value);
      }
    }
  }

  lemma {:induction false} CutInData(body: seq<Octet>, cut: nat, size: nat)
    requires 0 < |LineOf(body)| <= cut <= |body| && LineOf(body[..cut]) == LineOf(body)
    requires Utf8(LineOf(body)) && |SizeText(LineOf(body))| > 0 && ParseSize(SizeText(LineOf(body))) == Some(size) && size > 0
    ensures Decode(body[..cut]).out <= Decode(body).out
    decreases |body|, 0
  {
    hide SizeText, ParseSize, LineOf, Utf8, Decode, Smaller, NextLine;
    var line := LineOf(body);
    var after, c := body[|line|..], cut - |line|;
    SliceOfCut(body, cut, |line|);
    DecodeStep(body);
    DecodeStep(body[..cut]);
    CutData(size, after, c);
    var at := NextLine(size, after);
    var rest := after[..c][NextLine(size, after[..c])..];
    if c > at {
      TruncationYieldsPrefix(after[at..], c - at);
    } else {
      DecodeNothing(rest);
    }
    JoinPrefix(after[..c][..Smaller(size, c)], Decode(rest).out, after[..Smaller(size, |after|)], Decode(after[at..]).out);
  }

  /** The data and rest of a chunk cut at `c`. */
  lemma CutData(size: nat, after: seq<Octet>, c: nat)
    requires size > 0 && c <= |after|
    ensures var at := NextLine(size, after);
            && after[..c][..Smaller(size, c)] <= after[..Smaller(size, |after|)]
            && (if c > at then
                  Smaller(size, c) == Smaller(size, |after|) && after[..c][NextLine(size, after[..c])..] == after[at..][..c - at]
                else |after[..c][NextLine(size, after[..c])..]| == 0)
  {
  }
}

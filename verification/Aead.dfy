/** Octets, hexadecimal digits and fixed-width integers. */
module Octets {
  import opened Wrappers

  type Octet = x: int | 0 <= x < 256

  /** The value of a hexadecimal digit, in either case. */
  function Digit(o: Octet): Option<nat> {
    if 48 <= o <= 57 then Some(o - 48)
    else if 65 <= o <= 70 then Some(o - 55)
    else if 97 <= o <= 102 then Some(o - 87)
    else None
  }

  const WORD := 0x1_0000_0000

  /** The low four octets of `v`, least significant first. */
  function Le4(v: nat): (r: seq<Octet>)
    ensures |r| == 4
  {
    [v % 256, v / 256 % 256, v / 256 / 256 % 256, v / 256 / 256 / 256 % 256]
  }

  /** The low four octets of `v`, most significant first. */
  function Be4(v: nat): (r: seq<Octet>)
    ensures |r| == 4
  {
    [v / 256 / 256 / 256 % 256, v / 256 / 256 % 256, v / 256 % 256, v % 256]
  }

  function Horner(a: int, b: int, c: int, d: int): int {
    a + 256 * (b + 256 * (c + 256 * d))
  }

  lemma FourDigits(v: nat)
    ensures v % WORD == Horner(v % 256, v / 256 % 256, v / 256 / 256 % 256, v / 256 / 256 / 256 % 256)
  {
    var a := v / 256;
    var b := a / 256;
    var c := b / 256;
    HornerRest(v % 256, a % 256, b % 256, c % 256, c / 256);
  }

  lemma HornerRest(a: nat, b: nat, c: nat, d: nat, q: nat)
    requires a < 256 && b < 256 && c < 256 && d < 256
    ensures (a + 256 * (b + 256 * (c + 256 * (d + 256 * q)))) % WORD == Horner(a, b, c, d)
  {
    assert a + 256 * (b + 256 * (c + 256 * (d + 256 * q))) == Horner(a, b, c, d) + WORD * q;
    assert 0 <= Horner(a, b, c, d) < WORD;
  }

  lemma HornerInjective(a: int, b: int, c: int, d: int, a': int, b': int, c': int, d': int)
    requires 0 <= a < 256 && 0 <= b < 256 && 0 <= c < 256 && 0 <= d < 256
    requires 0 <= a' < 256 && 0 <= b' < 256 && 0 <= c' < 256 && 0 <= d' < 256
    requires Horner(a, b, c, d) == Horner(a', b', c', d')
    ensures a == a' && b == b' && c == c' && d == d'
  {
    LowDigit(a, b + 256 * (c + 256 * d), a', b' + 256 * (c' + 256 * d'));
    LowDigit(b, c + 256 * d, b', c' + 256 * d');
    LowDigit(c, d, c', d');
  }

  lemma LowDigit(a: int, rest: int, a': int, rest': int)
    requires 0 <= a < 256 && 0 <= a' < 256 && a + 256 * rest == a' + 256 * rest'
    ensures a == a' && rest == rest'
  {
  }

  /** A 32-bit encoding forgets exactly the multiples of 2^32. */
  lemma FourOctets(u: nat, v: nat)
    ensures Le4(u) == Le4(v) <==> u % WORD == v % WORD
    ensures Be4(u) == Be4(v) <==> u % WORD == v % WORD
  {
    FourDigits(u);
    FourDigits(v);
    var x, y := Le4(u), Le4(v);
    assert Be4(u) == [x[3], x[2], x[1], x[0]] && Be4(v) == [y[3], y[2], y[1], y[0]];
    assert x == [x[0], x[1], x[2], x[3]] && y == [y[0], y[1], y[2], y[3]];
    if u % WORD == v % WORD {
      HornerInjective(x[0], x[1], x[2], x[3], y[0], y[1], y[2], y[3]);
    }
    if Be4(u) == Be4(v) {
      assert x[0] == Be4(u)[3] && x[1] == Be4(u)[2] && x[2] == Be4(u)[1] && x[3] == Be4(u)[0];
    }
  }

  /** A 32-bit counter, as the release build wraps it. */
  function Wrapped(v: nat): (r: nat)
    ensures r < WORD
  {
    v % WORD
  }

  lemma WrappedStart()
    ensures Wrapped(0) == 0 && Wrapped(1) == 1
  {
  }

  lemma WrappedNext(v: nat)
    ensures Wrapped(Wrapped(v) + 1) == Wrapped(v + 1)
  {
  }

  /** A counter that wraps at 32 bits encodes like one that does not. */
  lemma WrappedCounter(v: nat)
    ensures Be4(Wrapped(v)) == Be4(v) && Le4(Wrapped(v)) == Le4(v)
  {
    FourOctets(Wrapped(v), v);
  }
}

/**
 * Authenticated encryption with symbolic cells. One octet of ciphertext is one cell,
 * so lengths are the real ones; a tag is sixteen cells naming everything it
 * authenticates, so forging is impossible without assuming anything of a hash.
 */
module Aead {
  import opened Wrappers
  import opened Octets

  const TAG_LEN := 16

  datatype Cell<K> =
    | Plain(octet: Octet)
    | Cipher(key: K, nonce: seq<Octet>, at: nat, octet: Octet)
    | Tag(part: nat, key: K, nonce: seq<Octet>, aad: seq<Cell<K>>, text: seq<Octet>)

  /** Octets stored in the clear. */
  function Lift<K>(octets: seq<Octet>): (r: seq<Cell<K>>)
    ensures |r| == |octets|
  {
    seq(|octets|, i requires 0 <= i < |octets| => Plain(octets[i]))
  }

  predicate Clear<K>(cells: seq<Cell<K>>) {
    forall i :: 0 <= i < |cells| ==> cells[i].Plain?
  }

  function Lower<K>(cells: seq<Cell<K>>): (r: seq<Octet>)
    requires Clear(cells)
    ensures |r| == |cells|
  {
    seq(|cells|, i requires 0 <= i < |cells| => cells[i].octet)
  }

  function Seal<K>(key: K, nonce: seq<Octet>, aad: seq<Cell<K>>, text: seq<Octet>): (r: seq<Cell<K>>)
    ensures |r| == |text| + TAG_LEN
  {
    seq(|text|, i requires 0 <= i < |text| => Cipher(key, nonce, i, text[i]))
    + seq(TAG_LEN, i requires 0 <= i < TAG_LEN => Tag(i, key, nonce, aad, text))
  }

  /** The text, if the cells are exactly a sealed text. */
  function Open<K(==)>(key: K, nonce: seq<Octet>, aad: seq<Cell<K>>, cells: seq<Cell<K>>): Option<seq<Octet>> {
    if |cells| < TAG_LEN then None
    else
      var text := seq(|cells| - TAG_LEN, i requires 0 <= i < |cells| - TAG_LEN => if cells[i].Cipher? then cells[i].octet else 0);
      if cells == Seal(key, nonce, aad, text) then Some(text) else None
  }

  lemma OpenIff<K>(key: K, nonce: seq<Octet>, aad: seq<Cell<K>>, cells: seq<Cell<K>>, text: seq<Octet>)
    ensures Open(key, nonce, aad, cells) == Some(text) <==> cells == Seal(key, nonce, aad, text)
  {
    if cells == Seal(key, nonce, aad, text) {
      assert seq(|text|, i requires 0 <= i < |text| => if cells[i].Cipher? then cells[i].octet else 0) == text;
    }
  }

  lemma CutIsNoSeal<K>(key: K, nonce: seq<Octet>, aad: seq<Cell<K>>, text: seq<Octet>, cut: nat,
                       key': K, nonce': seq<Octet>, aad': seq<Cell<K>>, text': seq<Octet>)
    requires cut < |Seal(key, nonce, aad, text)|
    ensures Seal(key, nonce, aad, text)[..cut] != Seal(key', nonce', aad', text')
  {
    if |text'| + TAG_LEN == cut {
      var cells := Seal(key, nonce, aad, text);
      assert cells[..cut][cut - 1] == cells[cut - 1] != Tag(TAG_LEN - 1, key', nonce', aad', text');
      assert Seal(key', nonce', aad', text')[cut - 1] == Tag(TAG_LEN - 1, key', nonce', aad', text');
    }
  }

  /** A sealed text cut short opens under no key, nonce or associated data. */
  lemma CutIsRejected<K>(key: K, nonce: seq<Octet>, aad: seq<Cell<K>>, text: seq<Octet>, cut: nat,
                         key': K, nonce': seq<Octet>, aad': seq<Cell<K>>)
    requires cut < |Seal(key, nonce, aad, text)|
    ensures Open(key', nonce', aad', Seal(key, nonce, aad, text)[..cut]).None?
  {
    forall text' { CutIsNoSeal(key, nonce, aad, text, cut, key', nonce', aad', text'); }
  }
}

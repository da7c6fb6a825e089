/** Unpadded base32 (RFC 4648, sections 3.2, 3.5 and 6) as the credential code
  * uses it: printed in lower case, read back in either. The bytes are regrouped
  * as bits, most significant first, so the spare bits of a last character are
  * visible.
  */
module Base32 {
  import opened Options

  type byte = x: int | 0 <= x < 256
  type bits = seq<bool>

  // ---------------------------------------------------------------------
  // Regrouping bits
  // ---------------------------------------------------------------------

  function Pow2(w: nat): (p: nat)
    ensures p >= 1
  {
    if w == 0 then 1 else 2 * Pow2(w - 1)
  }

  /** The low `w` bits of `v`. */
  function Bits(v: nat, w: nat): (s: bits)
    ensures |s| == w
  {
    if w == 0 then [] else Bits(v / 2, w - 1) + [v % 2 == 1]
  }

  function Value(s: bits): (v: nat)
    ensures v < Pow2(|s|)
  {
    if s == [] then 0 else 2 * Value(s[..|s| - 1]) + if s[|s| - 1] then 1 else 0
  }

  lemma {:induction false} ValueOfBits(v: nat, w: nat)
    requires v < Pow2(w)
    ensures Value(Bits(v, w)) == v
  {
    if w > 0 {
      ValueOfBits(v / 2, w - 1);
      assert Bits(v, w)[..w - 1] == Bits(v / 2, w - 1);
    }
  }

  lemma {:induction false} BitsOfValue(s: bits)
    ensures Bits(Value(s), |s|) == s
  {
    if s != [] {
      BitsOfValue(s[..|s| - 1]);
      assert Value(s) / 2 == Value(s[..|s| - 1]);
    }
  }

  /** The width of `n` groups of `w`. */
  function Width(n: nat, w: nat): nat {
    if n == 0 then 0 else w + Width(n - 1, w)
  }

  lemma {:induction false} WidthIs(n: nat)
    ensures Width(n, 5) == 5 * n && Width(n, 8) == 8 * n
  {
    if n > 0 {
      WidthIs(n - 1);
    }
  }

  /** Each value as `w` bits, end to end. */
  function Unpack(vs: seq<nat>, w: nat): (s: bits)
    ensures |s| == Width(|vs|, w)
  {
    if vs == [] then [] else Bits(vs[0], w) + Unpack(vs[1..], w)
  }

  /** The bits as `n` groups of `w`. */
  function Pack(s: bits, w: nat, n: nat): (vs: seq<nat>)
    requires |s| == Width(n, w)
    ensures |vs| == n
    ensures forall i :: 0 <= i < |vs| ==> vs[i] < Pow2(w)
    decreases n
  {
    if n == 0 then []
    else [Value(s[..w])] + Pack(s[w..], w, n - 1)
  }

  lemma {:induction false} PackOfUnpack(vs: seq<nat>, w: nat)
    requires forall i :: 0 <= i < |vs| ==> vs[i] < Pow2(w)
    ensures Pack(Unpack(vs, w), w, |vs|) == vs
  {
    if vs != [] {
      ValueOfBits(vs[0], w);
      PackOfUnpack(vs[1..], w);
      assert Unpack(vs, w)[..w] == Bits(vs[0], w);
      assert Unpack(vs, w)[w..] == Unpack(vs[1..], w);
    }
  }

  lemma {:induction false} UnpackOfPack(s: bits, w: nat, n: nat)
    requires |s| == Width(n, w)
    ensures Unpack(Pack(s, w, n), w) == s
    decreases n
  {
    hide Bits, Value, Pow2;
    if n > 0 {
      UnpackOfPack(s[w..], w, n - 1);
      BitsOfValue(s[..w]);
      UnpackFirst(Value(s[..w]), Pack(s[w..], w, n - 1), w);
      assert s[..w] + s[w..] == s;
    }
  }

  lemma UnpackFirst(v: nat, vs: seq<nat>, w: nat)
    ensures Unpack([v] + vs, w) == Bits(v, w) + Unpack(vs, w)
  {
    assert ([v] + vs)[1..] == vs;
  }

  // ---------------------------------------------------------------------
  // Characters
  // ---------------------------------------------------------------------

  /** The alphabet of section 6: A-Z, then 2-7. */
  function DigitChar(v: nat): char
    requires v < 32
  {
    if v < 26 then 'A' + v as char else '2' + (v - 26) as char
  }

  function DigitValue(c: char): Option<nat> {
    if 'A' <= c <= 'Z' then Some((c - 'A') as nat)
    else if '2' <= c <= '7' then Some(26 + (c - '2') as nat)
    else None
  }

  function Lower(c: char): char {
    if 'A' <= c <= 'Z' then 'a' + (c - 'A') else c
  }

  /** Upper-casing as far as the alphabet can see it: two letters outside ASCII,
    * dotless i and long s, become ASCII letters too. */
  function Upper(c: char): char {
    if 'a' <= c <= 'z' then 'A' + (c - 'a')
    else if c == '\U{0131}' then 'I'
    else if c == '\U{017F}' then 'S'
    else c
  }

  function Digits(s: string): Option<seq<nat>> {
    if s == [] then Some([])
    else if s[0] == '\r' || s[0] == '\n' then Digits(s[1..])
    else
      match (DigitValue(Upper(s[0])), Digits(s[1..]))
      case (Some(v), Some(vs)) => Some([v] + vs)
      case _ => None
  }

  function Text(vs: seq<nat>): (s: string)
    requires forall i :: 0 <= i < |vs| ==> vs[i] < 32
    ensures |s| == |vs|
  {
    seq(|vs|, i requires 0 <= i < |vs| => Lower(DigitChar(vs[i])))
  }

  lemma DigitOfChar(v: nat)
    requires v < 32
    ensures DigitValue(Upper(Lower(DigitChar(v)))) == Some(v)
    ensures Lower(DigitChar(v)) !in {'\r', '\n', '_'}
  {
  }

  lemma {:induction false} DigitsOfText(vs: seq<nat>)
    requires forall i :: 0 <= i < |vs| ==> vs[i] < 32
    ensures Digits(Text(vs)) == Some(vs)
  {
    if vs != [] {
      DigitOfChar(vs[0]);
      DigitsOfText(vs[1..]);
      assert Text(vs)[1..] == Text(vs[1..]);
      assert vs == [vs[0]] + vs[1..];
    }
  }

  lemma {:induction false} DigitsAreFiveBits(s: string)
    requires Digits(s).Some?
    ensures forall i :: 0 <= i < |Digits(s).value| ==> Digits(s).value[i] < 32
  {
    if s != [] {
      DigitsAreFiveBits(s[1..]);
    }
  }

  // ---------------------------------------------------------------------
  // The codec
  // ---------------------------------------------------------------------

  /** Zero bits that fill the last character. */
  function Fill(n: nat): (s: bits)
    ensures |s| < 5 && n + |s| == (n + 4) / 5 * 5
  {
    seq((5 - n % 5) % 5, _ => false)
  }

  /** The characters for `b`, its last one filled up with the given bits. */
  function Spell(b: seq<byte>, tail: bits): (vs: seq<nat>)
    requires |tail| == |Fill(8 * |b|)|
    ensures forall i :: 0 <= i < |vs| ==> vs[i] < 32
    ensures |vs| == (8 * |b| + 4) / 5
  {
    assert Pow2(5) == 32;
    WidthIs(|b|);
    WidthIs((8 * |b| + 4) / 5);
    Pack(Unpack(b, 8) + tail, 5, (8 * |b| + 4) / 5)
  }

  function Encode(b: seq<byte>): string {
    Text(Spell(b, Fill(8 * |b|)))
  }

  /** Whole bytes in `n` characters, eight at a time. A last group of 1, 3 or 6
    * characters is no encoding of anything and yields nothing. */
  function ByteCount(n: nat): (k: nat)
    ensures 8 * k <= 5 * n
  {
    var r := n % 8;
    assert n == 8 * (n / 8) + r;
    5 * (n / 8) + if r == 2 then 1 else if r == 4 then 2 else if r == 5 then 3 else if r == 7 then 4 else 0
  }

  /** The bits up to the last whole byte. */
  function WholeBytes(vs: seq<nat>): (s: bits)
    ensures |s| == 8 * ByteCount(|vs|)
  {
    WidthIs(|vs|);
    Unpack(vs, 5)[..8 * ByteCount(|vs|)]
  }

  function FromDigits(vs: seq<nat>): seq<byte> {
    assert Pow2(8) == 256;
    WidthIs(ByteCount(|vs|));
    Pack(WholeBytes(vs), 8, ByteCount(|vs|))
  }

  function Decode(s: string): Option<seq<byte>> {
    match Digits(s)
    case None => None
    case Some(vs) => Some(FromDigits(vs))
  }

  lemma CountsBack(n: nat)
    ensures ByteCount((8 * n + 4) / 5) == n
  {
    var q, r := n / 5, n % 5;
    assert n == 5 * q + r;
    assert (8 * n + 4) / 5 == 8 * q + (8 * r + 4) / 5;
  }

  lemma SpelledBits(b: seq<byte>, tail: bits)
    requires |tail| == |Fill(8 * |b|)|
    ensures Unpack(Spell(b, tail), 5) == Unpack(b, 8) + tail
  {
    WidthIs(|b|);
    WidthIs((8 * |b| + 4) / 5);
    UnpackOfPack(Unpack(b, 8) + tail, 5, (8 * |b| + 4) / 5);
  }

  lemma FromSpelled(b: seq<byte>, tail: bits)
    requires |tail| == |Fill(8 * |b|)|
    ensures FromDigits(Spell(b, tail)) == b
  {
    SpelledBits(b, tail);
    CountsBack(|b|);
    WidthIs(|b|);
    assert (Unpack(b, 8) + tail)[..8 * |b|] == Unpack(b, 8);
    assert Pow2(8) == 256;
    PackOfUnpack(b, 8);
  }

  /** The filling bits are never read. */
  lemma FillIgnored(b: seq<byte>, tail: bits)
    requires |tail| == |Fill(8 * |b|)|
    ensures Decode(Text(Spell(b, tail))) == Some(b)
  {
    DigitsOfText(Spell(b, tail));
    FromSpelled(b, tail);
  }

  /** Every byte string survives being printed and read back. */
  lemma DecodeEncode(b: seq<byte>)
    ensures Decode(Encode(b)) == Some(b)
  {
    FillIgnored(b, Fill(8 * |b|));
  }

  /** The number that digits spell, the first counting most. */
  function Number(vs: seq<nat>, w: nat): nat {
    if vs == [] then 0 else vs[0] * Pow2(Width(|vs| - 1, w)) + Number(vs[1..], w)
  }

  lemma ValueLast(s: bits)
    requires s != []
    ensures Value(s) == 2 * Value(s[..|s| - 1]) + if s[|s| - 1] then 1 else 0
  {
  }

  lemma Doubled(x: nat, p: nat, y: nat, bit: nat)
    ensures 2 * (x * p + y) + bit == x * (2 * p) + (2 * y + bit)
  {
    assert 2 * (x * p) == x * (2 * p);
  }

  lemma {:induction false} ValueJoined(s: bits, t: bits)
    ensures Value(s + t) == Value(s) * Pow2(|t|) + Value(t)
    decreases |t|
  {
    hide Value;
    if t == [] {
      assert s + t == s && Value([]) == 0 by {
        ValueOfZeros([]);
      }
    } else {
      var front := t[..|t| - 1];
      assert (s + t)[..|s + t| - 1] == s + front;
      ValueJoined(s, front);
      ValueLast(s + t);
      ValueLast(t);
      Doubled(Value(s), Pow2(|front|), Value(front), if t[|t| - 1] then 1 else 0);
    }
  }

  /** The bits of digits, end to end, spell the same number. */
  lemma {:induction false} ValueUnpacked(vs: seq<nat>, w: nat)
    requires forall i :: 0 <= i < |vs| ==> vs[i] < Pow2(w)
    ensures Value(Unpack(vs, w)) == Number(vs, w)
  {
    if vs != [] {
      ValueOfBits(vs[0], w);
      ValueUnpacked(vs[1..], w);
      ValueJoined(Bits(vs[0], w), Unpack(vs[1..], w));
    }
  }

  lemma {:induction false} ValueOfZeros(s: bits)
    requires forall i :: 0 <= i < |s| ==> !s[i]
    ensures Value(s) == 0
  {
    if s != [] {
      ValueOfZeros(s[..|s| - 1]);
    }
  }

  /** What is printed, as a number: the bytes', shifted up by zero bits to fill the last
    * character, in the digits of the alphabet. */
  lemma EncodedNumber(b: seq<byte>) returns (vs: seq<nat>)
    ensures |vs| == (8 * |b| + 4) / 5 && |Encode(b)| == |vs|
    ensures forall i :: 0 <= i < |vs| ==> vs[i] < 32 && Encode(b)[i] == "abcdefghijklmnopqrstuvwxyz234567"[vs[i]]
    ensures Number(vs, 5) == Number(b, 8) * Pow2(5 * |vs| - 8 * |b|)
  {
    hide Pow2, Value, Unpack, Number;
    vs := Spell(b, Fill(8 * |b|));
    SpelledNumber(b);
    forall i | 0 <= i < |vs| ensures Encode(b)[i] == "abcdefghijklmnopqrstuvwxyz234567"[vs[i]] {
      AlphabetAt(vs[i]);
    }
  }

  lemma SpelledNumber(b: seq<byte>)
    ensures var zeros := Fill(8 * |b|);
            && Number(Spell(b, zeros), 5) == Number(b, 8) * Pow2(|zeros|)
            && |zeros| == 5 * |Spell(b, zeros)| - 8 * |b|
  {
    hide Value, Unpack, Number, Spell, Width;
    var zeros := Fill(8 * |b|);
    var vs := Spell(b, zeros);
    SpelledBits(b, zeros);
    assert Pow2(5) == 32 && Pow2(8) == 256;
    ValueUnpacked(vs, 5);
    ValueUnpacked(b, 8);
    ValueJoined(Unpack(b, 8), zeros);
    ValueOfZeros(zeros);
  }

  lemma AlphabetAt(v: nat)
    requires v < 32
    ensures Lower(DigitChar(v)) == "abcdefghijklmnopqrstuvwxyz234567"[v]
  {
  }

  /** Characters of the alphabet in either case, and the two that become such. */
  predicate IsDigit(c: char) {
    'a' <= c <= 'z' || 'A' <= c <= 'Z' || '2' <= c <= '7' || c == '\U{0131}' || c == '\U{017F}'
  }

  /** Reading takes either case, and passes over line ends. */
  lemma {:induction false} DecodeReads(s: string)
    ensures Decode(s).Some? <==> forall i :: 0 <= i < |s| ==> s[i] in {'\r', '\n'} || IsDigit(s[i])
    ensures Decode(s) == Decode(Shown(s))
  {
    hide FromDigits;
    if s != "" {
      DecodeReads(s[1..]);
      InAlphabet(s[0]);
      assert forall i :: 0 < i < |s| ==> s[i] == s[1..][i - 1];
      assert forall i :: 0 <= i < |s[1..]| ==> s[1..][i] == s[i + 1];
    }
    DigitsOfShown(s);
  }

  lemma InAlphabet(c: char)
    ensures DigitValue(Upper(c)).Some? <==> IsDigit(c)
  {
  }

  /** The same without line ends, in upper case. */
  function Shown(s: string): string {
    if s == "" then "" else (if s[0] in {'\r', '\n'} then "" else [Upper(s[0])]) + Shown(s[1..])
  }

  lemma {:induction false} DigitsOfShown(s: string)
    ensures Digits(Shown(s)) == Digits(s)
  {
    if s != "" {
      DigitsOfShown(s[1..]);
      if s[0] !in {'\r', '\n'} {
        var c := Upper(s[0]);
        assert Shown(s)[1..] == Shown(s[1..]) && Shown(s)[0] == c;
        assert Upper(c) == c && c !in {'\r', '\n'};
      } else {
        assert Shown(s) == Shown(s[1..]);
      }
    }
  }

  lemma NoUnderscore(b: seq<byte>)
    ensures '_' !in Encode(b)
  {
    var vs := Spell(b, Fill(8 * |b|));
    forall i | 0 <= i < |vs| ensures Text(vs)[i] != '_' {
      DigitOfChar(vs[i]);
    }
  }

  /** Reading is not injective, and this is exactly how far it is from it: two
    * spellings of one length read as the same bytes precisely when they differ
    * only in the bits past the last whole byte. */
  lemma SameBytesIff(s: string, t: string)
    requires Digits(s).Some? && Digits(t).Some? && |Digits(s).value| == |Digits(t).value|
    ensures Decode(s) == Decode(t) <==> WholeBytes(Digits(s).value) == WholeBytes(Digits(t).value)
  {
    var vs, ws := Digits(s).value, Digits(t).value;
    WidthIs(ByteCount(|vs|));
    assert Pow2(8) == 256;
    UnpackOfPack(WholeBytes(vs), 8, ByteCount(|vs|));
    UnpackOfPack(WholeBytes(ws), 8, ByteCount(|ws|));
  }

  lemma SpellInjective(b: seq<byte>, t: bits, u: bits)
    requires |t| == |u| == |Fill(8 * |b|)| && t != u
    ensures Text(Spell(b, t)) != Text(Spell(b, u))
  {
    DigitsOfText(Spell(b, t));
    DigitsOfText(Spell(b, u));
    SpelledBits(b, t);
    SpelledBits(b, u);
    WidthIs(|b|);
    assert (Unpack(b, 8) + t)[8 * |b|..] == t && (Unpack(b, 8) + u)[8 * |b|..] == u;
  }

  /** Whenever the last character has spare bits, a byte string has a second
    * spelling of the same length. */
  lemma SecondSpelling(b: seq<byte>) returns (t: string)
    requires |b| % 5 != 0
    ensures t != Encode(b) && |t| == |Encode(b)| && Decode(t) == Some(b)
  {
    var zeros := Fill(8 * |b|);
    var ones := seq(|zeros|, _ => true);
    assert ones[0] != zeros[0];
    t := Text(Spell(b, ones));
    FillIgnored(b, ones);
    SpellInjective(b, ones, zeros);
  }
}

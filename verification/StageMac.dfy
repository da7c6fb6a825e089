/** The tag that authenticates a rewrap stage: how its message is framed, and how
  * its file is spelled.
  */
module StageMac {
  import opened Options
  import opened Base32

  type bytes = seq<byte>

  const LABEL := "heyarr/rewrap-stage-mac/v1"
  const FILES: seq<string> := ["manifest.json", "recovery.blob", "SHA256SUMS"]
  const TAG_BYTES := 32

  /** The keyed hash under the stage's key: any function with 32-byte values. */
  type Hmac = h: bytes -> bytes | forall m :: |h(m)| == TAG_BYTES witness (_ => Zeros(TAG_BYTES))

  function Zeros(n: nat): (b: bytes)
    ensures |b| == n
  {
    seq(n, _ => 0)
  }

  // ---------------------------------------------------------------------
  // Framing
  // ---------------------------------------------------------------------

  function Pow256(k: nat): (p: nat)
    ensures p > 0
  {
    if k == 0 then 1 else 256 * Pow256(k - 1)
  }

  /** The low `k` bytes of `n`, most significant first. */
  function BigEndian(n: nat, k: nat): (b: bytes)
    ensures |b| == k
  {
    if k == 0 then [] else BigEndian(n / 256, k - 1) + [n % 256]
  }

  lemma {:induction false} BigEndianInjective(m: nat, n: nat, k: nat)
    requires m < Pow256(k) && n < Pow256(k) && BigEndian(m, k) == BigEndian(n, k)
    ensures m == n
  {
    if k > 0 {
      var a, b := BigEndian(m, k), BigEndian(n, k);
      assert a[..k - 1] == BigEndian(m / 256, k - 1) && b[..k - 1] == BigEndian(n / 256, k - 1);
      assert a[k - 1] == m % 256 && b[k - 1] == n % 256;
      BigEndianInjective(m / 256, n / 256, k - 1);
    }
  }

  /** The number some bytes spell: the first counts most. */
  function Places(b: bytes): nat {
    if b == [] then 0 else b[0] * Pow256(|b| - 1) + Places(b[1..])
  }

  lemma {:induction false} LastPlace(b: bytes, d: byte)
    ensures Places(b + [d]) == 256 * Places(b) + d
  {
    if b == [] {
      assert b + [d] == [d] && [d][1..] == [];
    } else {
      assert (b + [d])[1..] == b[1..] + [d];
      LastPlace(b[1..], d);
      var x, p := b[0] as nat, Pow256(|b| - 1);
      assert x * (256 * p) == 256 * (x * p);
    }
  }

  /** The bytes of a length spell it. */
  lemma {:induction false} BigEndianSpells(n: nat, k: nat)
    requires n < Pow256(k)
    ensures Places(BigEndian(n, k)) == n
  {
    if k > 0 {
      BigEndianSpells(n / 256, k - 1);
      LastPlace(BigEndian(n / 256, k - 1), n % 256);
    }
  }

  function Field(b: bytes): bytes {
    BigEndian(|b|, 8) + b
  }

  /** Lengths an eight-byte prefix can tell apart. */
  predicate Framable(b: bytes) {
    |b| < Pow256(8)
  }

  function Fields(bs: seq<bytes>): bytes {
    if bs == [] then [] else Field(bs[0]) + Fields(bs[1..])
  }

  lemma FieldPrefix(a: bytes, b: bytes, r: bytes, s: bytes)
    requires Framable(a) && Framable(b) && Field(a) + r == Field(b) + s
    ensures a == b && r == s
  {
    hide BigEndian, Pow256;
    var left, right := Field(a) + r, Field(b) + s;
    assert left[..8] == BigEndian(|a|, 8) && right[..8] == BigEndian(|b|, 8);
    BigEndianInjective(|a|, |b|, 8);
    assert left[8..8 + |a|] == a && right[8..8 + |b|] == b;
    assert left[8 + |a|..] == r && right[8 + |b|..] == s;
  }

  /** No byte can move from one field to the next, nor a field be split, joined or
    * dropped: equal framings have equal fields, and equally many. */
  lemma {:induction false} FieldsInjective(xs: seq<bytes>, ys: seq<bytes>)
    requires forall x :: x in xs ==> Framable(x)
    requires forall y :: y in ys ==> Framable(y)
    requires Fields(xs) == Fields(ys)
    ensures xs == ys
  {
    hide Framable, BigEndian;
    if xs != [] && ys != [] {
      FieldPrefix(xs[0], ys[0], Fields(xs[1..]), Fields(ys[1..]));
      FieldsInjective(xs[1..], ys[1..]);
      assert xs == [xs[0]] + xs[1..] && ys == [ys[0]] + ys[1..];
    }
  }

  // ---------------------------------------------------------------------
  // The message
  // ---------------------------------------------------------------------

  /** ASCII text as bytes. */
  function Ascii(s: string): (b: bytes)
    ensures |b| == |s|
    ensures forall i :: 0 <= i < |s| && s[i] as int < 256 ==> b[i] == s[i] as int
  {
    seq(|s|, i requires 0 <= i < |s| => s[i] as int % 256)
  }

  predicate Covers(files: map<string, bytes>) {
    files.Keys == set name | name in FILES
  }

  function NamesAndData(files: map<string, bytes>, names: seq<string>): (bs: seq<bytes>)
    requires forall name :: name in names ==> name in files
    ensures |bs| == 2 * |names|
  {
    if names == [] then []
    else [Ascii(names[0]), files[names[0]]] + NamesAndData(files, names[1..])
  }

  /** The label, how many files, then each file's name and contents. */
  function Message(files: map<string, bytes>): bytes
    requires Covers(files)
  {
    Field(Ascii(LABEL)) + BigEndian(|FILES|, 8) + Fields(NamesAndData(files, FILES))
  }

  lemma {:induction false} NamesAndDataAt(files: map<string, bytes>, names: seq<string>, i: nat)
    requires forall name :: name in names ==> name in files
    requires i < |names|
    ensures NamesAndData(files, names)[2 * i + 1] == files[names[i]]
  {
    if i > 0 {
      NamesAndDataAt(files, names[1..], i - 1);
    }
  }

  lemma {:induction false} AllFramable(files: map<string, bytes>, names: seq<string>)
    requires forall name :: name in names ==> name in files && Framable(files[name]) && Framable(Ascii(name))
    ensures forall b :: b in NamesAndData(files, names) ==> Framable(b)
  {
    if names != [] {
      AllFramable(files, names[1..]);
    }
  }

  lemma NamesFramable()
    ensures forall name :: name in FILES ==> Framable(Ascii(name))
  {
    assert Pow256(1) == 256;
    assert Pow256(2) >= 256 && Pow256(3) >= 256 && Pow256(4) >= 256;
    assert Pow256(5) >= 256 && Pow256(6) >= 256 && Pow256(7) >= 256 && Pow256(8) >= 256;
  }

  /** Two stages with one message hold the same files, byte for byte. */
  lemma MessageInjective(f: map<string, bytes>, g: map<string, bytes>)
    requires Covers(f) && Covers(g) && Message(f) == Message(g)
    requires forall name :: name in FILES ==> Framable(f[name]) && Framable(g[name])
    ensures f == g
  {
    hide Framable, BigEndian, Field;
    NamesFramable();
    AllFramable(f, FILES);
    AllFramable(g, FILES);
    var head := Field(Ascii(LABEL)) + BigEndian(|FILES|, 8);
    var a, b := Fields(NamesAndData(f, FILES)), Fields(NamesAndData(g, FILES));
    assert (head + a)[|head|..] == a && (head + b)[|head|..] == b;
    FieldsInjective(NamesAndData(f, FILES), NamesAndData(g, FILES));
    forall name | name in f ensures f[name] == g[name] {
      var i :| 0 <= i < |FILES| && FILES[i] == name;
      NamesAndDataAt(f, FILES, i);
      NamesAndDataAt(g, FILES, i);
    }
  }

  /** The message said outright: the label, the count, and the three files in order. */
  lemma MessageSaid(files: map<string, bytes>)
    requires Covers(files)
    ensures "manifest.json" in files && "recovery.blob" in files && "SHA256SUMS" in files
    ensures Message(files) ==
              Field(Ascii("heyarr/rewrap-stage-mac/v1")) + BigEndian(3, 8)
              + Field(Ascii("manifest.json")) + Field(files["manifest.json"])
              + Field(Ascii("recovery.blob")) + Field(files["recovery.blob"])
              + Field(Ascii("SHA256SUMS")) + Field(files["SHA256SUMS"])
  {
    hide Field, BigEndian, Ascii;
    var one, two, three := FILES[0], FILES[1], FILES[2];
    assert FILES[1..] == [two, three] && [two, three][1..] == [three] && [three][1..] == [];
    TwoFields(Ascii(three), files[three], []);
    TwoFields(Ascii(two), files[two], NamesAndData(files, [three]));
    TwoFields(Ascii(one), files[one], NamesAndData(files, [two, three]));
    assert NamesAndData(files, [three]) == [Ascii(three), files[three]] + [];
  }

  lemma TwoFields(a: bytes, b: bytes, rest: seq<bytes>)
    ensures Fields([a, b] + rest) == Field(a) + Field(b) + Fields(rest)
  {
    hide Field;
    assert ([a, b] + rest)[1..] == [b] + rest && ([b] + rest)[1..] == rest;
  }

  /** A running hash: what has been written so far. */
  class Hash {
    var written: bytes

    constructor ()
      ensures written == []
    {
      written := [];
    }

    method Write(b: bytes)
      modifies this
      ensures written == old(written) + b
    {
      written := written + b;
    }

    method WriteField(b: bytes)
      modifies this
      ensures written == old(written) + Field(b)
    {
      Write(BigEndian(|b|, 8));
      Write(b);
    }
  }

  /** The tag over exactly the covered files; anything else is refused. */
  method RewrapStageMac(hmac: Hmac, files: map<string, bytes>) returns (tag: Option<bytes>)
    ensures tag == if Covers(files) then Some(hmac(Message(files))) else None
  {
    hide Covers, Message, Fields, NamesAndData, Field, BigEndian, Ascii, FILES;
    CoversAll(files);
    if |files| != |FILES| {
      return None;
    }
    var mac := new Hash();
    mac.WriteField(Ascii(LABEL));
    mac.Write(BigEndian(|FILES|, 8));
    var ok := WriteFiles(mac, files);
    if !ok {
      return None;
    }
    assert mac.written == Message(files) by {
      MessageIs(files, mac.written);
    }
    return Some(hmac(mac.written));
  }

  method WriteFiles(mac: Hash, files: map<string, bytes>) returns (ok: bool)
    modifies mac
    ensures ok <==> forall name :: name in FILES ==> name in files
    ensures ok ==> mac.written == old(mac.written) + Fields(NamesAndData(files, FILES))
  {
    hide Fields, NamesAndData, Field, BigEndian, Ascii, FILES;
    NoFiles(files);
    ghost var head := mac.written;
    assert FILES[..0] == [];
    for i := 0 to |FILES|
      invariant forall j :: 0 <= j < i ==> FILES[j] in files
      invariant mac.written == head + Fields(NamesAndData(files, FILES[..i]))
    {
      if FILES[i] !in files {
        return false;
      }
      mac.WriteField(Ascii(FILES[i]));
      mac.WriteField(files[FILES[i]]);
      OneMoreFile(files, i);
      Joined(head, Fields(NamesAndData(files, FILES[..i])), Field(Ascii(FILES[i])), Field(files[FILES[i]]));
    }
    assert FILES[..|FILES|] == FILES;
    return true;
  }

  lemma MessageIs(files: map<string, bytes>, written: bytes)
    requires Covers(files)
    requires written == [] + Field(Ascii(LABEL)) + BigEndian(|FILES|, 8) + Fields(NamesAndData(files, FILES))
    ensures written == Message(files)
  {
    hide Field, BigEndian, Fields, NamesAndData, Ascii;
    assert [] + Field(Ascii(LABEL)) == Field(Ascii(LABEL));
  }

  lemma Joined(h: bytes, x: bytes, a: bytes, b: bytes)
    ensures h + x + a + b == h + (x + a + b)
  {
  }

  lemma NoFiles(files: map<string, bytes>)
    ensures Fields(NamesAndData(files, [])) == []
  {
  }

  lemma CoversAll(files: map<string, bytes>)
    ensures Covers(files) ==> |files| == |FILES|
    ensures Covers(files) ==> forall name :: name in FILES ==> name in files
    ensures |files| == |FILES| && (forall name :: name in FILES ==> name in files) ==> Covers(files)
  {
    var names := set name | name in FILES;
    assert names == {FILES[0], FILES[1], FILES[2]};
    assert |names| == 3;
    if |files| == 3 && forall name :: name in FILES ==> name in files {
      assert names <= files.Keys;
      assert |files.Keys - names| == 0;
    }
  }

  lemma {:induction false} FieldsMore(xs: seq<bytes>, a: bytes, b: bytes)
    ensures Fields(xs + [a, b]) == Fields(xs) + Field(a) + Field(b)
  {
    hide Field;
    if xs == [] {
      assert xs + [a, b] == [a, b] && [a, b][1..] == [b] && [b][1..] == [];
    } else {
      assert (xs + [a, b])[1..] == xs[1..] + [a, b];
      FieldsMore(xs[1..], a, b);
    }
  }

  lemma {:induction false} NamesAndDataMore(files: map<string, bytes>, names: seq<string>, name: string)
    requires (forall n :: n in names ==> n in files) && name in files
    ensures NamesAndData(files, names + [name]) == NamesAndData(files, names) + [Ascii(name), files[name]]
  {
    if names != [] {
      assert (names + [name])[1..] == names[1..] + [name];
      NamesAndDataMore(files, names[1..], name);
    } else {
      assert names + [name] == [name];
    }
  }

  lemma OneMoreFile(files: map<string, bytes>, i: nat)
    requires i < |FILES| && forall j :: 0 <= j <= i ==> FILES[j] in files
    ensures Fields(NamesAndData(files, FILES[..i + 1])) ==
              Fields(NamesAndData(files, FILES[..i])) + Field(Ascii(FILES[i])) + Field(files[FILES[i]])
  {
    assert FILES[..i + 1] == FILES[..i] + [FILES[i]];
    NamesAndDataMore(files, FILES[..i], FILES[i]);
    FieldsMore(NamesAndData(files, FILES[..i]), Ascii(FILES[i]), files[FILES[i]]);
  }

  // ---------------------------------------------------------------------
  // The file
  // ---------------------------------------------------------------------

  function HexChar(v: nat): char
    requires v < 16
  {
    if v < 10 then '0' + v as char else 'a' + (v - 10) as char
  }

  function HexValue(c: char): Option<nat> {
    if '0' <= c <= '9' then Some((c - '0') as nat)
    else if 'a' <= c <= 'f' then Some(10 + (c - 'a') as nat)
    else if 'A' <= c <= 'F' then Some(10 + (c - 'A') as nat)
    else None
  }

  function Hex(b: bytes): (s: string)
    ensures |s| == 2 * |b|
  {
    if b == [] then "" else [HexChar(b[0] / 16), HexChar(b[0] % 16)] + Hex(b[1..])
  }

  /** Two digits for each byte, the high one first. */
  lemma {:induction false} HexAt(b: bytes, i: nat)
    requires i < |b|
    ensures Hex(b)[2 * i] == "0123456789abcdef"[b[i] / 16] && Hex(b)[2 * i + 1] == "0123456789abcdef"[b[i] % 16]
  {
    if i > 0 {
      HexAt(b[1..], i - 1);
    }
  }

  /** Reads digits of either case. */
  function HexDecode(s: string): Option<bytes> {
    if s == "" then Some([])
    else if |s| == 1 then None
    else
      match (HexValue(s[0]), HexValue(s[1]), HexDecode(s[2..]))
      case (Some(hi), Some(lo), Some(b)) => if hi < 16 && lo < 16 then Some([16 * hi + lo] + b) else None
      case _ => None
  }

  predicate IsLower(s: string) {
    forall i :: 0 <= i < |s| ==> Lower(s[i]) == s[i]
  }

  lemma {:induction false} HexReads(b: bytes)
    ensures HexDecode(Hex(b)) == Some(b) && IsLower(Hex(b))
  {
    if b != [] {
      HexReads(b[1..]);
      assert Hex(b)[2..] == Hex(b[1..]);
      assert b == [b[0]] + b[1..];
    }
  }

  /** In lower case a tag has one spelling. */
  lemma {:induction false} HexSpelledOnce(s: string, b: bytes)
    requires HexDecode(s) == Some(b) && IsLower(s)
    ensures s == Hex(b)
  {
    if s != "" {
      HexRest(s, b);
      HexCharRead(s[0]);
      HexCharRead(s[1]);
      HexSpelledOnce(s[2..], b[1..]);
      HexPair(b, HexValue(s[0]).value, HexValue(s[1]).value);
      assert s == [s[0], s[1]] + s[2..];
    }
  }

  lemma HexRest(s: string, b: bytes)
    requires HexDecode(s) == Some(b) && IsLower(s) && s != ""
    ensures |s| > 1 && b != [] && HexDecode(s[2..]) == Some(b[1..]) && IsLower(s[2..])
    ensures HexValue(s[0]).Some? && HexValue(s[1]).Some?
    ensures b[0] == 16 * HexValue(s[0]).value + HexValue(s[1]).value && HexValue(s[1]).value < 16
  {
    assert forall i :: 0 <= i < |s[2..]| ==> s[2..][i] == s[i + 2];
  }

  lemma HexPair(b: bytes, hi: nat, lo: nat)
    requires b != [] && hi < 16 && lo < 16 && b[0] == 16 * hi + lo
    ensures Hex(b) == [HexChar(hi), HexChar(lo)] + Hex(b[1..])
  {
    assert b[0] / 16 == hi && b[0] % 16 == lo;
  }

  lemma HexCharRead(c: char)
    ensures HexValue(c).Some? && Lower(c) == c ==> HexValue(c).value < 16 && HexChar(HexValue(c).value) == c
  {
  }

  function FormatStageMac(tag: bytes): string {
    Hex(tag) + "\n"
  }

  datatype Verdict = Authentic | BadTag | BadFiles

  /** Accepts exactly the file that formatting the tag writes. A file of any other
    * spelling is refused before the covered files are looked at. */
  method VerifyStageMac(hmac: Hmac, macFile: string, files: map<string, bytes>) returns (v: Verdict)
    ensures v == Authentic <==> Covers(files) && macFile == FormatStageMac(hmac(Message(files)))
    ensures v == Authentic <==> Covers(files) && macFile == Hex(hmac(Message(files))) + "\n"
    ensures v == BadFiles <==> !Covers(files) && exists tag :: |tag| == TAG_BYTES && macFile == FormatStageMac(tag)
  {
    var n := |macFile| - 1;
    if n < 0 || macFile[n] != '\n' {
      NotFormatted(macFile);
      return BadTag;
    }
    var line := macFile[..n];
    assert macFile == line + "\n";
    if |line| != 2 * TAG_BYTES || exists i :: 0 <= i < |line| && Lower(line[i]) != line[i] {
      NotFormatted(macFile);
      return BadTag;
    }
    var got := HexDecode(line);
    if got == None {
      NotFormatted(macFile);
      return BadTag;
    }
    HexSpelledOnce(line, got.value);
    assert macFile == FormatStageMac(got.value);
    var want := RewrapStageMac(hmac, files);
    if want == None {
      return BadFiles;
    }
    FormatInjective(got.value, want.value);
    return if got == want then Authentic else BadTag;
  }

  lemma FormatInjective(a: bytes, b: bytes)
    ensures FormatStageMac(a) == FormatStageMac(b) <==> a == b
  {
    if FormatStageMac(a) == FormatStageMac(b) {
      assert Hex(a) == FormatStageMac(a)[..|FormatStageMac(a)| - 1];
      assert Hex(b) == FormatStageMac(b)[..|FormatStageMac(b)| - 1];
      HexReads(a);
      HexReads(b);
    }
  }

  /** What every written tag file looks like. */
  lemma NotFormatted(macFile: string)
    ensures forall tag :: |tag| == TAG_BYTES && macFile == FormatStageMac(tag) ==>
              var n := |macFile| - 1;
              n == 2 * TAG_BYTES && macFile[n] == '\n' && IsLower(macFile[..n]) && HexDecode(macFile[..n]) == Some(tag)
  {
    forall tag | |tag| == TAG_BYTES && macFile == FormatStageMac(tag)
      ensures var n := |macFile| - 1;
              n == 2 * TAG_BYTES && macFile[n] == '\n' && IsLower(macFile[..n]) && HexDecode(macFile[..n]) == Some(tag)
    {
      HexReads(tag);
      assert macFile[..|macFile| - 1] == Hex(tag);
    }
  }
}

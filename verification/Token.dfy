/** The bearer credential: `heyarr_<id>_<secret>`, a public row id and a secret. */
module Token {
  import opened Options
  import opened Base32

  const PREFIX := "heyarr_"
  const ID_BYTES := 16
  const SECRET_BYTES := 32

  datatype Presented = Presented(id: seq<byte>, secret: seq<byte>, raw: string)

  /** What minting prints. */
  function Print(id: seq<byte>, secret: seq<byte>): string {
    PREFIX + Encode(id) + "_" + Encode(secret)
  }

  /** Everything before the first separator, and everything after it. */
  function Cut(s: string, sep: char): Option<(string, string)> {
    if s == [] then None
    else if s[0] == sep then Some(("", s[1..]))
    else
      match Cut(s[1..], sep)
      case None => None
      case Some((head, tail)) => Some(([s[0]] + head, tail))
  }

  /** One half of the credential: decodable, of the right length, and spelled the
    * way printing spells it. */
  function ParsePart(part: string, size: nat): Option<seq<byte>> {
    match Decode(part)
    case None => None
    case Some(b) => if |b| != size || Encode(b) != part then None else Some(b)
  }

  function ParseBody(body: string): Option<(seq<byte>, seq<byte>)> {
    match Cut(body, '_')
    case None => None
    case Some((idPart, secretPart)) =>
      match (ParsePart(idPart, ID_BYTES), ParsePart(secretPart, SECRET_BYTES))
      case (Some(id), Some(secret)) => Some((id, secret))
      case _ => None
  }

  function ParseToken(raw: string): Option<Presented> {
    if !(PREFIX <= raw) then None
    else
      match ParseBody(raw[|PREFIX|..])
      case None => None
      case Some((id, secret)) => Some(Presented(id, secret, raw))
  }

  // ---------------------------------------------------------------------
  // One spelling for each credential
  // ---------------------------------------------------------------------

  lemma {:induction false} CutJoins(s: string, sep: char)
    ensures match Cut(s, sep)
            case None => sep !in s
            case Some((head, tail)) => sep !in head && s == head + [sep] + tail
  {
    if s != [] && s[0] != sep {
      CutJoins(s[1..], sep);
    }
  }

  lemma {:induction false} CutOfJoin(head: string, sep: char, tail: string)
    requires sep !in head
    ensures Cut(head + [sep] + tail, sep) == Some((head, tail))
  {
    var s := head + [sep] + tail;
    if head == [] {
      assert s[1..] == tail;
    } else {
      assert s[1..] == head[1..] + [sep] + tail;
      CutOfJoin(head[1..], sep, tail);
      assert head == [head[0]] + head[1..];
    }
  }

  lemma PartIff(part: string, size: nat, b: seq<byte>)
    ensures ParsePart(part, size) == Some(b) <==> |b| == size && part == Encode(b)
  {
    DecodeEncode(b);
  }

  lemma BodyPrinted(id: seq<byte>, secret: seq<byte>)
    requires |id| == ID_BYTES && |secret| == SECRET_BYTES
    ensures ParseBody(Encode(id) + ['_'] + Encode(secret)) == Some((id, secret))
  {
    NoUnderscore(id);
    CutOfJoin(Encode(id), '_', Encode(secret));
    PartIff(Encode(id), ID_BYTES, id);
    PartIff(Encode(secret), SECRET_BYTES, secret);
  }

  lemma BodyIsPrinted(body: string, id: seq<byte>, secret: seq<byte>)
    requires ParseBody(body) == Some((id, secret))
    ensures |id| == ID_BYTES && |secret| == SECRET_BYTES && body == Encode(id) + ['_'] + Encode(secret)
  {
    CutJoins(body, '_');
    var parts := Cut(body, '_').value;
    PartIff(parts.0, ID_BYTES, id);
    PartIff(parts.1, SECRET_BYTES, secret);
  }

  /** A string is a credential for an id and a secret exactly when it is what
    * minting prints for them: parsing inverts printing, and accepts nothing
    * else, however the decoder treats case, line breaks and spare bits. */
  lemma ParsesIffPrinted(raw: string, p: Presented)
    ensures ParseToken(raw) == Some(p) <==>
              p.raw == raw && |p.id| == ID_BYTES && |p.secret| == SECRET_BYTES && raw == Print(p.id, p.secret)
  {
    PrintStripped(p.id, p.secret);
    if ParseToken(raw) == Some(p) {
      BodyIsPrinted(raw[|PREFIX|..], p.id, p.secret);
      PrefixedIff(raw, PREFIX, Encode(p.id) + ['_'] + Encode(p.secret));
    }
    if |p.id| == ID_BYTES && |p.secret| == SECRET_BYTES && raw == Print(p.id, p.secret) {
      BodyPrinted(p.id, p.secret);
      PrefixedIff(raw, PREFIX, Encode(p.id) + ['_'] + Encode(p.secret));
    }
  }

  /** The same, spelled out. */
  lemma ParsesIffSpelled(raw: string, p: Presented)
    ensures ParseToken(raw) == Some(p) <==>
              && p.raw == raw && |p.id| == 16 && |p.secret| == 32
              && raw == "heyarr_" + Encode(p.id) + "_" + Encode(p.secret)
  {
    hide ParseToken, Encode;
    ParsesIffPrinted(raw, p);
  }

  lemma PrintStripped(id: seq<byte>, secret: seq<byte>)
    ensures Print(id, secret) == PREFIX + (Encode(id) + ['_'] + Encode(secret))
  {
  }

  lemma PrefixedIff(s: string, prefix: string, rest: string)
    ensures s == prefix + rest <==> prefix <= s && s[|prefix|..] == rest
  {
    if prefix <= s {
      assert s == prefix + s[|prefix|..];
    }
  }

  /** No credential has two spellings. */
  lemma OneSpelling(a: string, b: string)
    requires ParseToken(a).Some? && ParseToken(b).Some?
    requires ParseToken(a).value.id == ParseToken(b).value.id
    requires ParseToken(a).value.secret == ParseToken(b).value.secret
    ensures a == b
  {
    ParsesIffPrinted(a, ParseToken(a).value);
    ParsesIffPrinted(b, ParseToken(b).value);
  }

  /** The re-encoding is what makes it so: without it, every secret would have a
    * second accepted spelling. */
  lemma DecoderAloneIsAmbiguous(secret: seq<byte>) returns (t: string)
    requires |secret| == SECRET_BYTES
    ensures t != Encode(secret) && Decode(t) == Some(secret)
    ensures ParsePart(t, SECRET_BYTES) == None
  {
    t := SecondSpelling(secret);
  }
}

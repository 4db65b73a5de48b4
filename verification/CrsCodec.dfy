/** Printing and parsing the common reference string (src/core/crs.rs). */
module CrsCodec {
  import opened Bytes
  import opened Crs
  import opened Group

  type Utf8Check = f: seq<byte> -> bool | f([]) witness (b: seq<byte>) => true

  /** Whether bytes are valid UTF-8. */
  const IS_UTF8: Utf8Check

  datatype CrsError =
    | ShortHeader | ShortG | InvalidG | ShortHName | InvalidHName | ShortGenerators | InvalidH
    | ShortNameLength | ShortName | InvalidUtf8Name | NameTooLong | ShortCredential
    | ShortOriginLength | ShortOrigin | InvalidUtf8Origin

  // ── printing ───────────────────────────────────────────────────────────────

  function MerchantBytes(m: Merchant): seq<byte> {
    EncodeBE(|m.name|, 2) + m.name + m.credentialGenerator + EncodeBE(|m.origin|, 2) + m.origin
  }

  function MerchantsBytes(ms: seq<Merchant>): seq<byte> {
    if ms == [] then [] else MerchantBytes(ms[0]) + MerchantsBytes(ms[1..])
  }

  function PointList(ps: seq<Point>): seq<byte> {
    if ps == [] then [] else PointToBytes(ps[0]) + PointList(ps[1..])
  }

  function HeaderBytes(crs: Crs): seq<byte> {
    EncodeBE(crs.securityParam, 4) + EncodeBE(|crs.generators|, 4) + EncodeBE(crs.setSize, 4)
  }

  function ToBytes(crs: Crs): seq<byte> {
    HeaderBytes(crs) + PointToBytes(crs.g) + PointToBytes(crs.hName) + PointList(crs.generators)
      + MerchantsBytes(crs.merchants)
  }

  // ── parsing: a value and the position after it ─────────────────────────────

  type Parse<T> = Result<(T, nat), CrsError>

  function ParsePoint(b: seq<byte>, pos: nat, short: CrsError, invalid: CrsError): Parse<Point> {
    if |b| < pos + 33 then Err(short)
    else match PointFromBytes(b[pos..pos + 33])
      case None => Err(invalid)
      case Some(p) => Ok((p, pos + 33))
  }

  function ParsePoints(b: seq<byte>, pos: nat, n: nat): Parse<seq<Point>>
    decreases n
  {
    if n == 0 then Ok(([], pos)) else
      match ParsePoint(b, pos, ShortGenerators, InvalidH)
      case Err(e) => Err(e)
      case Ok((p, at)) =>
        match ParsePoints(b, at, n - 1)
        case Err(e) => Err(e)
        case Ok((ps, end)) => Ok(([p] + ps, end))
  }

  /** A length of two bytes and that many bytes of text. */
  function ParseText(b: seq<byte>, pos: nat, shortLength: CrsError, short: CrsError,
                     invalid: CrsError): Parse<seq<byte>> {
    if |b| < pos + 2 then Err(shortLength)
    else
      var n := DecodeBE(b[pos..pos + 2]);
      if |b| < pos + 2 + n then Err(short)
      else if !IS_UTF8(b[pos + 2..pos + 2 + n]) then Err(invalid)
      else Ok((b[pos + 2..pos + 2 + n], pos + 2 + n))
  }

  const MAX_NAME: nat := 255

  function ParseMerchant(b: seq<byte>, pos: nat, id: nat): Parse<Merchant> {
    match ParseText(b, pos, ShortNameLength, ShortName, InvalidUtf8Name)
    case Err(e) => Err(e)
    case Ok((name, at)) =>
      if |name| > MAX_NAME then Err(NameTooLong)
      else if |b| < at + 33 then Err(ShortCredential)
      else match ParseText(b, at + 33, ShortOriginLength, ShortOrigin, InvalidUtf8Origin)
        case Err(e) => Err(e)
        case Ok((origin, end)) => Ok((Merchant(name, b[at..at + 33], origin, id), end))
  }

  function ParseMerchants(b: seq<byte>, pos: nat, id: nat, n: nat): Parse<seq<Merchant>>
    decreases n
  {
    if n == 0 then Ok(([], pos)) else
      match ParseMerchant(b, pos, id)
      case Err(e) => Err(e)
      case Ok((m, at)) =>
        match ParseMerchants(b, at, id + 1, n - 1)
        case Err(e) => Err(e)
        case Ok((ms, end)) => Ok(([m] + ms, end))
  }

  lemma {:induction false} ParsedCounts(b: seq<byte>, pos: nat, id: nat, n: nat)
    ensures ParsePoints(b, pos, n).Ok? ==> |ParsePoints(b, pos, n).value.0| == n
    ensures ParseMerchants(b, pos, id, n).Ok? ==> |ParseMerchants(b, pos, id, n).value.0| == n
    decreases n
  {
    if n > 0 {
      var p, m := ParsePoint(b, pos, ShortGenerators, InvalidH), ParseMerchant(b, pos, id);
      if p.Ok? { ParsedCounts(b, p.value.1, id, n - 1); }
      if m.Ok? { ParsedCounts(b, m.value.1, id + 1, n - 1); }
    }
  }

  function ParseGenerators(b: seq<byte>): Parse<(Point, Point, seq<Point>)> {
    if |b| < 12 then Err(ShortHeader)
    else match ParsePoint(b, 12, ShortG, InvalidG)
      case Err(e) => Err(e)
      case Ok((g, at)) =>
        match ParsePoint(b, at, ShortHName, InvalidHName)
        case Err(e) => Err(e)
        case Ok((h, at')) =>
          match ParsePoints(b, at', DecodeBE(b[4..8]))
          case Err(e) => Err(e)
          case Ok((gens, end)) => Ok(((g, h, gens), end))
  }

  function ParseCrs(b: seq<byte>): Parse<Crs> {
    match ParseGenerators(b)
    case Err(e) => Err(e)
    case Ok(((g, h, gens), at)) =>
      var l := DecodeBE(b[4..8]);
      match ParseMerchants(b, at, 1, l)
      case Err(e) => Err(e)
      case Ok((ms, end)) =>
        ParsedCounts(b, 78, 1, l);
        ParsedCounts(b, at, 1, l);
        Ok((RawCrs(DecodeBE(b[..4]), g, h, gens, ms, DecodeBE(b[8..12])), end))
  }

  function FromBytes(b: seq<byte>): Result<Crs, CrsError> {
    match ParseCrs(b)
    case Err(e) => Err(e)
    case Ok((crs, _)) => Ok(crs)
  }

  // ── extension: more input never changes what was parsed ────────────────────

  lemma PointExtends(b: seq<byte>, rest: seq<byte>, pos: nat, short: CrsError, invalid: CrsError)
    ensures var r := ParsePoint(b, pos, short, invalid);
      r.Ok? ==> r.value.1 <= |b| && ParsePoint(b + rest, pos, short, invalid) == r
  {
    if |b| >= pos + 33 { assert (b + rest)[pos..pos + 33] == b[pos..pos + 33]; }
  }

  lemma {:induction false} PointsExtend(b: seq<byte>, rest: seq<byte>, pos: nat, n: nat)
    requires pos <= |b|
    ensures var r := ParsePoints(b, pos, n); r.Ok? ==> r.value.1 <= |b| && ParsePoints(b + rest, pos, n) == r
    decreases n
  {
    if n > 0 {
      PointExtends(b, rest, pos, ShortGenerators, InvalidH);
      var p := ParsePoint(b, pos, ShortGenerators, InvalidH);
      if p.Ok? { PointsExtend(b, rest, p.value.1, n - 1); }
    }
  }

  lemma TextExtends(b: seq<byte>, rest: seq<byte>, pos: nat, e0: CrsError, e1: CrsError, e2: CrsError)
    ensures var r := ParseText(b, pos, e0, e1, e2);
      r.Ok? ==> r.value.1 <= |b| && ParseText(b + rest, pos, e0, e1, e2) == r
  {
    if |b| >= pos + 2 {
      assert (b + rest)[pos..pos + 2] == b[pos..pos + 2];
      var n := DecodeBE(b[pos..pos + 2]);
      if |b| >= pos + 2 + n { assert (b + rest)[pos + 2..pos + 2 + n] == b[pos + 2..pos + 2 + n]; }
    }
  }

  lemma MerchantExtends(b: seq<byte>, rest: seq<byte>, pos: nat, id: nat)
    ensures var r := ParseMerchant(b, pos, id); r.Ok? ==> r.value.1 <= |b| && ParseMerchant(b + rest, pos, id) == r
  {
    hide ParseText;
    TextExtends(b, rest, pos, ShortNameLength, ShortName, InvalidUtf8Name);
    var name := ParseText(b, pos, ShortNameLength, ShortName, InvalidUtf8Name);
    if name.Ok? && |b| >= name.value.1 + 33 {
      var at := name.value.1;
      assert (b + rest)[at..at + 33] == b[at..at + 33];
      TextExtends(b, rest, at + 33, ShortOriginLength, ShortOrigin, InvalidUtf8Origin);
    }
  }

  lemma {:induction false} MerchantsExtend(b: seq<byte>, rest: seq<byte>, pos: nat, id: nat, n: nat)
    requires pos <= |b|
    ensures var r := ParseMerchants(b, pos, id, n);
      r.Ok? ==> r.value.1 <= |b| && ParseMerchants(b + rest, pos, id, n) == r
    decreases n
  {
    hide ParseMerchant;
    if n > 0 {
      MerchantExtends(b, rest, pos, id);
      var m := ParseMerchant(b, pos, id);
      if m.Ok? { MerchantsExtend(b, rest, m.value.1, id + 1, n - 1); }
    }
  }

  lemma CrsExtends(b: seq<byte>, rest: seq<byte>)
    ensures var r := ParseCrs(b); r.Ok? ==> r.value.1 <= |b| && ParseCrs(b + rest) == r
  {
    hide ParsePoint, ParsePoints, ParseMerchants;
    if |b| >= 12 {
      assert (b + rest)[..4] == b[..4] && (b + rest)[4..8] == b[4..8] && (b + rest)[8..12] == b[8..12];
      PointExtends(b, rest, 12, ShortG, InvalidG);
      var g := ParsePoint(b, 12, ShortG, InvalidG);
      if g.Ok? {
        PointExtends(b, rest, g.value.1, ShortHName, InvalidHName);
        var h := ParsePoint(b, g.value.1, ShortHName, InvalidHName);
        if h.Ok? {
          var l := DecodeBE(b[4..8]);
          PointsExtend(b, rest, h.value.1, l);
          var gens := ParsePoints(b, h.value.1, l);
          if gens.Ok? { MerchantsExtend(b, rest, gens.value.1, 1, l); }
        }
      }
    }
  }

  // ── round trip ─────────────────────────────────────────────────────────────

  predicate PrintableMerchant(m: Merchant) {
    |m.name| <= MAX_NAME && IS_UTF8(m.name) && |m.origin| <= 65535 && IS_UTF8(m.origin)
  }

  predicate Printable(crs: Crs) {
    && crs.securityParam < Pow256(4) && |crs.generators| < Pow256(4) && crs.setSize < Pow256(4)
    && forall i :: 0 <= i < |crs.merchants| ==> PrintableMerchant(crs.merchants[i])
  }

  /** Merchant ids are not printed; parsing numbers them from the given id on. */
  function Numbered(ms: seq<Merchant>, id: nat): (r: seq<Merchant>)
    ensures |r| == |ms|
  {
    if ms == [] then [] else [ms[0].(merchantId := id)] + Numbered(ms[1..], id + 1)
  }

  function Renumbered(crs: Crs): Crs { crs.(merchants := Numbered(crs.merchants, 1)) }

  lemma {:induction false} NumberedIds(ms: seq<Merchant>, id: nat)
    ensures forall i :: 0 <= i < |ms| ==> Numbered(ms, id)[i] == ms[i].(merchantId := id + i)
  {
    if ms != [] { NumberedIds(ms[1..], id + 1); }
  }

  /** Dropping n bytes already consumed. */
  lemma Suffix(b: seq<byte>, pos: nat, s: seq<byte>, t: seq<byte>, n: nat)
    requires pos <= |b| && b[pos..] == s + t && |s| == n
    ensures pos + n <= |b| && b[pos..pos + n] == s && b[pos + n..] == t
  {
    assert |b[pos..]| == |b| - pos;
    assert b[pos..pos + n] == b[pos..][..n];
    assert b[pos + n..] == b[pos..][n..];
  }

  lemma PointPrinted(b: seq<byte>, pos: nat, p: Point, rest: seq<byte>, short: CrsError, invalid: CrsError)
    requires pos <= |b| && b[pos..] == PointToBytes(p) + rest
    ensures ParsePoint(b, pos, short, invalid) == Ok((p, pos + 33)) && pos + 33 <= |b| && b[pos + 33..] == rest
  {
    Suffix(b, pos, PointToBytes(p), rest, 33);
    PointRoundTrip(p);
  }

  lemma {:induction false} PointsPrinted(b: seq<byte>, pos: nat, ps: seq<Point>, rest: seq<byte>)
    requires pos <= |b| && b[pos..] == PointList(ps) + rest
    ensures var end := pos + |PointList(ps)|;
      ParsePoints(b, pos, |ps|) == Ok((ps, end)) && end <= |b| && b[end..] == rest
    decreases ps
  {
    hide ParsePoint, PointToBytes;
    Suffix(b, pos, PointList(ps), rest, |PointList(ps)|);
    if ps != [] {
      assert PointList(ps) + rest == PointToBytes(ps[0]) + (PointList(ps[1..]) + rest);
      PointPrinted(b, pos, ps[0], PointList(ps[1..]) + rest, ShortGenerators, InvalidH);
      PointsPrinted(b, pos + 33, ps[1..], rest);
      assert [ps[0]] + ps[1..] == ps;
    }
  }

  lemma TextPrinted(b: seq<byte>, pos: nat, len: seq<byte>, s: seq<byte>, rest: seq<byte>, e0: CrsError, e1: CrsError,
                    e2: CrsError)
    requires |len| == 2 && DecodeBE(len) == |s| && IS_UTF8(s)
    requires pos <= |b| && b[pos..] == len + (s + rest)
    ensures ParseText(b, pos, e0, e1, e2) == Ok((s, pos + 2 + |s|)) && pos + 2 + |s| <= |b|
    ensures b[pos + 2 + |s|..] == rest
  {
    hide *;
    TwoPieces(b, pos, len, s, rest, pos + 2, pos + 2 + |s|);
    ParseTextAt(b, pos, len, s, pos + 2 + |s|, e0, e1, e2);
  }

  lemma TwoPieces(b: seq<byte>, pos: nat, s: seq<byte>, t: seq<byte>, rest: seq<byte>, mid: nat, end: nat)
    requires pos <= |b| && b[pos..] == s + (t + rest) && mid == pos + |s| && end == mid + |t|
    ensures end <= |b| && b[pos..mid] == s && b[mid..end] == t && b[end..] == rest
  {
    Suffix(b, pos, s, t + rest, |s|);
    Suffix(b, mid, t, rest, |t|);
  }

  lemma ParseTextAt(b: seq<byte>, pos: nat, len: seq<byte>, s: seq<byte>, end: nat, e0: CrsError, e1: CrsError,
                    e2: CrsError)
    requires end == pos + 2 + |s| && end <= |b| && DecodeBE(len) == |s| && IS_UTF8(s)
    requires b[pos..pos + 2] == len && b[pos + 2..end] == s
    ensures ParseText(b, pos, e0, e1, e2) == Ok((s, end))
  {
    hide DecodeBE;
  }

  lemma TwoByteLength(n: nat)
    requires n <= 65535
    ensures DecodeBE(EncodeBE(n, 2)) == n
  {
    DecodeEncode(n, 2);
    assert Pow256(2) == 65536;
  }

  lemma MerchantPrinted(b: seq<byte>, pos: nat, m: Merchant, rest: seq<byte>, id: nat)
    requires pos <= |b| && b[pos..] == MerchantBytes(m) + rest && PrintableMerchant(m)
    ensures var end := pos + |MerchantBytes(m)|;
      ParseMerchant(b, pos, id) == Ok((m.(merchantId := id), end)) && end <= |b| && b[end..] == rest
  {
    hide ParseText, ParseMerchant, DecodeBE;
    var nameLen, originLen := EncodeBE(|m.name|, 2), EncodeBE(|m.origin|, 2);
    TwoByteLength(|m.name|); TwoByteLength(|m.origin|);
    var tail := originLen + (m.origin + rest);
    assert MerchantBytes(m) + rest == nameLen + (m.name + (m.credentialGenerator + tail));
    MerchantPieces(b, pos, m, nameLen, originLen, rest, id);
  }

  lemma MerchantPieces(b: seq<byte>, pos: nat, m: Merchant, nameLen: seq<byte>, originLen: seq<byte>, rest: seq<byte>,
                       id: nat)
    requires |nameLen| == 2 && DecodeBE(nameLen) == |m.name| && |originLen| == 2 && DecodeBE(originLen) == |m.origin|
    requires PrintableMerchant(m) && pos <= |b|
    requires b[pos..] == nameLen + (m.name + (m.credentialGenerator + (originLen + (m.origin + rest))))
    ensures var end := pos + 37 + |m.name| + |m.origin|;
      ParseMerchant(b, pos, id) == Ok((m.(merchantId := id), end)) && end <= |b| && b[end..] == rest
  {
    var tail := originLen + (m.origin + rest);
    assert IS_UTF8(m.name) && IS_UTF8(m.origin);
    hide *;
    TextPrinted(b, pos, nameLen, m.name, m.credentialGenerator + tail, ShortNameLength, ShortName, InvalidUtf8Name);
    var at := pos + 2 + |m.name|;
    OriginPieces(b, at, m.credentialGenerator, originLen, m.origin, rest, at + 35 + |m.origin|);
    MerchantChain(b, pos, m, id, at, at + 35 + |m.origin|);
  }

  lemma OriginPieces(b: seq<byte>, at: nat, cred: Bytes33, len: seq<byte>, origin: seq<byte>, rest: seq<byte>, end: nat)
    requires |len| == 2 && DecodeBE(len) == |origin| && IS_UTF8(origin) && end == at + 35 + |origin|
    requires at <= |b| && b[at..] == cred + (len + (origin + rest))
    ensures at + 33 <= |b| && b[at..at + 33] == cred && end <= |b| && b[end..] == rest
    ensures ParseText(b, at + 33, ShortOriginLength, ShortOrigin, InvalidUtf8Origin) == Ok((origin, end))
  {
    hide *;
    Suffix(b, at, cred, len + (origin + rest), 33);
    TextPrinted(b, at + 33, len, origin, rest, ShortOriginLength, ShortOrigin, InvalidUtf8Origin);
  }

  lemma MerchantChain(b: seq<byte>, pos: nat, m: Merchant, id: nat, at: nat, end: nat)
    requires PrintableMerchant(m) && at + 33 <= |b| && b[at..at + 33] == m.credentialGenerator
    requires ParseText(b, pos, ShortNameLength, ShortName, InvalidUtf8Name) == Ok((m.name, at))
    requires ParseText(b, at + 33, ShortOriginLength, ShortOrigin, InvalidUtf8Origin) == Ok((m.origin, end))
    ensures ParseMerchant(b, pos, id) == Ok((m.(merchantId := id), end))
  {
    hide ParseText;
  }

  lemma {:induction false} MerchantsPrinted(b: seq<byte>, pos: nat, ms: seq<Merchant>, rest: seq<byte>, id: nat)
    requires pos <= |b| && b[pos..] == MerchantsBytes(ms) + rest
    requires forall i :: 0 <= i < |ms| ==> PrintableMerchant(ms[i])
    ensures var end := pos + |MerchantsBytes(ms)|;
      ParseMerchants(b, pos, id, |ms|) == Ok((Numbered(ms, id), end)) && end <= |b|
    decreases ms
  {
    hide ParseMerchant, MerchantBytes, PrintableMerchant;
    Suffix(b, pos, MerchantsBytes(ms), rest, |MerchantsBytes(ms)|);
    if ms != [] {
      var more := MerchantsBytes(ms[1..]) + rest;
      assert MerchantsBytes(ms) + rest == MerchantBytes(ms[0]) + more;
      MerchantPrinted(b, pos, ms[0], more, id);
      MerchantsPrinted(b, pos + |MerchantBytes(ms[0])|, ms[1..], rest, id + 1);
    }
  }

  lemma HeaderPrinted(b: seq<byte>, crs: Crs, rest: seq<byte>)
    requires b == HeaderBytes(crs) + rest && Printable(crs)
    ensures 12 <= |b| && b[12..] == rest
    ensures DecodeBE(b[..4]) == crs.securityParam && DecodeBE(b[4..8]) == |crs.generators|
    ensures DecodeBE(b[8..12]) == crs.setSize
  {
    hide EncodeBE;
    assert b[..4] == EncodeBE(crs.securityParam, 4);
    assert b[4..8] == EncodeBE(|crs.generators|, 4);
    assert b[8..12] == EncodeBE(crs.setSize, 4);
    DecodeEncode(crs.securityParam, 4); DecodeEncode(|crs.generators|, 4); DecodeEncode(crs.setSize, 4);
  }

  lemma GeneratorsPrinted(b: seq<byte>, crs: Crs, rest: seq<byte>)
    requires Printable(crs)
    requires b == HeaderBytes(crs)
      + (PointToBytes(crs.g) + (PointToBytes(crs.hName) + (PointList(crs.generators) + rest)))
    ensures var end := 78 + |PointList(crs.generators)|;
      ParseGenerators(b) == Ok(((crs.g, crs.hName, crs.generators), end)) && end <= |b| && b[end..] == rest
  {
    hide *;
    var t2 := PointList(crs.generators) + rest;
    var t1 := PointToBytes(crs.hName) + t2;
    HeaderPrinted(b, crs, PointToBytes(crs.g) + t1);
    PointPrinted(b, 12, crs.g, t1, ShortG, InvalidG);
    PointPrinted(b, 45, crs.hName, t2, ShortHName, InvalidHName);
    PointsPrinted(b, 78, crs.generators, rest);
    GeneratorsChain(b, crs.g, crs.hName, crs.generators, 78 + |PointList(crs.generators)|);
  }

  lemma GeneratorsChain(b: seq<byte>, g: Point, h: Point, gens: seq<Point>, end: nat)
    requires 12 <= |b| && DecodeBE(b[4..8]) == |gens|
    requires ParsePoint(b, 12, ShortG, InvalidG) == Ok((g, 45))
    requires ParsePoint(b, 45, ShortHName, InvalidHName) == Ok((h, 78))
    requires ParsePoints(b, 78, |gens|) == Ok((gens, end))
    ensures ParseGenerators(b) == Ok(((g, h, gens), end))
  {
    hide ParsePoint, ParsePoints, DecodeBE;
  }

  lemma CrsPrinted(crs: Crs, rest: seq<byte>)
    requires Printable(crs)
    ensures ParseCrs(ToBytes(crs) + rest) == Ok((Renumbered(crs), |ToBytes(crs)|))
  {
    hide ParseGenerators, ParseMerchants, HeaderBytes, PointToBytes, PointList, MerchantsBytes, Numbered,
      PrintableMerchant,
      ToBytes, DecodeBE, Pow256;
    var b, ms := ToBytes(crs) + rest, MerchantsBytes(crs.merchants);
    var t := PointToBytes(crs.g) + (PointToBytes(crs.hName) + (PointList(crs.generators) + (ms + rest)));
    NestedBytes(crs, rest);
    HeaderPrinted(b, crs, t);
    GeneratorsPrinted(b, crs, ms + rest);
    MerchantsPrinted(b, 78 + |PointList(crs.generators)|, crs.merchants, rest, 1);
  }

  lemma NestedBytes(crs: Crs, rest: seq<byte>)
    ensures ToBytes(crs) + rest == HeaderBytes(crs) + (PointToBytes(crs.g) + (PointToBytes(crs.hName)
      + (PointList(crs.generators) + (MerchantsBytes(crs.merchants) + rest))))
    ensures |ToBytes(crs)| == 78 + |PointList(crs.generators)| + |MerchantsBytes(crs.merchants)|
  {
    hide HeaderBytes, PointToBytes, PointList, MerchantsBytes;
    HeaderLength(crs);
  }

  lemma HeaderLength(crs: Crs)
    ensures |HeaderBytes(crs)| == 12
  {}

  /** Parsing a printed CRS, whatever follows it, returns it with ids 1 … L. */
  lemma FromBytesToBytes(crs: Crs, rest: seq<byte>)
    requires Printable(crs)
    ensures FromBytes(ToBytes(crs) + rest) == Ok(Renumbered(crs))
  {
    CrsPrinted(crs, rest);
  }

  /** Every strict prefix of a printed CRS is rejected. */
  lemma StrictPrefixRejected(crs: Crs, k: nat)
    requires Printable(crs) && k < |ToBytes(crs)|
    ensures FromBytes(ToBytes(crs)[..k]).Err?
  {
    hide ParseCrs, ToBytes;
    var b := ToBytes(crs);
    assert b[..k] + b[k..] == b && b + [] == b;
    CrsExtends(b[..k], b[k..]);
    CrsPrinted(crs, []);
  }

  // ── what is accepted re-prints and re-parses ───────────────────────────────

  lemma {:induction false} ParsedMerchants(b: seq<byte>, pos: nat, id: nat, n: nat)
    ensures var r := ParseMerchants(b, pos, id, n); r.Ok? ==>
      (forall i :: 0 <= i < |r.value.0| ==> PrintableMerchant(r.value.0[i])) && Numbered(r.value.0, id) == r.value.0
    decreases n
  {
    if n > 0 {
      var m := ParseMerchant(b, pos, id);
      if m.Ok? {
        ParsedMerchant(b, pos, id);
        hide ParseMerchant, PrintableMerchant;
        ParsedMerchants(b, m.value.1, id + 1, n - 1);
      }
    }
  }

  lemma ParsedMerchant(b: seq<byte>, pos: nat, id: nat)
    ensures var r := ParseMerchant(b, pos, id); r.Ok? ==> PrintableMerchant(r.value.0) && r.value.0.merchantId == id
  {
    ParsedText(b, pos, ShortNameLength, ShortName, InvalidUtf8Name);
    var name := ParseText(b, pos, ShortNameLength, ShortName, InvalidUtf8Name);
    if name.Ok? { ParsedText(b, name.value.1 + 33, ShortOriginLength, ShortOrigin, InvalidUtf8Origin); }
    hide ParseText;
  }

  lemma ParsedText(b: seq<byte>, pos: nat, e0: CrsError, e1: CrsError, e2: CrsError)
    ensures var r := ParseText(b, pos, e0, e1, e2); r.Ok? ==> |r.value.0| <= 65535 && IS_UTF8(r.value.0)
  {
    if |b| >= pos + 2 {
      EncodeDecode(b[pos..pos + 2]);
      assert Pow256(2) == 65536;
    }
  }

  /** Whatever the parser accepts can be printed and parses back to itself. */
  lemma ParsedReprints(b: seq<byte>)
    ensures FromBytes(b).Ok? ==>
      Printable(FromBytes(b).value) && FromBytes(ToBytes(FromBytes(b).value)) == FromBytes(b)
  {
    if FromBytes(b).Ok? {
      var crs := FromBytes(b).value;
      ParsedPrintable(b);
      FromBytesToBytes(crs, []);
      assert ToBytes(crs) + [] == ToBytes(crs);
    }
  }

  lemma ParsedPrintable(b: seq<byte>)
    requires FromBytes(b).Ok?
    ensures Printable(FromBytes(b).value) && Renumbered(FromBytes(b).value) == FromBytes(b).value
  {
    hide ParsePoint, ParsePoints, ParseMerchants, Numbered, PrintableMerchant, DecodeBE, Pow256;
    EncodeDecode(b[..4]); EncodeDecode(b[4..8]); EncodeDecode(b[8..12]);
    var g := ParseGenerators(b);
    ParsedCounts(b, 78, 1, DecodeBE(b[4..8]));
    ParsedCounts(b, g.value.1, 1, DecodeBE(b[4..8]));
    ParsedMerchants(b, g.value.1, 1, DecodeBE(b[4..8]));
  }

  // ── the loops ──────────────────────────────────────────────────────────────

  method PrintCrs(crs: Crs) returns (buf: seq<byte>)
    ensures buf == ToBytes(crs)
  {
    hide EncodeBE, PointToBytes, MerchantBytes;
    buf := EncodeBE(crs.securityParam, 4) + EncodeBE(|crs.generators|, 4) + EncodeBE(crs.setSize, 4);
    buf := buf + PointToBytes(crs.g) + PointToBytes(crs.hName);
    ghost var start := buf;
    for i := 0 to |crs.generators|
      invariant buf + PointList(crs.generators[i..]) == start + PointList(crs.generators)
    {
      assert crs.generators[i..][0] == crs.generators[i] && crs.generators[i..][1..] == crs.generators[i + 1..];
      buf := buf + PointToBytes(crs.generators[i]);
    }
    assert buf == start + PointList(crs.generators);
    start := buf;
    for i := 0 to |crs.merchants|
      invariant buf + MerchantsBytes(crs.merchants[i..]) == start + MerchantsBytes(crs.merchants)
    {
      assert crs.merchants[i..][0] == crs.merchants[i] && crs.merchants[i..][1..] == crs.merchants[i + 1..];
      buf := buf + MerchantBytes(crs.merchants[i]);
    }
  }

  /** Reads n generators from the cursor on. */
  method ReadGenerators(b: seq<byte>, start: nat, n: nat) returns (r: Parse<seq<Point>>)
    ensures r == ParsePoints(b, start, n)
  {
    hide ParsePoint;
    var pos, gens: seq<Point> := start, [];
    PrependNothing(ParsePoints(b, start, n));
    for i := 0 to n
      invariant ParsePoints(b, start, n) == Prepend(gens, ParsePoints(b, pos, n - i))
    {
      match ParsePoint(b, pos, ShortGenerators, InvalidH)
      case Err(e) => return Err(e);
      case Ok((p, at)) =>
        PrependSnoc(gens, p, ParsePoints(b, at, n - i - 1));
        gens, pos := gens + [p], at;
    }
    assert gens + [] == gens;
    r := Ok((gens, pos));
  }

  function Prepend<T>(done: seq<T>, r: Parse<seq<T>>): Parse<seq<T>> {
    match r
    case Err(e) => Err(e)
    case Ok((more, end)) => Ok((done + more, end))
  }

  lemma PrependNothing<T>(r: Parse<seq<T>>)
    ensures Prepend([], r) == r
  {
    if r.Ok? { assert [] + r.value.0 == r.value.0; }
  }

  lemma PrependSnoc<T>(done: seq<T>, x: T, r: Parse<seq<T>>)
    ensures Prepend(done + [x], r) == Prepend(done, Prepend([x], r))
  {
    if r.Ok? { assert done + [x] + r.value.0 == done + ([x] + r.value.0); }
  }

  /** Reads n merchants from the cursor on, numbering them 1 … n. */
  method ReadMerchants(b: seq<byte>, start: nat, n: nat) returns (r: Parse<seq<Merchant>>)
    ensures r == ParseMerchants(b, start, 1, n)
  {
    hide ParseMerchant;
    var pos, merchants: seq<Merchant> := start, [];
    PrependNothing(ParseMerchants(b, start, 1, n));
    for i := 0 to n
      invariant |merchants| == i
      invariant ParseMerchants(b, start, 1, n) == Prepend(merchants, ParseMerchants(b, pos, i + 1, n - i))
    {
      match ParseMerchant(b, pos, |merchants| + 1)
      case Err(e) => return Err(e);
      case Ok((m, at)) =>
        PrependSnoc(merchants, m, ParseMerchants(b, at, i + 2, n - i - 1));
        merchants, pos := merchants + [m], at;
    }
    assert merchants + [] == merchants;
    r := Ok((merchants, pos));
  }

  /** The parser's cursor moves through header, points and merchants. */
  method ReadCrs(b: seq<byte>) returns (r: Result<Crs, CrsError>)
    ensures r == FromBytes(b)
  {
    hide ParsePoint, ParsePoints, ParseMerchants, DecodeBE;
    if |b| < 12 { return Err(ShortHeader); }
    var l := DecodeBE(b[4..8]);
    var g := ParsePoint(b, 12, ShortG, InvalidG);
    if g.Err? { return Err(g.error); }
    var h := ParsePoint(b, g.value.1, ShortHName, InvalidHName);
    if h.Err? { return Err(h.error); }
    var gens := ReadGenerators(b, h.value.1, l);
    if gens.Err? { return Err(gens.error); }
    var merchants := ReadMerchants(b, gens.value.1, l);
    if merchants.Err? { return Err(merchants.error); }
    ParsedCounts(b, h.value.1, 1, l);
    ParsedCounts(b, gens.value.1, 1, l);
    r := Ok(RawCrs(DecodeBE(b[..4]), g.value.0, h.value.0, gens.value.0, merchants.value.0, DecodeBE(b[8..12])));
  }
}

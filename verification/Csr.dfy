/**
 Which names a certificate request may carry and which names the certificate
 gets: steps 8 and 9 of `validate_csr` (src/ca/csr.rs) and
 `build_san_from_csr` (src/ca/issue.rs). The DER of the extension is decoded
 by a library; its list of general names is the input. IPv6 text is the
 standard library's and comes in as a pair of functions.
 */
module Csr {
  import opened Common
  import opened Text
  import opened Utf8

  const DOT: byte := 0x2E
  const AT: byte := 0x40
  /** An empty RDNSequence. */
  const EMPTY_SUBJECT: Bytes := [0x30, 0x00]

  datatype NameKind = DnsName | IpAddress | Rfc822Name | OtherName | OtherKind

  datatype GeneralName = GeneralName(kind: NameKind, content: Bytes)

  datatype SanEntry = SanEntry(sanType: string, value: Bytes)

  datatype CsrError = NotUtf8 | BadIpLength | NotAuthorised(san: SanEntry) | MissingFromCsr(id: SanEntry)

  datatype Ip6 = Ip6(text: Bytes -> Bytes, parse: Bytes -> Option<Bytes>)

  // --------------------------------------------------------- IPv4 as text

  function DecimalText(n: byte): Bytes {
    if n < 10 then [0x30 + n]
    else if n < 100 then [0x30 + n / 10, 0x30 + n % 10]
    else [0x30 + n / 100, 0x30 + n / 10 % 10, 0x30 + n % 10]
  }

  predicate IsDigit(b: byte) { 0x30 <= b <= 0x39 }

  function Digit(b: byte): int { b as int - 0x30 }

  /** One octet: up to three digits, no leading zero, at most 255. */
  function ParseDecimal(s: Bytes): Option<byte> {
    if !(1 <= |s| <= 3) || !(forall i :: 0 <= i < |s| ==> IsDigit(s[i])) then None
    else if |s| > 1 && s[0] == 0x30 then None
    else
      var n := if |s| == 1 then Digit(s[0])
               else if |s| == 2 then Digit(s[0]) * 10 + Digit(s[1])
               else Digit(s[0]) * 100 + Digit(s[1]) * 10 + Digit(s[2]);
      if n < 256 then Some(n) else None
  }

  function Ipv4Text(b: Bytes): Bytes
    requires |b| == 4
  {
    Join([DecimalText(b[0]), DecimalText(b[1]), DecimalText(b[2]), DecimalText(b[3])], DOT)
  }

  function ParseIpv4(s: Bytes): (r: Option<Bytes>)
    ensures r.Some? ==> |r.value| == 4
  {
    var parts := Split(s, DOT);
    if |parts| != 4 then None
    else
      var a :- ParseDecimal(parts[0]);
      var b :- ParseDecimal(parts[1]);
      var c :- ParseDecimal(parts[2]);
      var d :- ParseDecimal(parts[3]);
      Some([a, b, c, d])
  }

  lemma DecimalRoundTrip(n: byte)
    ensures ParseDecimal(DecimalText(n)) == Some(n) && Free(DecimalText(n), DOT)
  {
  }

  lemma ThreeDigits(a: int, b: int, c: int)
    requires 0 <= a <= 9 && 0 <= b <= 9 && 0 <= c <= 9
    ensures var n := a * 100 + b * 10 + c;
      n / 100 == a && n / 10 == a * 10 + b && n / 10 % 10 == b && n % 10 == c
  {
  }

  lemma DecimalCanonical(s: Bytes)
    requires ParseDecimal(s).Some?
    ensures DecimalText(ParseDecimal(s).value) == s
  {
    if |s| == 1 {
      assert s == [s[0]];
    } else if |s| == 2 {
      ThreeDigits(0, Digit(s[0]), Digit(s[1]));
      assert s == [s[0], s[1]];
    } else {
      ThreeDigits(Digit(s[0]), Digit(s[1]), Digit(s[2]));
      assert s == [s[0], s[1], s[2]];
    }
  }

  /** The number decimal digits stand for. */
  function DecimalValue(s: Bytes): int {
    if s == [] then 0 else DecimalValue(s[..|s| - 1]) * 10 + (s[|s| - 1] - '0' as int)
  }

  lemma DecimalMeans(n: byte)
    ensures var s := DecimalText(n);
      DecimalValue(s) == n && s != [] && (s[0] == '0' as int ==> |s| == 1)
      && forall i :: 0 <= i < |s| ==> '0' as int <= s[i] <= '9' as int
  {
    var s := DecimalText(n);
    assert DecimalValue([]) == 0;
    assert s[..1] == [s[0]] && [s[0]][..0] == [];
    assert DecimalValue([s[0]]) == s[0] - 0x30;
    if |s| >= 2 {
      assert s[..2][..1] == [s[0]];
      assert DecimalValue(s[..2]) == (s[0] - 0x30) * 10 + (s[1] - 0x30);
    }
    assert s[..|s|] == s;
  }

  /** The text of an address is its four octets in order, in decimal, with dots between. */
  lemma Ipv4Meaning(b: Bytes, i: nat)
    requires |b| == 4 && i < 4
    ensures var parts := Split(Ipv4Text(b), '.' as int);
      |parts| == 4 && Join(parts, '.' as int) == Ipv4Text(b) && DecimalValue(parts[i]) == b[i]
  {
    DecimalRoundTrip(b[0]);
    DecimalRoundTrip(b[1]);
    DecimalRoundTrip(b[2]);
    DecimalRoundTrip(b[3]);
    SplitOfJoin([DecimalText(b[0]), DecimalText(b[1]), DecimalText(b[2]), DecimalText(b[3])], DOT);
    DecimalMeans(b[i]);
  }

  /** An IPv4 address survives the trip to text and back. */
  lemma Ipv4RoundTrip(b: Bytes)
    requires |b| == 4
    ensures ParseIpv4(Ipv4Text(b)) == Some(b)
  {
    DecimalRoundTrip(b[0]);
    DecimalRoundTrip(b[1]);
    DecimalRoundTrip(b[2]);
    DecimalRoundTrip(b[3]);
    SplitOfJoin([DecimalText(b[0]), DecimalText(b[1]), DecimalText(b[2]), DecimalText(b[3])], DOT);
    assert b == [b[0], b[1], b[2], b[3]];
  }

  /** Only an address's own text denotes it. */
  lemma Ipv4Canonical(s: Bytes)
    requires ParseIpv4(s).Some?
    ensures Ipv4Text(ParseIpv4(s).value) == s
  {
    var parts := Split(s, DOT);
    SplitJoin(s, DOT);
    DecimalCanonical(parts[0]);
    DecimalCanonical(parts[1]);
    DecimalCanonical(parts[2]);
    DecimalCanonical(parts[3]);
    assert parts == [parts[0], parts[1], parts[2], parts[3]];
  }

  function BytesToIpString(b: Bytes, ip6: Ip6): Option<Bytes> {
    if |b| == 4 then Some(Ipv4Text(b)) else if |b| == 16 then Some(ip6.text(b)) else None
  }

  function IpStringToBytes(s: Bytes, ip6: Ip6): Option<Bytes> {
    match ParseIpv4(s)
    case Some(b) => Some(b)
    case None => ip6.parse(s)
  }

  // ------------------------------------------------------- decoding names

  function LowerAscii(s: Bytes): Bytes {
    if s == [] then []
    else [if 0x41 <= s[0] <= 0x5A then s[0] + 0x20 else s[0]] + LowerAscii(s[1..])
  }

  /** The domain, after the first '@', in lower case. */
  function NormalizeEmail(s: Bytes): Bytes {
    if s == [] then []
    else if s[0] == AT then [AT] + LowerAscii(s[1..])
    else [s[0]] + NormalizeEmail(s[1..])
  }

  lemma {:induction false} LowerAt(s: Bytes, i: nat)
    requires i < |s|
    ensures |LowerAscii(s)| == |s|
    ensures LowerAscii(s)[i] == if 'A' as int <= s[i] <= 'Z' as int then s[i] + 32 else s[i]
  {
    if |s| > 1 {
      LowerAt(s[1..], if i > 0 then i - 1 else 0);
    }
  }

  /** Octet for octet: as it is up to and at the first '@', in lower case after it; unchanged without one. */
  lemma {:induction false} NormalizeAt(s: Bytes, i: nat)
    requires i < |s|
    ensures |NormalizeEmail(s)| == |s|
    ensures '@' as int !in s[..i] ==> NormalizeEmail(s)[i] == s[i]
    ensures '@' as int in s[..i] ==>
      NormalizeEmail(s)[i] == if 'A' as int <= s[i] <= 'Z' as int then s[i] + 32 else s[i]
  {
    if s[0] == AT {
      if i > 0 {
        LowerAt(s[1..], i - 1);
        assert s[..i][0] == AT;
      } else if |s| > 1 {
        LowerAt(s[1..], 0);
      }
    } else if |s| > 1 {
      NormalizeAt(s[1..], if i > 0 then i - 1 else 0);
      assert i > 0 ==> s[..i] == [s[0]] + s[1..][..i - 1];
    }
  }

  function DecodeName(g: GeneralName, ip6: Ip6): Result<Option<SanEntry>, CsrError> {
    match g.kind
    case DnsName => if Valid(g.content) then Ok(Some(SanEntry("dns", g.content))) else Err(NotUtf8)
    case IpAddress =>
      (match BytesToIpString(g.content, ip6)
       case Some(s) => Ok(Some(SanEntry("ip", s)))
       case None => Err(BadIpLength))
    case Rfc822Name =>
      if Valid(g.content) then Ok(Some(SanEntry("email", NormalizeEmail(g.content)))) else Err(NotUtf8)
    case _ => Ok(None)
  }

  /** What each kind of name decodes to, and when it does not. */
  lemma DecodedExactly(g: GeneralName, ip6: Ip6)
    ensures DecodeName(g, ip6).Err? <==>
      ((g.kind == DnsName || g.kind == Rfc822Name) && !Valid(g.content))
      || (g.kind == IpAddress && |g.content| != 4 && |g.content| != 16)
    ensures g.kind == DnsName && Valid(g.content) ==> DecodeName(g, ip6) == Ok(Some(SanEntry("dns", g.content)))
    ensures g.kind == IpAddress && |g.content| == 4 ==>
      DecodeName(g, ip6).Ok? && DecodeName(g, ip6).value.Some?
      && var s := DecodeName(g, ip6).value.value; s.sanType == "ip" && ParseIpv4(s.value) == Some(g.content)
    ensures g.kind == IpAddress && |g.content| == 16 ==>
      DecodeName(g, ip6) == Ok(Some(SanEntry("ip", ip6.text(g.content))))
    ensures g.kind == Rfc822Name && Valid(g.content) ==>
      DecodeName(g, ip6) == Ok(Some(SanEntry("email", NormalizeEmail(g.content))))
    ensures g.kind == OtherName || g.kind == OtherKind ==> DecodeName(g, ip6) == Ok(None)
  {
    if g.kind == IpAddress && |g.content| == 4 {
      Ipv4RoundTrip(g.content);
    }
  }

  predicate IsSanType(t: string) { t == "dns" || t == "ip" || t == "email" }

  /** The names a request asks for. */
  ghost function Requested(names: seq<GeneralName>, ip6: Ip6): set<SanEntry> {
    set g | g in names && DecodeName(g, ip6).Ok? && DecodeName(g, ip6).value.Some?
      :: DecodeName(g, ip6).value.value
  }

  /** The names an order authorises; other identifier types are checked elsewhere. */
  ghost function Authorised(allowed: seq<SanEntry>): set<SanEntry> {
    set a | a in allowed && IsSanType(a.sanType)
  }

  ghost predicate WellFormed(names: seq<GeneralName>, ip6: Ip6) {
    forall g :: g in names ==> DecodeName(g, ip6).Ok?
  }

  /** Acceptance as a condition on sets alone. */
  ghost predicate Acceptable(names: seq<GeneralName>, allowed: seq<SanEntry>, ip6: Ip6) {
    WellFormed(names, ip6) && Requested(names, ip6) == Authorised(allowed)
  }

  /** The `sans` list step 8 builds. */
  ghost function Sans(names: seq<GeneralName>, ip6: Ip6): seq<SanEntry> {
    if names == [] then []
    else
      var d := DecodeName(names[|names| - 1], ip6);
      Sans(names[..|names| - 1], ip6) + if d.Ok? && d.value.Some? then [d.value.value] else []
  }

  lemma {:induction false} SansAreRequested(names: seq<GeneralName>, ip6: Ip6)
    ensures forall s :: s in Sans(names, ip6) <==> s in Requested(names, ip6)
  {
    if names != [] {
      var n := |names| - 1;
      SansAreRequested(names[..n], ip6);
      assert names == names[..n] + [names[n]];
      forall s | s in Sans(names, ip6) ensures s in Requested(names, ip6) {
        if s in Requested(names[..n], ip6) {
          var g :| g in names[..n] && DecodeName(g, ip6) == Ok(Some(s));
          assert g in names;
        } else {
          assert names[n] in names;
        }
      }
      forall s | s in Requested(names, ip6) ensures s in Sans(names, ip6) {
        var g :| g in names && DecodeName(g, ip6) == Ok(Some(s));
        assert g in names[..n] || g == names[n];
      }
    }
  }

  method DecodeNames(names: seq<GeneralName>, ip6: Ip6) returns (r: Result<seq<SanEntry>, CsrError>)
    ensures r.Ok? <==> WellFormed(names, ip6)
    ensures r.Ok? ==> r.value == Sans(names, ip6)
    ensures r.Err? ==> exists g :: g in names && DecodeName(g, ip6) == Err(r.error)
  {
    var sans := [];
    for i := 0 to |names|
      invariant WellFormed(names[..i], ip6)
      invariant sans == Sans(names[..i], ip6)
    {
      assert names[..i + 1] == names[..i] + [names[i]];
      assert names[i] in names;
      match DecodeName(names[i], ip6) {
        case Err(e) => return Err(e);
        case Ok(None) =>
        case Ok(Some(san)) => sans := sans + [san];
      }
    }
    assert names[..|names|] == names;
    return Ok(sans);
  }

  /** The error names a SAN that is not authorised or, all being so, an identifier that is missing. */
  ghost predicate Explains(e: CsrError, sans: seq<SanEntry>, allowed: seq<SanEntry>) {
    match e
    case NotAuthorised(s) => s in sans && s !in allowed
    case MissingFromCsr(a) =>
      a in allowed && IsSanType(a.sanType) && a !in sans && forall s :: s in sans ==> s in allowed
    case _ => false
  }

  /** Step 9: every SAN is authorised, and every SAN-like identifier is requested. */
  method CheckSans(sans: seq<SanEntry>, allowed: seq<SanEntry>) returns (r: Option<CsrError>)
    ensures r.None? <==>
      (forall s :: s in sans ==> s in allowed)
      && (forall a :: a in allowed && IsSanType(a.sanType) ==> a in sans)
    ensures r.Some? ==> Explains(r.value, sans, allowed)
  {
    for i := 0 to |sans|
      invariant forall k :: 0 <= k < i ==> sans[k] in allowed
    {
      if sans[i] !in allowed {
        return Some(NotAuthorised(sans[i]));
      }
    }
    for i := 0 to |allowed|
      invariant forall k :: 0 <= k < i && IsSanType(allowed[k].sanType) ==> allowed[k] in sans
    {
      if !IsSanType(allowed[i].sanType) {
        continue;
      }
      if allowed[i] !in sans {
        return Some(MissingFromCsr(allowed[i]));
      }
    }
    return None;
  }

  /** The two loops together compare sets. */
  lemma BothWaysIsEquality(names: seq<GeneralName>, allowed: seq<SanEntry>, ip6: Ip6)
    ensures var sans := Sans(names, ip6);
      Requested(names, ip6) == Authorised(allowed) <==>
        (forall s :: s in sans ==> s in allowed)
        && (forall a :: a in allowed && IsSanType(a.sanType) ==> a in sans)
  {
    var sans := Sans(names, ip6);
    SansAreRequested(names, ip6);
    if Requested(names, ip6) == Authorised(allowed) {
      assert forall s :: s in sans ==> s in Authorised(allowed);
      assert forall a :: a in Authorised(allowed) ==> a in sans;
      assert forall a :: a in allowed && IsSanType(a.sanType) ==> a in Authorised(allowed);
    } else {
      var s :| !(s in Requested(names, ip6) <==> s in Authorised(allowed));
      assert s in sans ==> IsSanType(s.sanType);
    }
  }

  /** Steps 8 and 9; a request without the extension asks for no names. */
  method ValidateNames(names: seq<GeneralName>, allowed: seq<SanEntry>, ip6: Ip6)
    returns (r: Result<seq<SanEntry>, CsrError>)
    ensures r.Ok? <==> Acceptable(names, allowed, ip6)
    ensures r.Ok? ==> r.value == Sans(names, ip6)
    ensures r.Err? && WellFormed(names, ip6) ==> Explains(r.error, Sans(names, ip6), allowed)
  {
    r := DecodeNames(names, ip6);
    if r.Ok? {
      var failure := CheckSans(r.value, allowed);
      BothWaysIsEquality(names, allowed, ip6);
      if failure.Some? {
        r := Err(failure.value);
      }
    }
  }

  /** Acceptance depends on the names as sets: neither order nor repeats matter. */
  lemma OrderAndRepeatsIrrelevant(names: seq<GeneralName>, names': seq<GeneralName>,
                                  allowed: seq<SanEntry>, allowed': seq<SanEntry>, ip6: Ip6)
    requires forall g :: g in names <==> g in names'
    requires forall a :: a in allowed <==> a in allowed'
    ensures Acceptable(names, allowed, ip6) <==> Acceptable(names', allowed', ip6)
  {
    assert Requested(names, ip6) == Requested(names', ip6);
    assert Authorised(allowed) == Authorised(allowed');
  }

  // ------------------------------------------------------ rebuilding SANs

  datatype BuildError = InvalidIp | NoRecognisedSan

  /** The general name written for one entry. */
  function NameOf(san: SanEntry, ip6: Ip6): Result<Option<GeneralName>, BuildError> {
    if san.sanType == "dns" then Ok(Some(GeneralName(DnsName, san.value)))
    else if san.sanType == "ip" then
      match IpStringToBytes(san.value, ip6)
      case Some(b) => Ok(Some(GeneralName(IpAddress, b)))
      case None => Err(InvalidIp)
    else if san.sanType == "email" then Ok(Some(GeneralName(Rfc822Name, san.value)))
    else Ok(None)
  }

  ghost function NamesOf(sans: seq<SanEntry>, ip6: Ip6): seq<GeneralName> {
    if sans == [] then []
    else
      var n := NameOf(sans[|sans| - 1], ip6);
      NamesOf(sans[..|sans| - 1], ip6) + if n.Ok? && n.value.Some? then [n.value.value] else []
  }

  ghost predicate Buildable(sans: seq<SanEntry>, ip6: Ip6) {
    forall s :: s in sans ==> NameOf(s, ip6).Ok?
  }

  function Extras(others: seq<Bytes>, dns: seq<Bytes>): (r: seq<GeneralName>)
    ensures |r| == |others| + |dns|
  {
    seq(|others|, i requires 0 <= i < |others| => GeneralName(OtherName, others[i]))
    + seq(|dns|, i requires 0 <= i < |dns| => GeneralName(DnsName, dns[i]))
  }

  /** The first loop of `build_san_from_csr`. */
  method AddSans(sans: seq<SanEntry>, ip6: Ip6) returns (r: Result<seq<GeneralName>, BuildError>)
    ensures !Buildable(sans, ip6) ==> r == Err(InvalidIp)
    ensures Buildable(sans, ip6) ==> r == Ok(NamesOf(sans, ip6))
  {
    var names: seq<GeneralName> := [];
    for i := 0 to |sans|
      invariant Buildable(sans[..i], ip6)
      invariant names == NamesOf(sans[..i], ip6)
    {
      assert sans[..i + 1] == sans[..i] + [sans[i]];
      assert sans[i] in sans;
      match NameOf(sans[i], ip6) {
        case Err(e) => return Err(e);
        case Ok(None) =>
        case Ok(Some(name)) => names := names + [name];
      }
    }
    assert sans[..|sans|] == sans;
    return Ok(names);
  }

  /** The other two loops: other names, then DNS names. */
  method AddExtras(own: seq<GeneralName>, others: seq<Bytes>, dns: seq<Bytes>)
    returns (names: seq<GeneralName>)
    ensures names == own + Extras(others, dns)
  {
    names := own;
    for i := 0 to |others|
      invariant names == own + Extras(others[..i], [])
    {
      names := names + [GeneralName(OtherName, others[i])];
    }
    assert others[..|others|] == others;
    for i := 0 to |dns|
      invariant names == own + Extras(others, dns[..i])
    {
      names := names + [GeneralName(DnsName, dns[i])];
    }
    assert dns[..|dns|] == dns;
  }

  /** The extension for a list of names: critical for an empty subject, absent or an error without a name. */
  function Extension(subject: Bytes, asked: bool, names: seq<GeneralName>):
    Result<Option<(seq<GeneralName>, bool)>, BuildError>
  {
    if names != [] then Ok(Some((names, subject == EMPTY_SUBJECT)))
    else if asked then Err(NoRecognisedSan)
    else Ok(None)
  }

  /** What `build_san_from_csr` returns. */
  ghost function SanSpec(subject: Bytes, sans: seq<SanEntry>, others: seq<Bytes>, dns: seq<Bytes>, ip6: Ip6):
    Result<Option<(seq<GeneralName>, bool)>, BuildError>
  {
    if !Buildable(sans, ip6) then Err(InvalidIp)
    else Extension(subject, sans != [], NamesOf(sans, ip6) + Extras(others, dns))
  }

  method BuildSan(subject: Bytes, sans: seq<SanEntry>, others: seq<Bytes>, dns: seq<Bytes>, ip6: Ip6)
    returns (r: Result<Option<(seq<GeneralName>, bool)>, BuildError>)
    ensures r == SanSpec(subject, sans, others, dns, ip6)
  {
    var own := AddSans(sans, ip6);
    if own.Err? {
      return Err(own.error);
    }
    var names := AddExtras(own.value, others, dns);
    if names == [] {
      if sans != [] {
        return Err(NoRecognisedSan);
      }
      return Ok(None);
    }
    return Ok(Some((names, subject == EMPTY_SUBJECT)));
  }

  // ----------------------------------------------- from request to certificate

  /** What the standard library promises about IPv6 text. */
  ghost predicate Faithful(ip6: Ip6) {
    forall b: Bytes :: |b| == 16 ==>
      ParseIpv4(ip6.text(b)).None? && ip6.parse(ip6.text(b)) == Some(b)
  }

  /** A requested name as it should stand in the certificate, or nothing for kinds ACME ignores. */
  function Issued(g: GeneralName): Option<GeneralName> {
    match g.kind
    case DnsName => Some(g)
    case IpAddress => Some(g)
    case Rfc822Name => Some(g.(content := NormalizeEmail(g.content)))
    case _ => None
  }

  ghost function IssuedAll(names: seq<GeneralName>): seq<GeneralName> {
    if names == [] then []
    else
      var g := Issued(names[|names| - 1]);
      IssuedAll(names[..|names| - 1]) + if g.Some? then [g.value] else []
  }

  lemma RebuiltName(g: GeneralName, ip6: Ip6)
    requires Faithful(ip6) && DecodeName(g, ip6).Ok?
    ensures match DecodeName(g, ip6).value
      case None => Issued(g).None?
      case Some(s) => NameOf(s, ip6) == Ok(Issued(g)) && Issued(g).Some?
  {
    if g.kind == IpAddress && |g.content| == 4 {
      Ipv4RoundTrip(g.content);
    }
  }

  lemma {:induction false} RebuiltAll(names: seq<GeneralName>, ip6: Ip6)
    requires Faithful(ip6) && WellFormed(names, ip6)
    ensures Buildable(Sans(names, ip6), ip6)
    ensures NamesOf(Sans(names, ip6), ip6) == IssuedAll(names)
    ensures Sans(names, ip6) != [] <==> IssuedAll(names) != []
  {
    if names != [] {
      var n := |names| - 1;
      var sans := Sans(names[..n], ip6);
      RebuiltAll(names[..n], ip6);
      RebuiltName(names[n], ip6);
      var d := DecodeName(names[n], ip6).value;
      if d.Some? {
        assert (sans + [d.value])[..|sans|] == sans;
      } else {
        assert Sans(names, ip6) == sans;
      }
    }
  }

  /**
   An accepted request gets exactly its own names, in its order, e-mail
   domains in lower case and every address octet for octet, followed by the
   extra names; building never fails, the extension is critical exactly for an
   empty subject, and absent exactly when there is no name at all.
   */
  lemma RebuiltSan(subject: Bytes, names: seq<GeneralName>, allowed: seq<SanEntry>,
                   others: seq<Bytes>, dns: seq<Bytes>, ip6: Ip6)
    requires Faithful(ip6) && Acceptable(names, allowed, ip6)
    ensures var all := IssuedAll(names) + Extras(others, dns);
      SanSpec(subject, Sans(names, ip6), others, dns, ip6)
      == Ok(if all == [] then None else Some((all, subject == [0x30, 0x00])))
    ensures forall s :: s in Sans(names, ip6) <==> s in Authorised(allowed)
  {
    RebuiltAll(names, ip6);
    SansAreRequested(names, ip6);
  }
}

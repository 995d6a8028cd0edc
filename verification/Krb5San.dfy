/**
 Kerberos principal names as OtherName subject alternative names
 (src/krb5_san.rs): KRB5PrincipalName of section 3.2.2 of RFC 4556 around
 PrincipalName of section 5.2.2 of RFC 4120, inside OtherName of section
 4.2.1.6 of RFC 5280. Text is modelled by its UTF-8 octets.
 */
module Krb5San {
  import opened Common
  import opened Der
  import opened DerInteger
  import opened Text

  const OID_PKINIT_SAN: Bytes := [0x2B, 0x06, 0x01, 0x05, 0x02, 0x02]
  const NT_PRINCIPAL: int := 1
  const NT_SRV_HST: int := 3
  const AT: byte := 0x40
  const SLASH: byte := 0x2F
  /** The octets of "{dns}". */
  const DNS_PLACEHOLDER: Bytes := [0x7B, 0x64, 0x6E, 0x73, 0x7D]

  datatype EncodeError = EmptyRealm | NoComponents | NoAtSign

  /** What the encoder is given. */
  datatype Principal = Principal(realm: Bytes, nameType: int, components: seq<Bytes>) {
    predicate Valid() { -0x8000_0000 <= nameType < 0x8000_0000 }
    predicate Encodable() { Valid() && realm != [] && components != [] }
  }

  // ---------------------------------------------------------------- writer

  function GeneralString(s: Bytes): Bytes { Tlv(0x1B, s) }

  function NameStrings(components: seq<Bytes>): Bytes {
    if components == [] then [] else GeneralString(components[0]) + NameStrings(components[1..])
  }

  function NameTypeField(p: Principal): Bytes
    requires p.Valid()
  {
    Explicit(0, Tlv(0x02, IntegerContentI32(p.nameType)))
  }

  function PrincipalNameContent(p: Principal): Bytes
    requires p.Valid()
  {
    NameTypeField(p) + Explicit(1, Sequence(NameStrings(p.components)))
  }

  function Krb5NameContent(p: Principal): Bytes
    requires p.Valid()
  {
    Explicit(0, GeneralString(p.realm)) + Explicit(1, Sequence(PrincipalNameContent(p)))
  }

  function OtherNameContent(p: Principal): Bytes
    requires p.Valid()
  {
    Tlv(0x06, OID_PKINIT_SAN) + Explicit(0, Sequence(Krb5NameContent(p)))
  }

  function EncodePrincipal(p: Principal): Result<Bytes, EncodeError>
    requires p.Valid()
  {
    if p.realm == [] then Err(EmptyRealm)
    else if p.components == [] then Err(NoComponents)
    else Ok(Sequence(OtherNameContent(p)))
  }

  // ---------------------------------------------------------------- reader

  /** One tag-length-value that fills the whole buffer. */
  function ReadOnly(tag: byte, buf: Bytes): Option<Bytes> {
    var (content, rest) :- ReadTlv(tag, buf);
    if rest == [] then Some(content) else None
  }

  function ReadStrings(buf: Bytes): Option<seq<Bytes>> {
    if buf == [] then Some([])
    else
      var (s, rest) :- ReadTlv(0x1B, buf);
      var more :- ReadStrings(rest);
      Some([s] + more)
  }

  ghost function ReadPrincipalName(buf: Bytes): Option<(int, seq<Bytes>)> {
    var (typeField, rest) :- ReadTlv(0xA0, buf);
    var typeOctets :- ReadOnly(0x02, typeField);
    var list :- ReadOnly(0xA1, rest);
    var strings :- ReadOnly(0x30, list);
    var components :- ReadStrings(strings);
    Some((SignedBe(typeOctets), components))
  }

  ghost function ReadKrb5Name(buf: Bytes): Option<Principal> {
    var (realmField, rest) :- ReadTlv(0xA0, buf);
    var realm :- ReadOnly(0x1B, realmField);
    var nameField :- ReadOnly(0xA1, rest);
    var name :- ReadOnly(0x30, nameField);
    var (nameType, components) :- ReadPrincipalName(name);
    Some(Principal(realm, nameType, components))
  }

  /** A nested reader of the whole OtherName, written from the ASN.1 alone. */
  ghost function ReadOtherName(der: Bytes): Option<Principal> {
    var content :- ReadOnly(0x30, der);
    var (oid, rest) :- ReadTlv(0x06, content);
    if oid != OID_PKINIT_SAN then None
    else
      var value :- ReadOnly(0xA0, rest);
      var name :- ReadOnly(0x30, value);
      ReadKrb5Name(name)
  }

  // --------------------------------------------------------------- sizes

  function TlvSize(n: nat): nat { n + if n < 128 then 2 else if n < 256 then 3 else 4 }

  function NameStringsSize(components: seq<Bytes>): nat {
    if components == [] then 0 else TlvSize(|components[0]|) + NameStringsSize(components[1..])
  }

  /** Octets inside the outermost SEQUENCE, computed from the lengths alone. */
  function ContentSize(p: Principal): nat
    requires p.Valid()
  {
    var names := TlvSize(TlvSize(NameStringsSize(p.components)));
    var typeField := 4 + |IntegerContentI32(p.nameType)|;
    var name := TlvSize(TlvSize(typeField + names));
    8 + TlvSize(TlvSize(TlvSize(TlvSize(|p.realm|)) + name))
  }

  lemma {:induction false} NameStringsLength(components: seq<Bytes>)
    ensures |NameStrings(components)| == NameStringsSize(components)
  {
    if components != [] {
      NameStringsLength(components[1..]);
    }
  }

  lemma TlvLength(tag: byte, content: Bytes)
    ensures |Tlv(tag, content)| == TlvSize(|content|)
  {
  }

  lemma ContentLength(p: Principal)
    requires p.Valid()
    ensures |OtherNameContent(p)| == ContentSize(p)
  {
    var strings, octets := NameStrings(p.components), IntegerContentI32(p.nameType);
    NameStringsLength(p.components);
    TlvLength(0x30, strings);
    TlvLength(0xA1, Sequence(strings));
    TlvLength(0x02, octets);
    TlvLength(0xA0, Tlv(0x02, octets));
    var name := PrincipalNameContent(p);
    TlvLength(0x30, name);
    TlvLength(0xA1, Sequence(name));
    TlvLength(0x1B, p.realm);
    TlvLength(0xA0, GeneralString(p.realm));
    TlvLength(0x30, Krb5NameContent(p));
    TlvLength(0xA0, Sequence(Krb5NameContent(p)));
    TlvLength(0x06, OID_PKINIT_SAN);
  }

  // ---------------------------------------------------------- round trip

  lemma ReadOnlyOf(tag: byte, content: Bytes)
    ensures ReadOnly(tag, Tlv(tag, content)) == Some(content) <==> |content| < 65536
    ensures |content| >= 65536 ==> ReadOnly(tag, Tlv(tag, content)) == None
  {
    TlvRoundTrip(tag, content, []);
    assert Tlv(tag, content) + [] == Tlv(tag, content);
  }

  lemma {:induction false} ReadStringsOf(components: seq<Bytes>)
    requires |NameStrings(components)| < 65536
    ensures ReadStrings(NameStrings(components)) == Some(components)
  {
    if components != [] {
      TlvRoundTrip(0x1B, components[0], NameStrings(components[1..]));
      ReadStringsOf(components[1..]);
      assert components == [components[0]] + components[1..];
    }
  }

  lemma ReadPrincipalNameOf(p: Principal)
    requires p.Valid() && |PrincipalNameContent(p)| < 65536
    ensures ReadPrincipalName(PrincipalNameContent(p)) == Some((p.nameType, p.components))
  {
    var octets := IntegerContentI32(p.nameType);
    var strings := NameStrings(p.components);
    TlvRoundTrip(0xA0, Tlv(0x02, octets), Explicit(1, Sequence(strings)));
    ReadOnlyOf(0x02, octets);
    ReadOnlyOf(0xA1, Sequence(strings));
    ReadOnlyOf(0x30, strings);
    ReadStringsOf(p.components);
    I32Value(p.nameType);
  }

  lemma ReadKrb5NameOf(p: Principal)
    requires p.Valid() && |Krb5NameContent(p)| < 65536
    ensures ReadKrb5Name(Krb5NameContent(p)) == Some(p)
  {
    var name := PrincipalNameContent(p);
    TlvRoundTrip(0xA0, GeneralString(p.realm), Explicit(1, Sequence(name)));
    ReadOnlyOf(0x1B, p.realm);
    ReadOnlyOf(0xA1, Sequence(name));
    ReadOnlyOf(0x30, name);
    ReadPrincipalNameOf(p);
  }

  /**
   The encoding of a principal is read back as that principal exactly when the
   outermost content is under 65536 octets, the widest length the writer knows.
   */
  lemma PrincipalRoundTrip(p: Principal)
    requires p.Encodable()
    ensures EncodePrincipal(p).Ok?
    ensures ReadOtherName(EncodePrincipal(p).value) == Some(p) <==> ContentSize(p) < 65536
  {
    var content := OtherNameContent(p);
    ContentLength(p);
    ReadOnlyOf(0x30, content);
    if |content| < 65536 {
      var name := Krb5NameContent(p);
      TlvRoundTrip(0x06, OID_PKINIT_SAN, Explicit(0, Sequence(name)));
      ReadOnlyOf(0xA0, Sequence(name));
      ReadOnlyOf(0x30, name);
      ReadKrb5NameOf(p);
    }
  }

  /** Two principals, however their components are cut, never share an encoding. */
  lemma EncodingInjective(p: Principal, q: Principal)
    requires p.Encodable() && q.Encodable()
    requires ContentSize(p) < 65536 && ContentSize(q) < 65536
    requires EncodePrincipal(p) == EncodePrincipal(q)
    ensures p == q
  {
    PrincipalRoundTrip(p);
    PrincipalRoundTrip(q);
  }

  // -------------------------------------------------- principal strings

  /** Components and name type that the source derives from "a/b/c". */
  function PrincipalOf(name: Bytes, realm: Bytes): (p: Principal)
    ensures p.Valid() && p.components != []
  {
    var components := Split(name, SLASH);
    Principal(realm, if |components| > 1 then NT_SRV_HST else NT_PRINCIPAL, components)
  }

  function EncodePrincipalStr(s: Bytes): Result<Bytes, EncodeError> {
    match RSplitOnce(s, AT)
    case None => Err(NoAtSign)
    case Some((name, realm)) =>
      if realm == [] then Err(EmptyRealm) else EncodePrincipal(PrincipalOf(name, realm))
  }

  /** The text a principal is written as. */
  function PrincipalText(p: Principal): Bytes
    requires p.components != []
  {
    Join(p.components, SLASH) + [AT] + p.realm
  }

  /**
   A principal string is refused exactly when it has no '@' or ends in one;
   otherwise, within the size limit, its whole text can be read off the
   encoding, a slash making it a service name.
   */
  lemma PrincipalStrRoundTrip(s: Bytes)
    ensures EncodePrincipalStr(s).Err? <==> Free(s, AT) || s[|s| - 1] == AT
    ensures EncodePrincipalStr(s).Ok? ==>
      var parts := RSplitOnce(s, AT).value;
      var p := PrincipalOf(parts.0, parts.1);
      (ReadOtherName(EncodePrincipalStr(s).value) == Some(p) <==> ContentSize(p) < 65536)
      && PrincipalText(p) == s
      && p.nameType == (if SLASH in parts.0 then 3 else 1)
  {
    if RSplitOnce(s, AT).Some? {
      var (name, realm) := RSplitOnce(s, AT).value;
      SplitJoin(name, SLASH);
      if realm != [] {
        PrincipalRoundTrip(PrincipalOf(name, realm));
        assert s[|s| - 1] == realm[|realm| - 1];
      } else {
        assert s[|s| - 1] == AT;
      }
    }
  }

  // ---------------------------------------------------------- templates

  /** The names a template stands for, in the order they are injected. */
  function ExpandedNames(template: Bytes, name: Bytes, dnsSans: seq<Bytes>): seq<Bytes> {
    if Contains(template, DNS_PLACEHOLDER)
    then seq(|dnsSans|, i requires 0 <= i < |dnsSans| => Replace(name, DNS_PLACEHOLDER, dnsSans[i]))
    else [name]
  }

  /** The OtherName of one expanded name: refused only for an empty realm. */
  function EncodeName(name: Bytes, realm: Bytes): (r: Result<Bytes, EncodeError>)
    ensures realm == [] ==> r == Err(EmptyRealm)
    ensures realm != [] ==> r.Ok?
  {
    EncodePrincipal(PrincipalOf(name, realm))
  }

  /** The loop of `expand_kpn_template`: one OtherName per name, or the first error. */
  method EncodeExpansions(names: seq<Bytes>, realm: Bytes) returns (r: Result<seq<Bytes>, EncodeError>)
    ensures realm == [] && names != [] ==> r == Err(EmptyRealm)
    ensures realm != [] || names == [] ==>
      r.Ok? && |r.value| == |names|
      && forall i :: 0 <= i < |names| ==> Ok(r.value[i]) == EncodeName(names[i], realm)
  {
    var results: seq<Bytes> := [];
    for i := 0 to |names|
      invariant |results| == i
      invariant i > 0 ==> realm != []
      invariant forall k :: 0 <= k < i ==> Ok(results[k]) == EncodeName(names[k], realm)
    {
      var one := EncodeName(names[i], realm);
      if one.Err? {
        return Err(one.error);
      }
      results := results + [one.value];
    }
    return Ok(results);
  }

  /** What a template must expand to: the errors, or the encoding of each name in order. */
  ghost predicate Expands(template: Bytes, dnsSans: seq<Bytes>, r: Result<seq<Bytes>, EncodeError>) {
    match RSplitOnce(template, AT)
    case None => r == Err(NoAtSign)
    case Some((name, realm)) =>
      var names := ExpandedNames(template, name, dnsSans);
      if realm == [] && names != [] then r == Err(EmptyRealm)
      else
        r.Ok? && |r.value| == |names|
        && forall i :: 0 <= i < |names| ==> Ok(r.value[i]) == EncodeName(names[i], realm)
  }

  method ExpandKpnTemplate(template: Bytes, dnsSans: seq<Bytes>)
    returns (r: Result<seq<Bytes>, EncodeError>)
    ensures Free(template, AT) ==> r == Err(NoAtSign)
    ensures Expands(template, dnsSans, r)
  {
    var hasPlaceholder := Contains(template, DNS_PLACEHOLDER);
    match RSplitOnce(template, AT) {
      case None =>
        return Err(NoAtSign);
      case Some((name, realm)) =>
        var names := [name];
        if hasPlaceholder {
          names := seq(|dnsSans|, i requires 0 <= i < |dnsSans| => Replace(name, DNS_PLACEHOLDER, dnsSans[i]));
        }
        r := EncodeExpansions(names, realm);
    }
  }

  lemma PrincipalOfInjective(a: Bytes, b: Bytes, realm: Bytes)
    requires PrincipalOf(a, realm) == PrincipalOf(b, realm)
    ensures a == b
  {
    SplitJoin(a, SLASH);
    SplitJoin(b, SLASH);
  }

  lemma NamesDistinct(name: Bytes, realm: Bytes, a: Bytes, b: Bytes)
    requires realm != []
    requires ContentSize(PrincipalOf(Replace(name, DNS_PLACEHOLDER, a), realm)) < 65536
    requires ContentSize(PrincipalOf(Replace(name, DNS_PLACEHOLDER, b), realm)) < 65536
    ensures EncodeName(Replace(name, DNS_PLACEHOLDER, a), realm)
         == EncodeName(Replace(name, DNS_PLACEHOLDER, b), realm)
      <==> a == b || !Contains(name, DNS_PLACEHOLDER)
  {
    var x, y := Replace(name, DNS_PLACEHOLDER, a), Replace(name, DNS_PLACEHOLDER, b);
    var p, q := PrincipalOf(x, realm), PrincipalOf(y, realm);
    if EncodePrincipal(p) == EncodePrincipal(q) {
      EncodingInjective(p, q);
      PrincipalOfInjective(x, y, realm);
      if Contains(name, DNS_PLACEHOLDER) {
        ReplaceInjective(name, DNS_PLACEHOLDER, a, b);
      }
    } else if !Contains(name, DNS_PLACEHOLDER) {
      ReplaceLength(name, DNS_PLACEHOLDER, a);
      ReplaceLength(name, DNS_PLACEHOLDER, b);
    }
  }

  /** The part of a template whose placeholder is substituted, and the part kept. */
  ghost function NamePart(template: Bytes): Bytes
    requires !Free(template, AT)
  {
    RSplitOnce(template, AT).value.0
  }

  ghost function RealmPart(template: Bytes): Bytes
    requires !Free(template, AT)
  {
    RSplitOnce(template, AT).value.1
  }

  /** Within the size the encoder can write. */
  ghost predicate Encodes(template: Bytes, dns: Bytes)
    requires !Free(template, AT)
  {
    ContentSize(PrincipalOf(Replace(NamePart(template), DNS_PLACEHOLDER, dns), RealmPart(template))) < 65536
  }

  /**
   A template with the placeholder yields one OtherName per DNS name, and two
   of them are the same exactly when the DNS names are, or when the placeholder
   stands in the realm part only, which the expansion never substitutes.
   */
  lemma ExpansionsDistinct(template: Bytes, dnsSans: seq<Bytes>, out: seq<Bytes>, i: nat, j: nat)
    requires !Free(template, AT) && Contains(template, DNS_PLACEHOLDER)
    requires Expands(template, dnsSans, Ok(out)) && i < |dnsSans| && j < |dnsSans|
    requires Encodes(template, dnsSans[i]) && Encodes(template, dnsSans[j])
    ensures |out| == |dnsSans|
    ensures out[i] == out[j] <==> dnsSans[i] == dnsSans[j] || !Contains(NamePart(template), DNS_PLACEHOLDER)
  {
    var name, realm := NamePart(template), RealmPart(template);
    var names := ExpandedNames(template, name, dnsSans);
    assert names[i] == Replace(name, DNS_PLACEHOLDER, dnsSans[i]);
    assert names[j] == Replace(name, DNS_PLACEHOLDER, dnsSans[j]);
    assert Ok(out[i]) == EncodeName(names[i], realm) && Ok(out[j]) == EncodeName(names[j], realm);
    NamesDistinct(name, realm, dnsSans[i], dnsSans[j]);
  }

  /** Content octets of an object identifier (section 8.19 of ITU-T X.690), for arcs below 128. */
  function OidContent(arcs: seq<nat>): Bytes
    requires |arcs| >= 2 && arcs[0] < 3 && arcs[1] < 40
    requires forall i :: 2 <= i < |arcs| ==> arcs[i] < 128
  {
    [arcs[0] * 40 + arcs[1]] + seq(|arcs| - 2, i requires 0 <= i < |arcs| - 2 => arcs[i + 2])
  }

  /** The identifier is id-pkinit-san, 1.3.6.1.5.2.2, and the placeholder reads "{dns}". */
  lemma NamedConstants()
    ensures OID_PKINIT_SAN == OidContent([1, 3, 6, 1, 5, 2, 2])
    ensures DNS_PLACEHOLDER == ['{' as int, 'd' as int, 'n' as int, 's' as int, '}' as int]
    ensures AT == '@' as int && SLASH == '/' as int
  {
  }

  /** A template without the placeholder gives one OtherName, whatever the DNS names: that of its own text. */
  lemma StaticTemplate(template: Bytes, dnsSans: seq<Bytes>, r: Result<seq<Bytes>, EncodeError>)
    requires Expands(template, dnsSans, r) && !Contains(template, DNS_PLACEHOLDER)
    ensures r.Err? <==> Free(template, AT) || template[|template| - 1] == AT
    ensures r.Ok? ==>
      !Free(template, AT) && |r.value| == 1 && Ok(r.value[0]) == EncodePrincipalStr(template)
      && var p := PrincipalOf(NamePart(template), RealmPart(template));
         PrincipalText(p) == template && (ReadOtherName(r.value[0]) == Some(p) <==> ContentSize(p) < 65536)
  {
    PrincipalStrRoundTrip(template);
    if !Free(template, AT) {
      StaticNames(template, dnsSans, r);
    }
  }

  lemma StaticNames(template: Bytes, dnsSans: seq<Bytes>, r: Result<seq<Bytes>, EncodeError>)
    requires !Free(template, AT) && Expands(template, dnsSans, r) && !Contains(template, DNS_PLACEHOLDER)
    ensures RealmPart(template) == [] ==> r == Err(EmptyRealm)
    ensures RealmPart(template) != [] ==>
      r.Ok? && |r.value| == 1 && Ok(r.value[0]) == EncodeName(NamePart(template), RealmPart(template))
  {
    var names := ExpandedNames(template, NamePart(template), dnsSans);
    assert |names| == 1 && names[0] == NamePart(template);
  }

  /** With the placeholder, the entry of each DNS name is read back as the template with that name put in. */
  lemma ExpansionReads(template: Bytes, dnsSans: seq<Bytes>, out: seq<Bytes>, i: nat)
    requires !Free(template, AT) && Contains(template, DNS_PLACEHOLDER)
    requires Expands(template, dnsSans, Ok(out)) && i < |dnsSans|
    ensures |out| == |dnsSans|
    ensures var name := Replace(NamePart(template), DNS_PLACEHOLDER, dnsSans[i]);
      var p := PrincipalOf(name, RealmPart(template));
      PrincipalText(p) == name + [AT] + RealmPart(template)
      && (ReadOtherName(out[i]) == Some(p) <==> ContentSize(p) < 65536)
  {
    var name, realm := Replace(NamePart(template), DNS_PLACEHOLDER, dnsSans[i]), RealmPart(template);
    var names := ExpandedNames(template, NamePart(template), dnsSans);
    assert names[i] == name && Ok(out[i]) == EncodeName(names[i], realm);
    SplitJoin(name, SLASH);
    PrincipalRoundTrip(PrincipalOf(name, realm));
  }
}

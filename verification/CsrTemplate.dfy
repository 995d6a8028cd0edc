/**
 CSR templates of section 4 of RFC 9115 as src/ca/csr_template.rs checks them:
 key type, subject and extensions. Decoded parts of the request are the
 input; a value that does not decode is `None`.
 */
module CsrTemplate {
  import opened Common
  import opened Lists

  const U32: int := 0x1_0000_0000

  datatype FieldSpec = Literal(text: string) | MandatoryWildcard | OptionalWildcard

  datatype KeyTypeSpec = KeyTypeSpec(keyType: string, curve: Option<string>, keySize: Option<int>)

  /** The attribute types of the OID table, and everything else. */
  datatype AttrType =
    | CommonName | Country | Organization | OrganizationalUnit | Locality | StateOrProvince
    | EmailAddress | Unknown(oid: string)

  const DN_OID_MAP: seq<AttrType> :=
    [CommonName, Country, Organization, OrganizationalUnit, Locality, StateOrProvince, EmailAddress]

  datatype DnTemplate = DnTemplate(commonName: Option<FieldSpec>, country: Option<FieldSpec>,
                                   organization: Option<FieldSpec>, organizationalUnit: Option<FieldSpec>,
                                   locality: Option<FieldSpec>, stateOrProvince: Option<FieldSpec>,
                                   emailAddress: Option<FieldSpec>) {
    function Spec(t: AttrType): Option<FieldSpec> {
      match t
      case CommonName => commonName
      case Country => country
      case Organization => organization
      case OrganizationalUnit => organizationalUnit
      case Locality => locality
      case StateOrProvince => stateOrProvince
      case EmailAddress => emailAddress
      case Unknown(_) => None
    }

    predicate Unconstrained() {
      commonName.None? && country.None? && organization.None? && organizationalUnit.None?
      && locality.None? && stateOrProvince.None? && emailAddress.None?
    }
  }

  datatype SanSpec = SanRequired | SanOptional

  datatype ExtensionsTemplate = ExtensionsTemplate(san: Option<SanSpec>, keyUsage: Option<seq<string>>,
                                                   extendedKeyUsage: Option<seq<string>>) {
    predicate Unconstrained() { san.None? && keyUsage.None? && extendedKeyUsage.None? }

    predicate Allows(oid: ExtOid) {
      (oid.SubjectAltName? && san.Some?) || (oid.KeyUsage? && keyUsage.Some?)
      || (oid.ExtendedKeyUsage? && extendedKeyUsage.Some?)
    }
  }

  datatype Template = Template(keyTypes: seq<KeyTypeSpec>, subject: DnTemplate, extensions: ExtensionsTemplate)

  datatype Attr = Attr(kind: AttrType, value: string)

  datatype ExtOid = SubjectAltName | KeyUsage | ExtendedKeyUsage | OtherExt(arcs: seq<nat>)

  /** One requested extension, with its value decoded as key usage bits and as usage OIDs. */
  datatype Ext = Ext(oid: ExtOid, bits: Option<set<nat>>, oids: Option<seq<string>>)

  datatype Request = Request(signatureOk: bool, keyType: string, bitSize: Option<int>,
                             curve: Option<string>, attrs: seq<Attr>, exts: seq<Ext>)

  datatype Violation = NoKeyTypes | BadSignature | KeyTypeMismatch | SubjectMismatch | ExtensionMismatch

  // ------------------------------------------------------------- key type

  predicate KeyTypeMatches(spec: KeyTypeSpec, r: Request) {
    if (spec.keyType == "EC" || spec.keyType == "ECDSA") && r.keyType == "ec"
    then spec.curve.None? || r.curve == spec.curve
    else if spec.keyType == "RSA" && r.keyType == "rsa"
    then spec.keySize.None?
         || (r.bitSize.Some? && 0 <= r.bitSize.value < U32 && r.bitSize == spec.keySize)
    else false
  }

  /** An RSA key and an RSA key type without a size, or with its size in bits. */
  predicate RsaFits(spec: KeyTypeSpec, r: Request) {
    r.keyType == "rsa" && spec.keyType == "RSA"
    && (spec.keySize == None || (r.bitSize == spec.keySize && 0 <= r.bitSize.value < 0x1_0000_0000))
  }

  /** An elliptic-curve key and an EC or ECDSA key type without a curve, or with its curve. */
  predicate EcFits(spec: KeyTypeSpec, r: Request) {
    r.keyType == "ec" && spec.keyType in ["EC", "ECDSA"] && (spec.curve == None || r.curve == spec.curve)
  }

  /** What the listed key types admit, on the fields alone. */
  ghost predicate Admits(specs: seq<KeyTypeSpec>, r: Request) {
    exists i :: 0 <= i < |specs| && (RsaFits(specs[i], r) || EcFits(specs[i], r))
  }

  lemma MatchExactly(specs: seq<KeyTypeSpec>, r: Request)
    ensures (exists spec :: spec in specs && KeyTypeMatches(spec, r)) <==> Admits(specs, r)
  {
    assert forall spec :: KeyTypeMatches(spec, r) <==> RsaFits(spec, r) || EcFits(spec, r);
    if Admits(specs, r) {
      var i :| 0 <= i < |specs| && (RsaFits(specs[i], r) || EcFits(specs[i], r));
      assert specs[i] in specs && KeyTypeMatches(specs[i], r);
    }
  }

  /** A key type that fixes a size or curve admits one value of it; no other kind of key is ever admitted. */
  lemma FixedSizeDecides(spec: KeyTypeSpec, a: Request, b: Request)
    requires Admits([spec], a) && Admits([spec], b)
    ensures a.keyType == b.keyType && a.keyType in ["rsa", "ec"]
    ensures a.keyType == "rsa" && spec.keySize.Some? ==> a.bitSize == b.bitSize == spec.keySize
    ensures a.keyType == "ec" && spec.curve.Some? ==> a.curve == b.curve == spec.curve
  {
  }

  method ValidateKeyType(r: Request, specs: seq<KeyTypeSpec>) returns (ok: bool)
    ensures ok <==> exists spec :: spec in specs && KeyTypeMatches(spec, r)
    ensures ok <==> Admits(specs, r)
  {
    MatchExactly(specs, r);
    for i := 0 to |specs|
      invariant forall k :: 0 <= k < i ==> !KeyTypeMatches(specs[k], r)
    {
      if KeyTypeMatches(specs[i], r) {
        return true;
      }
    }
    return false;
  }

  // -------------------------------------------------------------- subject

  function OfKind(t: AttrType): Attr -> bool { (a: Attr) => a.kind == t }

  /** `check_dn_field`, on the values of one attribute type. */
  predicate CheckDnField(attrs: seq<Attr>, t: AttrType, spec: Option<FieldSpec>) {
    var values := Filter(attrs, OfKind(t));
    match spec
    case None => values == []
    case Some(MandatoryWildcard) => values != []
    case Some(OptionalWildcard) => true
    case Some(Literal(expected)) => |values| == 1 && values[0].value == expected
  }

  /** What a template field asks of the whole, possibly multi-valued, subject. */
  ghost predicate FieldOk(attrs: seq<Attr>, t: AttrType, spec: Option<FieldSpec>) {
    match spec
    case None => forall i :: 0 <= i < |attrs| ==> attrs[i].kind != t
    case Some(MandatoryWildcard) => exists i :: 0 <= i < |attrs| && attrs[i].kind == t
    case Some(OptionalWildcard) => true
    case Some(Literal(expected)) => exists i :: Only(attrs, Attr(t, expected), i)
  }

  /** `a` stands at position `i` and is the one attribute of its type. */
  ghost predicate Only(attrs: seq<Attr>, a: Attr, i: int) {
    0 <= i < |attrs| && attrs[i] == a
    && forall j :: 0 <= j < |attrs| && attrs[j].kind == a.kind ==> j == i
  }

  ghost predicate SubjectOk(attrs: seq<Attr>, tpl: DnTemplate) {
    tpl.Unconstrained()
    || ((forall i :: 0 <= i < |attrs| ==> !attrs[i].kind.Unknown?)
        && (forall t :: t in DN_OID_MAP ==> FieldOk(attrs, t, tpl.Spec(t))))
  }

  lemma {:induction false} FilterHits(attrs: seq<Attr>, t: AttrType)
    ensures Filter(attrs, OfKind(t)) == [] <==> forall i :: 0 <= i < |attrs| ==> attrs[i].kind != t
  {
    if attrs != [] {
      FilterHits(attrs[1..], t);
      assert attrs[0].kind != t ==> Filter(attrs, OfKind(t)) == Filter(attrs[1..], OfKind(t));
      assert forall i :: 0 < i < |attrs| ==> attrs[i] == attrs[1..][i - 1];
    }
  }

  /** The filtered list is `[a]` exactly when `a` is the one attribute of its type. */
  lemma {:induction false} FilterSingle(attrs: seq<Attr>, a: Attr)
    ensures Filter(attrs, OfKind(a.kind)) == [a] <==> exists i :: Only(attrs, a, i)
  {
    if attrs != [] {
      var rest := attrs[1..];
      FilterHits(rest, a.kind);
      FilterSingle(rest, a);
      assert forall i :: 0 < i < |attrs| ==> attrs[i] == rest[i - 1];
      if attrs[0].kind == a.kind {
        ConsSingle(attrs[0], Filter(rest, OfKind(a.kind)), a);
        assert Only(attrs, a, 0) <==> attrs[0] == a && Filter(rest, OfKind(a.kind)) == [];
        assert forall i :: Only(attrs, a, i) ==> i == 0;
      } else {
        assert forall i :: Only(attrs, a, i) ==> Only(rest, a, i - 1);
        assert forall i :: Only(rest, a, i) ==> Only(attrs, a, i + 1);
      }
    }
  }

  lemma ConsSingle(x: Attr, rest: seq<Attr>, a: Attr)
    ensures [x] + rest == [a] <==> x == a && rest == []
  {
    assert ([x] + rest)[0] == x && |[x] + rest| == 1 + |rest|;
  }

  /** The code's filtered values decide exactly the condition on the whole subject. */
  lemma FieldCheckExact(attrs: seq<Attr>, t: AttrType, spec: Option<FieldSpec>)
    ensures CheckDnField(attrs, t, spec) <==> FieldOk(attrs, t, spec)
  {
    FilterHits(attrs, t);
    if spec.Some? && spec.value.Literal? {
      var a := Attr(t, spec.value.text);
      FilterSingle(attrs, a);
      FilterKinds(attrs, t);
      assert CheckDnField(attrs, t, spec) <==> Filter(attrs, OfKind(t)) == [a];
    }
  }

  lemma {:induction false} FilterKinds(attrs: seq<Attr>, t: AttrType)
    ensures forall i :: 0 <= i < |Filter(attrs, OfKind(t))| ==> Filter(attrs, OfKind(t))[i].kind == t
  {
    if attrs != [] {
      FilterKinds(attrs[1..], t);
    }
  }

  /** The subject condition, field by field of the template. */
  lemma SubjectExactly(attrs: seq<Attr>, tpl: DnTemplate)
    ensures SubjectOk(attrs, tpl) <==>
      tpl == DnTemplate(None, None, None, None, None, None, None)
      || ((forall i :: 0 <= i < |attrs| ==> !attrs[i].kind.Unknown?)
          && FieldOk(attrs, CommonName, tpl.commonName) && FieldOk(attrs, Country, tpl.country)
          && FieldOk(attrs, Organization, tpl.organization)
          && FieldOk(attrs, OrganizationalUnit, tpl.organizationalUnit)
          && FieldOk(attrs, Locality, tpl.locality) && FieldOk(attrs, StateOrProvince, tpl.stateOrProvince)
          && FieldOk(attrs, EmailAddress, tpl.emailAddress))
  {
    assert tpl.Unconstrained() <==> tpl == DnTemplate(None, None, None, None, None, None, None);
    assert DN_OID_MAP[0] == CommonName && DN_OID_MAP[1] == Country && DN_OID_MAP[2] == Organization;
    assert DN_OID_MAP[3] == OrganizationalUnit && DN_OID_MAP[4] == Locality && DN_OID_MAP[5] == StateOrProvince;
    assert DN_OID_MAP[6] == EmailAddress;
    FieldsOf(attrs, tpl);
  }

  lemma FieldsOf(attrs: seq<Attr>, tpl: DnTemplate)
    ensures (forall t :: t in DN_OID_MAP ==> FieldOk(attrs, t, tpl.Spec(t))) <==>
      FieldOk(attrs, CommonName, tpl.Spec(CommonName)) && FieldOk(attrs, Country, tpl.Spec(Country))
      && FieldOk(attrs, Organization, tpl.Spec(Organization))
      && FieldOk(attrs, OrganizationalUnit, tpl.Spec(OrganizationalUnit))
      && FieldOk(attrs, Locality, tpl.Spec(Locality)) && FieldOk(attrs, StateOrProvince, tpl.Spec(StateOrProvince))
      && FieldOk(attrs, EmailAddress, tpl.Spec(EmailAddress))
  {
    var seven := {CommonName, Country, Organization, OrganizationalUnit, Locality, StateOrProvince, EmailAddress};
    assert forall t :: t in DN_OID_MAP <==> t in seven;
  }

  method ValidateSubject(attrs: seq<Attr>, tpl: DnTemplate) returns (ok: bool)
    ensures ok <==> SubjectOk(attrs, tpl)
  {
    if tpl.Unconstrained() {
      return true;
    }
    for i := 0 to |DN_OID_MAP|
      invariant forall k :: 0 <= k < i ==> FieldOk(attrs, DN_OID_MAP[k], tpl.Spec(DN_OID_MAP[k]))
    {
      var t := DN_OID_MAP[i];
      FieldCheckExact(attrs, t, tpl.Spec(t));
      if !CheckDnField(attrs, t, tpl.Spec(t)) {
        assert t in DN_OID_MAP;
        return false;
      }
    }
    for i := 0 to |attrs|
      invariant forall k :: 0 <= k < i ==> !attrs[k].kind.Unknown?
    {
      if attrs[i].kind !in DN_OID_MAP {
        return false;
      }
    }
    return true;
  }

  // ------------------------------------------------------------ key usage

  const KU_BITS: seq<string> :=
    ["digitalSignature", "contentCommitment", "keyEncipherment", "dataEncipherment", "keyAgreement",
     "keyCertSign", "cRLSign", "encipherOnly", "decipherOnly"]

  function Canonical(name: string): string {
    if name == "nonRepudiation" then "contentCommitment" else name
  }

  /** Index of a canonical name in the table. */
  function BitOf(name: string): (r: Option<nat>)
    ensures r.Some? ==> r.value < |KU_BITS| && KU_BITS[r.value] == name
    ensures r.None? ==> name !in KU_BITS
  {
    BitFrom(name, 0)
  }

  function BitFrom(name: string, i: nat): (r: Option<nat>)
    requires i <= |KU_BITS|
    ensures r.Some? ==> i <= r.value < |KU_BITS| && KU_BITS[r.value] == name
    ensures r.None? ==> name !in KU_BITS[i..]
    decreases |KU_BITS| - i
  {
    if i == |KU_BITS| then None
    else if KU_BITS[i] == name then Some(i)
    else
      assert KU_BITS[i..] == [KU_BITS[i]] + KU_BITS[i + 1..];
      BitFrom(name, i + 1)
  }

  /** The named bits of section 4.2.1.3 of RFC 5280, by name. */
  lemma BitNumbers()
    ensures BitOf("digitalSignature") == Some(0) && BitOf("contentCommitment") == Some(1)
    ensures BitOf("keyEncipherment") == Some(2) && BitOf("dataEncipherment") == Some(3)
    ensures BitOf("keyAgreement") == Some(4) && BitOf("keyCertSign") == Some(5)
    ensures BitOf("cRLSign") == Some(6) && BitOf("encipherOnly") == Some(7) && BitOf("decipherOnly") == Some(8)
    ensures BitOf(Canonical("nonRepudiation")) == Some(1)
  {
    BitAt(0);
    BitAt(1);
    BitAt(2);
    BitAt(3);
    BitAt(4);
    BitAt(5);
    BitAt(6);
    BitAt(7);
    BitAt(8);
  }

  lemma BitAt(i: nat)
    requires i < |KU_BITS|
    ensures BitOf(KU_BITS[i]) == Some(i)
  {
    NamesDiffer();
  }

  lemma NamesDiffer()
    ensures forall i, j :: 0 <= i < j < |KU_BITS| ==> KU_BITS[i] != KU_BITS[j]
  {
    assert |KU_BITS[0]| == 16 && |KU_BITS[1]| == 17 && |KU_BITS[2]| == 15 && |KU_BITS[3]| == 16;
    assert |KU_BITS[4]| == 12 && |KU_BITS[5]| == 11 && |KU_BITS[6]| == 7 && |KU_BITS[7]| == 12 && |KU_BITS[8]| == 12;
    assert KU_BITS[0][1] == 'i' && KU_BITS[3][1] == 'a';
    assert KU_BITS[4][0] == 'k' && KU_BITS[7][0] == 'e' && KU_BITS[8][0] == 'd';
  }

  ghost function CanonicalSet(names: seq<string>): set<string> { set n | n in names :: Canonical(n) }

  ghost function NamedBits(names: seq<string>): set<nat> {
    set c | c in CanonicalSet(names) && BitOf(c).Some? :: BitOf(c).value
  }

  ghost predicate AllKnown(names: seq<string>) { forall c :: c in CanonicalSet(names) ==> BitOf(c).Some? }

  /** The named bits are exactly the known bits set in the request. */
  ghost predicate KeyUsageOk(bits: Option<set<nat>>, names: seq<string>) {
    bits.Some? && AllKnown(names)
    && forall b: nat :: b < |KU_BITS| ==> (b in bits.value <==> b in NamedBits(names))
  }

  method ValidateKeyUsage(bits: Option<set<nat>>, names: seq<string>) returns (ok: bool)
    ensures ok <==> KeyUsageOk(bits, names)
  {
    if bits.None? {
      return false;
    }
    var templateBits: set<nat> := {};
    for i := 0 to |names|
      invariant AllKnown(names[..i])
      invariant templateBits == NamedBits(names[..i])
    {
      CanonicalStep(names, i);
      match BitOf(Canonical(names[i])) {
        case None =>
          assert Canonical(names[i]) in CanonicalSet(names);
          return false;
        case Some(bit) =>
          NamedBitsStep(names, i);
          templateBits := templateBits + {bit};
      }
    }
    assert names[..|names|] == names;
    var csrBits := set b: nat | b < |KU_BITS| && b in bits.value;
    assert csrBits == templateBits <==> KeyUsageOk(bits, names) by {
      assert forall b: nat :: b < |KU_BITS| ==> (b in bits.value <==> b in csrBits);
      assert forall b :: b in templateBits ==> b < |KU_BITS|;
    }
    ok := csrBits == templateBits;
  }

  lemma CanonicalStep(names: seq<string>, i: nat)
    requires i < |names|
    ensures CanonicalSet(names[..i + 1]) == CanonicalSet(names[..i]) + {Canonical(names[i])}
    ensures Canonical(names[i]) in CanonicalSet(names)
  {
    assert names[i] in names;
    assert names[..i + 1] == names[..i] + [names[i]];
    assert names[i] in names[..i + 1];
    forall n | n in names[..i] ensures Canonical(n) in CanonicalSet(names[..i + 1]) {
      assert n in names[..i + 1];
    }
  }

  lemma NamedBitsStep(names: seq<string>, i: nat)
    requires i < |names| && BitOf(Canonical(names[i])).Some?
    ensures NamedBits(names[..i + 1]) == NamedBits(names[..i]) + {BitOf(Canonical(names[i])).value}
  {
    CanonicalStep(names, i);
  }

  /**
   Two lists of known names admit the same requests exactly when they name the
   same usages: order, repeats and the choice of alias are all that is free.
   */
  lemma KeyUsageBySet(names: seq<string>, names': seq<string>)
    requires AllKnown(names) && AllKnown(names')
    ensures CanonicalSet(names) == CanonicalSet(names') <==>
      forall bits :: KeyUsageOk(bits, names) <==> KeyUsageOk(bits, names')
  {
    if forall bits :: KeyUsageOk(bits, names) <==> KeyUsageOk(bits, names') {
      assert KeyUsageOk(Some(NamedBits(names)), names);
      assert KeyUsageOk(Some(NamedBits(names)), names');
      SameBitsSameNames(names, names');
      SameBitsSameNames(names', names);
    }
  }

  lemma SameBitsSameNames(names: seq<string>, names': seq<string>)
    requires AllKnown(names)
    requires forall b :: b in NamedBits(names) ==> b in NamedBits(names')
    ensures CanonicalSet(names) <= CanonicalSet(names')
  {
    forall c | c in CanonicalSet(names) ensures c in CanonicalSet(names') {
      assert BitOf(c).value in NamedBits(names);
      var c' :| c' in CanonicalSet(names') && BitOf(c') == BitOf(c);
      assert KU_BITS[BitOf(c).value] == c == c';
    }
  }

  // ----------------------------------------------------------- extensions

  ghost predicate EkuOk(oids: Option<seq<string>>, permitted: seq<string>) {
    oids.Some? && forall o :: o in oids.value ==> o in permitted
  }

  method ValidateEku(oids: Option<seq<string>>, permitted: seq<string>) returns (ok: bool)
    ensures ok <==> EkuOk(oids, permitted)
  {
    if oids.None? {
      return false;
    }
    for i := 0 to |oids.value|
      invariant forall k :: 0 <= k < i ==> oids.value[k] in permitted
    {
      if oids.value[i] !in permitted {
        return false;
      }
    }
    return true;
  }

  /** The extension found first is the one that is looked at; later ones of the same OID are not. */
  ghost predicate First(exts: seq<Ext>, oid: ExtOid, i: int) {
    0 <= i < |exts| && exts[i].oid == oid && forall j :: 0 <= j < i ==> exts[j].oid != oid
  }

  method FindExt(exts: seq<Ext>, oid: ExtOid) returns (r: Option<Ext>)
    ensures r.None? <==> forall i :: !First(exts, oid, i)
    ensures r.Some? ==> exists i :: First(exts, oid, i) && exts[i] == r.value
  {
    for i := 0 to |exts|
      invariant forall j :: 0 <= j < i ==> exts[j].oid != oid
    {
      if exts[i].oid == oid {
        assert First(exts, oid, i);
        return Some(exts[i]);
      }
    }
    return None;
  }

  ghost predicate ExtensionsOk(exts: seq<Ext>, tpl: ExtensionsTemplate) {
    tpl.Unconstrained()
    || ((forall i :: 0 <= i < |exts| ==> tpl.Allows(exts[i].oid))
        && (tpl.san == Some(SanRequired) ==> exists i :: First(exts, SubjectAltName, i))
        && (tpl.keyUsage.Some? ==> KeyUsagePart(exts, tpl.keyUsage.value))
        && (tpl.extendedKeyUsage.Some? ==> EkuPart(exts, tpl.extendedKeyUsage.value)))
  }

  ghost predicate KeyUsagePart(exts: seq<Ext>, names: seq<string>) {
    exists i :: First(exts, KeyUsage, i) && KeyUsageOk(exts[i].bits, names)
  }

  ghost predicate EkuPart(exts: seq<Ext>, permitted: seq<string>) {
    exists i :: First(exts, ExtendedKeyUsage, i) && EkuOk(exts[i].oids, permitted)
  }

  /** The extension condition by the fields of the template: an extension not named there is refused. */
  lemma ExtensionsExactly(exts: seq<Ext>, tpl: ExtensionsTemplate)
    ensures ExtensionsOk(exts, tpl) <==>
      tpl == ExtensionsTemplate(None, None, None)
      || ((forall i :: 0 <= i < |exts| ==>
             (exts[i].oid == SubjectAltName && tpl.san != None) || (exts[i].oid == KeyUsage && tpl.keyUsage != None)
             || (exts[i].oid == ExtendedKeyUsage && tpl.extendedKeyUsage != None))
          && (tpl.san == Some(SanRequired) ==> exists i :: 0 <= i < |exts| && exts[i].oid == SubjectAltName)
          && (tpl.keyUsage.Some? ==> KeyUsagePart(exts, tpl.keyUsage.value))
          && (tpl.extendedKeyUsage.Some? ==> EkuPart(exts, tpl.extendedKeyUsage.value)))
  {
    assert tpl.Unconstrained() <==> tpl == ExtensionsTemplate(None, None, None);
    if i :| 0 <= i < |exts| && exts[i].oid == SubjectAltName {
      FirstExists(exts, SubjectAltName, i);
    }
    if i :| First(exts, SubjectAltName, i) {
      assert exts[i].oid == SubjectAltName;
    }
  }

  lemma {:induction false} FirstExists(exts: seq<Ext>, oid: ExtOid, i: nat)
    requires i < |exts| && exts[i].oid == oid
    ensures exists j :: First(exts, oid, j)
  {
    if j :| 0 <= j < i && exts[j].oid == oid {
      FirstExists(exts, oid, j);
    } else {
      assert First(exts, oid, i);
    }
  }

  method ValidateExtensions(exts: seq<Ext>, tpl: ExtensionsTemplate) returns (ok: bool)
    ensures ok <==> ExtensionsOk(exts, tpl)
  {
    if tpl.Unconstrained() {
      return true;
    }
    for i := 0 to |exts|
      invariant forall k :: 0 <= k < i ==> tpl.Allows(exts[k].oid)
    {
      if !tpl.Allows(exts[i].oid) {
        return false;
      }
    }
    if tpl.san == Some(SanRequired) {
      var san := FindExt(exts, SubjectAltName);
      if san.None? {
        return false;
      }
    }
    if tpl.keyUsage.Some? {
      var good := CheckKeyUsagePart(exts, tpl.keyUsage.value);
      if !good {
        return false;
      }
    }
    if tpl.extendedKeyUsage.Some? {
      ok := CheckEkuPart(exts, tpl.extendedKeyUsage.value);
      return;
    }
    return true;
  }

  method CheckKeyUsagePart(exts: seq<Ext>, names: seq<string>) returns (ok: bool)
    ensures ok <==> KeyUsagePart(exts, names)
  {
    var found := FindExt(exts, KeyUsage);
    if found.None? {
      return false;
    }
    ok := ValidateKeyUsage(found.value.bits, names);
  }

  method CheckEkuPart(exts: seq<Ext>, permitted: seq<string>) returns (ok: bool)
    ensures ok <==> EkuPart(exts, permitted)
  {
    var found := FindExt(exts, ExtendedKeyUsage);
    if found.None? {
      return false;
    }
    ok := ValidateEku(found.value.oids, permitted);
  }

  // ------------------------------------------------------------- the whole

  ghost predicate KeyOk(r: Request, specs: seq<KeyTypeSpec>) {
    exists spec :: spec in specs && KeyTypeMatches(spec, r)
  }

  ghost predicate Accepts(tpl: Template, r: Request) {
    tpl.keyTypes != [] && r.signatureOk && KeyOk(r, tpl.keyTypes)
    && SubjectOk(r.attrs, tpl.subject) && ExtensionsOk(r.exts, tpl.extensions)
  }

  /** The violation reported is the first in the order of the checks. */
  method ValidateCsrAgainstTemplate(r: Request, tpl: Template) returns (v: Option<Violation>)
    ensures v.None? <==> Accepts(tpl, r)
    ensures v == Some(NoKeyTypes) <==> tpl.keyTypes == []
    ensures v == Some(BadSignature) <==> tpl.keyTypes != [] && !r.signatureOk
    ensures v == Some(KeyTypeMismatch) <==>
      tpl.keyTypes != [] && r.signatureOk && !KeyOk(r, tpl.keyTypes)
    ensures v == Some(SubjectMismatch) <==>
      r.signatureOk && KeyOk(r, tpl.keyTypes) && !SubjectOk(r.attrs, tpl.subject)
  {
    if tpl.keyTypes == [] {
      return Some(NoKeyTypes);
    }
    if !r.signatureOk {
      return Some(BadSignature);
    }
    var key := ValidateKeyType(r, tpl.keyTypes);
    if !key {
      return Some(KeyTypeMismatch);
    }
    var subject := ValidateSubject(r.attrs, tpl.subject);
    if !subject {
      return Some(SubjectMismatch);
    }
    var extensions := ValidateExtensions(r.exts, tpl.extensions);
    return if extensions then None else Some(ExtensionMismatch);
  }

  // ------------------------------------------------------------ monotonicity

  /** `b` asks no more of a field than `a`; a field that is not allowed stays so. */
  predicate Looser(a: Option<FieldSpec>, b: Option<FieldSpec>) {
    a == b || (a.Some? && b.Some? && (b.value.OptionalWildcard? || (a.value.Literal? && b.value.MandatoryWildcard?)))
  }

  ghost predicate Relaxes(a: Template, b: Template) {
    (forall spec :: spec in a.keyTypes ==> spec in b.keyTypes)
    && (forall t: AttrType :: Looser(a.subject.Spec(t), b.subject.Spec(t)))
    && (a.extensions.san == b.extensions.san
        || (a.extensions.san == Some(SanRequired) && b.extensions.san == Some(SanOptional)))
    && SameUsages(a.extensions.keyUsage, b.extensions.keyUsage)
    && Wider(a.extensions.extendedKeyUsage, b.extensions.extendedKeyUsage)
  }

  ghost predicate SameUsages(a: Option<seq<string>>, b: Option<seq<string>>) {
    a.Some? == b.Some? && (a.Some? ==> CanonicalSet(a.value) == CanonicalSet(b.value))
  }

  predicate Wider(a: Option<seq<string>>, b: Option<seq<string>>) {
    a.Some? == b.Some? && (a.Some? ==> forall o :: o in a.value ==> o in b.value)
  }

  /**
   Loosening a template (a key type added, a literal turned into a mandatory
   and that into an optional wildcard, a required name made optional, a usage
   permitted in addition) turns no accepted request into a rejected one.
   */
  lemma RelaxingKeepsAccepted(a: Template, b: Template, r: Request)
    requires Relaxes(a, b) && Accepts(a, r)
    ensures Accepts(b, r)
  {
    var spec :| spec in a.keyTypes && KeyTypeMatches(spec, r);
    assert spec in b.keyTypes;
    RelaxedSubject(a.subject, b.subject, r.attrs);
    RelaxedExtensions(a.extensions, b.extensions, r.exts);
  }

  lemma RelaxedSubject(a: DnTemplate, b: DnTemplate, attrs: seq<Attr>)
    requires forall t: AttrType :: Looser(a.Spec(t), b.Spec(t))
    requires SubjectOk(attrs, a)
    ensures SubjectOk(attrs, b)
  {
    assert forall t: AttrType :: Looser(a.Spec(t), b.Spec(t)) ==> (a.Spec(t).None? <==> b.Spec(t).None?);
    SameShape(a, b);
    if !a.Unconstrained() {
      forall t | t in DN_OID_MAP ensures FieldOk(attrs, t, b.Spec(t)) {
        assert Looser(a.Spec(t), b.Spec(t)) && FieldOk(attrs, t, a.Spec(t));
      }
    }
  }

  lemma SameShape(a: DnTemplate, b: DnTemplate)
    requires forall t: AttrType :: a.Spec(t).None? <==> b.Spec(t).None?
    ensures a.Unconstrained() <==> b.Unconstrained()
  {
    assert a.Spec(CommonName).None? == b.Spec(CommonName).None? && a.Spec(Country).None? == b.Spec(Country).None?;
    assert a.Spec(Organization).None? == b.Spec(Organization).None?;
    assert a.Spec(OrganizationalUnit).None? == b.Spec(OrganizationalUnit).None?;
    assert a.Spec(Locality).None? == b.Spec(Locality).None?;
    assert a.Spec(StateOrProvince).None? == b.Spec(StateOrProvince).None?;
    assert a.Spec(EmailAddress).None? == b.Spec(EmailAddress).None?;
  }

  /**
   Allowing one more subject field keeps what was accepted exactly when the
   subject was already constrained: the first field named forbids all the rest.
   */
  lemma AllowingField(a: DnTemplate, b: DnTemplate, t: AttrType)
    requires t in DN_OID_MAP && a.Spec(t).None? && b.Spec(t) == Some(OptionalWildcard)
    requires forall u: AttrType :: u != t ==> a.Spec(u) == b.Spec(u)
    ensures (forall attrs :: SubjectOk(attrs, a) ==> SubjectOk(attrs, b)) <==> !a.Unconstrained()
  {
    assert !b.Unconstrained();
    if a.Unconstrained() {
      var serial := [Attr(Unknown("2.5.4.5"), "1")];
      assert serial[0].kind.Unknown?;
      assert SubjectOk(serial, a) && !SubjectOk(serial, b);
    } else {
      forall attrs | SubjectOk(attrs, a) ensures SubjectOk(attrs, b) {
        forall u | u in DN_OID_MAP ensures FieldOk(attrs, u, b.Spec(u)) {
          assert FieldOk(attrs, u, a.Spec(u));
        }
      }
    }
  }

  lemma RelaxedExtensions(a: ExtensionsTemplate, b: ExtensionsTemplate, exts: seq<Ext>)
    requires a.san == b.san || (a.san == Some(SanRequired) && b.san == Some(SanOptional))
    requires SameUsages(a.keyUsage, b.keyUsage)
    requires Wider(a.extendedKeyUsage, b.extendedKeyUsage)
    requires ExtensionsOk(exts, a)
    ensures ExtensionsOk(exts, b)
  {
    if !a.Unconstrained() {
      assert forall i :: 0 <= i < |exts| ==> b.Allows(exts[i].oid);
    }
  }
}

/**
 The journal datagram of src/journal.rs: `send` prints fields, the built-in
 daemon parses them with `parse_journal_datagram` out of a 65536-octet buffer.
 */
module JournalDatagram {
  import opened Common
  import opened Octets
  import opened Utf8
  import opened Lists

  const NL: byte := 0x0A
  const EQ: byte := 0x3D
  const RECV_BUFFER: nat := 65536

  datatype Field = Field(key: Bytes, value: Bytes) {
    /** Both parts are text, and the value length fits the `u64` it is printed as. */
    ghost predicate Sent() {
      Valid(key) && Valid(value) && |value| < Pow256(8)
    }

    predicate CleanKey() { EQ !in key && NL !in key }
  }

  ghost predicate AllSent(fs: seq<Field>) { forall f :: f in fs ==> f.Sent() }

  ghost predicate AllClean(fs: seq<Field>) { forall f :: f in fs ==> f.CleanKey() }

  /** The separators, and the octets of a length before a binary value: least significant first. */
  lemma WireFormat(n: nat, i: nat)
    requires i < 8
    ensures NL == '\n' as int && EQ == '=' as int
    ensures |LeBytes(n, 8)| == 8 && LeBytes(n, 8)[i] == (n / Pow256(i)) % 256
  {
    LeByteAt(n, 8, i);
  }

  // --------------------------------------------------------------- printer

  function FieldBytes(f: Field): Bytes {
    if NL in f.value
    then f.key + [NL] + LeBytes(|f.value|, 8) + f.value + [NL]
    else f.key + [EQ] + f.value + [NL]
  }

  function Datagram(fs: seq<Field>): Bytes { Concat(Map(fs, FieldBytes)) }

  lemma DatagramSplit(fs: seq<Field>, j: nat)
    requires j <= |fs|
    ensures Datagram(fs) == Datagram(fs[..j]) + Datagram(fs[j..])
  {
    var parts := Map(fs, FieldBytes);
    ConcatSplit(parts, j);
    assert Map(fs[..j], FieldBytes) == parts[..j] && Map(fs[j..], FieldBytes) == parts[j..];
  }

  lemma DatagramOne(f: Field)
    ensures Datagram([f]) == FieldBytes(f)
  {
    var bytes := FieldBytes(f);
    assert Map([f], FieldBytes) == [bytes];
    ConcatOne(bytes);
  }

  lemma DatagramFirst(fs: seq<Field>)
    requires fs != []
    ensures Datagram(fs) == FieldBytes(fs[0]) + Datagram(fs[1..])
  {
    DatagramSplit(fs, 1);
    assert fs[..1] == [fs[0]];
    DatagramOne(fs[0]);
  }

  /** The buffer `send` fills. */
  method Print(fs: seq<Field>) returns (buf: Bytes)
    ensures buf == Datagram(fs)
  {
    buf := [];
    for i := 0 to |fs|
      invariant buf == Datagram(fs[..i])
    {
      PrefixGrows(fs, i);
      buf := PrintField(buf, fs[i]);
    }
    assert fs[..|fs|] == fs;
  }

  /** One turn of the loop in `send`. */
  method PrintField(before: Bytes, f: Field) returns (buf: Bytes)
    ensures buf == before + FieldBytes(f)
  {
    buf := before + f.key;
    if NL in f.value {
      var len := LeBytes(|f.value|, 8);
      buf := buf + [NL];
      buf := buf + len;
      buf := buf + f.value;
      buf := buf + [NL];
      assert buf == before + (f.key + [NL] + len + f.value + [NL]);
    } else {
      buf := buf + [EQ];
      buf := buf + f.value;
      buf := buf + [NL];
    }
  }

  lemma PrefixGrows(fs: seq<Field>, i: nat)
    requires i < |fs|
    ensures Datagram(fs[..i + 1]) == Datagram(fs[..i]) + FieldBytes(fs[i])
  {
    var prefix := fs[..i + 1];
    DatagramSplit(prefix, i);
    assert prefix[..i] == fs[..i] && prefix[i..] == [fs[i]];
    DatagramOne(fs[i]);
  }

  // ---------------------------------------------------------------- parser

  /** Index of the first octet equal to `a` or `b`, or the length. */
  function FirstOf(d: Bytes, a: byte, b: byte): (i: nat)
    ensures i <= |d|
    ensures a !in d[..i] && b !in d[..i]
    ensures i < |d| ==> d[i] == a || d[i] == b
  {
    if d == [] || d[0] == a || d[0] == b then 0
    else
      var i := 1 + FirstOf(d[1..], a, b);
      assert d[..i] == [d[0]] + d[1..][..i - 1];
      i
  }

  /** Where one field lies: the key ends, the value runs, the next field starts. */
  datatype Round = Stop | Took(keyEnd: nat, valStart: nat, valEnd: nat, next: nat)

  function ParseRound(d: Bytes): (r: Round)
    ensures r.Took? ==> r.keyEnd < r.valStart <= r.valEnd <= |d| && r.valEnd <= r.next
  {
    var keyEnd := FirstOf(d, EQ, NL);
    if keyEnd >= |d| then Stop
    else if d[keyEnd] == EQ then
      var valEnd := keyEnd + 1 + FirstOf(d[keyEnd + 1..], NL, NL);
      Took(keyEnd, keyEnd + 1, valEnd, valEnd + 1)
    else BinaryRound(d, keyEnd)
  }

  /** A key followed by a newline, the value's length in eight octets, and the value. */
  function BinaryRound(d: Bytes, keyEnd: nat): (r: Round)
    ensures r.Took? ==> r.keyEnd < r.valStart <= r.valEnd <= |d| && r.valEnd <= r.next
  {
    if keyEnd + 9 > |d| then Stop
    else
      var valEnd := keyEnd + 9 + LeNat(d[keyEnd + 1..keyEnd + 9]);
      if valEnd > |d| then Stop
      else Took(keyEnd, keyEnd + 9, valEnd,
                if valEnd < |d| && d[valEnd] == NL then valEnd + 1 else valEnd)
  }

  /** A round found in a tail, as positions in the whole. */
  function Shift(r: Round, pos: nat): Round {
    match r
    case Stop => Stop
    case Took(ke, vs, ve, next) => Took(pos + ke, pos + vs, pos + ve, pos + next)
  }

  function Drop(d: Bytes, n: nat): Bytes { if n <= |d| then d[n..] else [] }

  function Parse(d: Bytes, m: map<Bytes, Bytes>): map<Bytes, Bytes>
    decreases |d|
  {
    match ParseRound(d)
    case Stop => m
    case Took(ke, vs, ve, next) => Parse(Drop(d, next), m[Lossy(d[..ke]) := Lossy(d[vs..ve])])
  }

  /** One turn of the loop in `parse_journal_datagram`, on positions in the datagram. */
  method ScanField(data: Bytes, pos: nat) returns (r: Round)
    requires pos < |data|
    ensures r == Shift(ParseRound(data[pos..]), pos)
  {
    var keyEnd := pos + FirstOf(data[pos..], EQ, NL);
    if keyEnd >= |data| {
      return Stop;
    }
    if data[keyEnd] == EQ {
      var valStart := keyEnd + 1;
      var valEnd := valStart + FirstOf(data[valStart..], NL, NL);
      SliceOfTail(data, pos, valStart, |data|);
      return Took(keyEnd, valStart, valEnd, valEnd + 1);
    }
    r := ScanBinary(data, pos, keyEnd);
  }

  method ScanBinary(data: Bytes, pos: nat, keyEnd: nat) returns (r: Round)
    requires pos <= keyEnd < |data|
    ensures r == Shift(BinaryRound(data[pos..], keyEnd - pos), pos)
  {
    var lenStart := keyEnd + 1;
    if lenStart + 8 > |data| {
      return Stop;
    }
    var valStart := lenStart + 8;
    SliceOfTail(data, pos, lenStart, lenStart + 8);
    var valEnd := valStart + LeNat(data[lenStart..lenStart + 8]);
    if valEnd > |data| {
      return Stop;
    }
    return Took(keyEnd, valStart, valEnd,
                if valEnd < |data| && data[valEnd] == NL then valEnd + 1 else valEnd);
  }

  lemma ParseStep(d: Bytes, key: Bytes, value: Bytes, rest: Bytes, m: map<Bytes, Bytes>)
    requires ParseRound(d).Took?
    requires var r := ParseRound(d);
      d[..r.keyEnd] == key && d[r.valStart..r.valEnd] == value && Drop(d, r.next) == rest
    ensures Parse(d, m) == Parse(rest, m[Lossy(key) := Lossy(value)])
  {
  }

  lemma ParseAt(data: Bytes, pos: nat, r: Round, m: map<Bytes, Bytes>)
    requires pos < |data| && r.Took? && pos <= r.keyEnd <= r.valStart <= r.valEnd <= |data|
    requires r.valEnd <= r.next
    requires ParseRound(data[pos..])
          == Took(r.keyEnd - pos, r.valStart - pos, r.valEnd - pos, r.next - pos)
    ensures Parse(Drop(data, pos), m)
         == Parse(Drop(data, r.next), m[Lossy(data[pos..r.keyEnd]) := Lossy(data[r.valStart..r.valEnd])])
  {
    SlicesAt(data, pos, r);
    ParseStep(data[pos..], data[pos..r.keyEnd], data[r.valStart..r.valEnd], Drop(data, r.next), m);
  }

  lemma SlicesAt(data: Bytes, pos: nat, r: Round)
    requires pos < |data| && r.Took? && pos <= r.keyEnd <= r.valStart <= r.valEnd <= |data|
    requires r.valEnd <= r.next
    ensures data[pos..][..r.keyEnd - pos] == data[pos..r.keyEnd]
    ensures data[pos..][r.valStart - pos..r.valEnd - pos] == data[r.valStart..r.valEnd]
    ensures Drop(data[pos..], r.next - pos) == Drop(data, r.next)
  {
    SliceOfTail(data, pos, pos, r.keyEnd);
    SliceOfTail(data, pos, r.valStart, r.valEnd);
    if r.next <= |data| {
      SliceOfTail(data, pos, r.next, |data|);
    }
  }

  /** `parse_journal_datagram`: total and in bounds on every octet string. */
  method ParseJournalDatagram(data: Bytes) returns (fields: map<Bytes, Bytes>)
    ensures fields == Parse(data, map[])
  {
    fields := map[];
    var pos := 0;
    while pos < |data|
      invariant Parse(Drop(data, pos), fields) == Parse(data, map[])
      decreases |data| - pos
    {
      var r := ScanField(data, pos);
      if r.Stop? {
        break;
      }
      ParseAt(data, pos, r, fields);
      fields := fields[Lossy(data[pos..r.keyEnd]) := Lossy(data[r.valStart..r.valEnd])];
      pos := r.next;
    }
  }

  // ------------------------------------------------------------ round trip

  /** The meaning of a field list: later fields replace earlier ones. */
  ghost function LastWins(fs: seq<Field>): map<Bytes, Bytes> {
    if fs == [] then map[] else LastWins(fs[..|fs| - 1])[fs[|fs| - 1].key := fs[|fs| - 1].value]
  }

  lemma {:induction false} FirstOfAppend(s: Bytes, c: byte, rest: Bytes, a: byte, b: byte)
    requires a !in s && b !in s && (c == a || c == b)
    ensures FirstOf(s + [c] + rest, a, b) == |s|
  {
    if s != [] {
      FirstOfAppend(s[1..], c, rest, a, b);
      assert (s + [c] + rest)[1..] == s[1..] + [c] + rest;
    }
  }

  lemma FirstOfNone(d: Bytes, a: byte, b: byte)
    requires a !in d && b !in d
    ensures FirstOf(d, a, b) == |d|
  {
  }

  lemma RoundPlain(key: Bytes, value: Bytes, rest: Bytes)
    requires EQ !in key && NL !in key && NL !in value
    ensures var d := key + [EQ] + value + [NL] + rest;
      ParseRound(d) == Took(|key|, |key| + 1, |key| + 1 + |value|, |key| + |value| + 2)
  {
    var d := key + [EQ] + value + [NL] + rest;
    assert d == key + [EQ] + (value + [NL] + rest);
    FirstOfAppend(key, EQ, value + [NL] + rest, EQ, NL);
    assert d[|key| + 1..] == value + [NL] + rest;
    FirstOfAppend(value, NL, rest, NL, NL);
  }

  lemma RoundBinary(key: Bytes, len: Bytes, value: Bytes, rest: Bytes)
    requires EQ !in key && NL !in key && |len| == 8 && LeNat(len) == |value|
    ensures var d := key + [NL] + len + value + [NL] + rest;
      ParseRound(d) == Took(|key|, |key| + 9, |key| + 9 + |value|, |key| + |value| + 10)
  {
    BinaryParts(key, len, value, rest);
    FirstOfAppend(key, NL, len + value + [NL] + rest, EQ, NL);
  }

  lemma BinaryParts(key: Bytes, len: Bytes, value: Bytes, rest: Bytes)
    requires |len| == 8
    ensures var d := key + [NL] + len + value + [NL] + rest;
      d == key + [NL] + (len + value + [NL] + rest)
      && d[|key|] == NL && d[|key| + 1..|key| + 9] == len && d[|key| + 9 + |value|] == NL
  {
  }

  lemma ParseTook(d: Bytes, key: Bytes, value: Bytes, rest: Bytes, m: map<Bytes, Bytes>)
    requires Valid(key) && Valid(value)
    requires ParseRound(d).Took?
    requires var r := ParseRound(d);
      d[..r.keyEnd] == key && d[r.valStart..r.valEnd] == value && Drop(d, r.next) == rest
    ensures Parse(d, m) == Parse(rest, m[key := value])
  {
    LossyOfText(key);
    LossyOfText(value);
    ParseStep(d, key, value, rest, m);
  }

  lemma ParsePlain(key: Bytes, value: Bytes, rest: Bytes, m: map<Bytes, Bytes>)
    requires EQ !in key && NL !in key && NL !in value && Valid(key) && Valid(value)
    ensures Parse(key + [EQ] + value + [NL] + rest, m) == Parse(rest, m[key := value])
  {
    var d, k := key + [EQ] + value + [NL] + rest, |key|;
    RoundPlain(key, value, rest);
    assert d[..k] == key && d[k + 1..k + 1 + |value|] == value;
    assert Drop(d, k + |value| + 2) == rest;
    ParseTook(d, key, value, rest, m);
  }

  lemma ParseBinary(key: Bytes, len: Bytes, value: Bytes, rest: Bytes, m: map<Bytes, Bytes>)
    requires EQ !in key && NL !in key && Valid(key) && Valid(value)
    requires |len| == 8 && LeNat(len) == |value|
    ensures Parse(key + [NL] + len + value + [NL] + rest, m) == Parse(rest, m[key := value])
  {
    var d, k := key + [NL] + len + value + [NL] + rest, |key|;
    RoundBinary(key, len, value, rest);
    assert d[..k] == key && d[k + 9..k + 9 + |value|] == value;
    assert Drop(d, k + |value| + 10) == rest;
    ParseTook(d, key, value, rest, m);
  }

  /** One printed field is consumed whole, whatever follows. */
  lemma ParseOfField(f: Field, rest: Bytes, m: map<Bytes, Bytes>)
    requires f.Sent() && f.CleanKey()
    ensures Parse(FieldBytes(f) + rest, m) == Parse(rest, m[f.key := f.value])
  {
    if NL in f.value {
      LeRoundTrip(|f.value|, 8);
      ParseBinary(f.key, LeBytes(|f.value|, 8), f.value, rest, m);
    } else {
      ParsePlain(f.key, f.value, rest, m);
    }
  }

  /** Fields in front of any octets are taken in order. */
  lemma {:induction false} ParseOfFields(fs: seq<Field>, rest: Bytes)
    requires AllSent(fs) && AllClean(fs)
    ensures Parse(Datagram(fs) + rest, map[]) == Parse(rest, LastWins(fs))
  {
    if fs == [] {
      assert Datagram(fs) + rest == rest;
    } else {
      var init, last := fs[..|fs| - 1], fs[|fs| - 1];
      assert fs[..|fs|] == fs;
      PrefixGrows(fs, |fs| - 1);
      assert Datagram(fs) + rest == Datagram(init) + (FieldBytes(last) + rest);
      ParseOfFields(init, FieldBytes(last) + rest);
      ParseOfField(last, rest, LastWins(init));
    }
  }

  lemma {:induction false} ParsedKeysClean(d: Bytes, m: map<Bytes, Bytes>)
    ensures forall k :: k in Parse(d, m) ==> k in m || (EQ !in k && NL !in k)
    decreases |d|
  {
    var r := ParseRound(d);
    if r.Took? {
      LossyKeepsFree(d[..r.keyEnd], EQ);
      LossyKeepsFree(d[..r.keyEnd], NL);
      ParsedKeysClean(Drop(d, r.next), m[Lossy(d[..r.keyEnd]) := Lossy(d[r.valStart..r.valEnd])]);
    }
  }

  lemma {:induction false} LastWinsKeys(fs: seq<Field>, f: Field)
    requires f in fs
    ensures f.key in LastWins(fs)
  {
    if f != fs[|fs| - 1] {
      LastWinsKeys(fs[..|fs| - 1], f);
    }
  }

  /**
   Parsing what was printed returns the fields, the last value of each key,
   exactly when no key holds '=' or a newline.
   */
  lemma DatagramRoundTrip(fs: seq<Field>)
    requires AllSent(fs)
    ensures Parse(Datagram(fs), map[]) == LastWins(fs) <==> AllClean(fs)
  {
    if AllClean(fs) {
      ParseOfFields(fs, []);
      assert Datagram(fs) + [] == Datagram(fs);
    }
    if Parse(Datagram(fs), map[]) == LastWins(fs) {
      ParsedKeysClean(Datagram(fs), map[]);
      forall f | f in fs ensures f.CleanKey() {
        LastWinsKeys(fs, f);
      }
    }
  }

  // ------------------------------------------------------------------ cuts

  /** How many fields lie whole within the first `c` octets. */
  ghost function WholeFields(fs: seq<Field>, c: nat): (j: nat)
    ensures j <= |fs|
  {
    if fs == [] || |FieldBytes(fs[0])| > c then 0
    else 1 + WholeFields(fs[1..], c - |FieldBytes(fs[0])|)
  }

  /** Field `j` is the first that does not lie whole within `c` octets. */
  ghost predicate CutWithin(fs: seq<Field>, c: nat, j: nat) {
    j <= |fs| && |Datagram(fs[..j])| <= c
    && (j < |fs| ==> c - |Datagram(fs[..j])| < |FieldBytes(fs[j])|)
  }

  lemma CutWithinStep(fs: seq<Field>, n: nat, c: nat, j: nat)
    requires fs != [] && n == |FieldBytes(fs[0])| && CutWithin(fs[1..], c, j)
    ensures CutWithin(fs, n + c, j + 1)
  {
    DatagramFirst(fs[..j + 1]);
    assert fs[..j + 1][1..] == fs[1..][..j];
  }

  lemma {:induction false} WholeFieldsBounds(fs: seq<Field>, c: nat)
    ensures CutWithin(fs, c, WholeFields(fs, c))
  {
    if fs != [] && |FieldBytes(fs[0])| <= c {
      var n := |FieldBytes(fs[0])|;
      WholeFieldsBounds(fs[1..], c - n);
      CutWithinStep(fs, n, c - n, WholeFields(fs[1..], c - n));
    }
  }

  /** What the parser makes of the first `r` octets of a field, if anything. */
  ghost function CutField(f: Field, r: nat): Option<Bytes>
    requires r < |FieldBytes(f)|
  {
    if NL in f.value
    then if r == |FieldBytes(f)| - 1 then Some(f.value) else None
    else if |f.key| < r then Some(Lossy(f.value[..r - |f.key| - 1])) else None
  }

  lemma CutPlain(key: Bytes, value: Bytes, m: map<Bytes, Bytes>)
    requires EQ !in key && NL !in key && NL !in value && Valid(key)
    ensures Parse(key + [EQ] + value, m) == m[key := Lossy(value)]
  {
    var d, k := key + [EQ] + value, |key|;
    RoundCutPlain(key, value);
    assert d[..k] == key && d[k + 1..|d|] == value;
    LossyOfText(key);
    ParseStep(d, key, value, [], m);
    ParseEmpty(m[key := Lossy(value)]);
  }

  lemma RoundCutPlain(key: Bytes, value: Bytes)
    requires EQ !in key && NL !in key && NL !in value
    ensures var d := key + [EQ] + value;
      ParseRound(d) == Took(|key|, |key| + 1, |d|, |d| + 1)
  {
    var d := key + [EQ] + value;
    FirstOfAppend(key, EQ, value, EQ, NL);
    assert d[|key| + 1..] == value;
    FirstOfNone(value, NL, NL);
  }

  lemma ParseEmpty(m: map<Bytes, Bytes>)
    ensures Parse([], m) == m
  {
  }

  /** A binary field without its last newline: taken if the value is whole. */
  lemma CutBinary(key: Bytes, len: Bytes, value: Bytes, n: nat, m: map<Bytes, Bytes>)
    requires EQ !in key && NL !in key && |len| == 8 && LeNat(len) == n && |value| <= n
    requires Valid(key) && (|value| == n ==> Valid(value))
    ensures Parse(key + [NL] + len + value, m) == if |value| == n then m[key := value] else m
  {
    var d, k := key + [NL] + len + value, |key|;
    RoundCutBinary(key, len, value, n);
    if |value| == n {
      assert d[..k] == key && d[k + 9..|d|] == value;
      ParseTook(d, key, value, [], m);
      ParseEmpty(m[key := value]);
    }
  }

  lemma RoundCutBinary(key: Bytes, len: Bytes, value: Bytes, n: nat)
    requires EQ !in key && NL !in key && |len| == 8 && LeNat(len) == n && |value| <= n
    ensures var d := key + [NL] + len + value;
      ParseRound(d) == if |value| == n then Took(|key|, |key| + 9, |d|, |d|) else Stop
  {
    var d, k := key + [NL] + len + value, |key|;
    assert d == key + [NL] + (len + value);
    FirstOfAppend(key, NL, len + value, EQ, NL);
    assert d[k + 1..k + 9] == len;
  }

  lemma CutBinaryLength(key: Bytes, len: Bytes, m: map<Bytes, Bytes>)
    requires EQ !in key && NL !in key && |len| < 8
    ensures Parse(key + [NL] + len, m) == m
  {
    FirstOfAppend(key, NL, len, EQ, NL);
  }

  lemma CutKey(key: Bytes, m: map<Bytes, Bytes>)
    requires EQ !in key && NL !in key
    ensures Parse(key, m) == m
  {
    FirstOfNone(key, EQ, NL);
  }

  lemma ParseOfCutBinary(f: Field, r: nat, m: map<Bytes, Bytes>)
    requires f.Sent() && f.CleanKey() && NL in f.value && |f.key| < r < |FieldBytes(f)|
    ensures Parse(FieldBytes(f)[..r], m)
         == if r == |FieldBytes(f)| - 1 then m[f.key := f.value] else m
  {
    var k, n := |f.key|, |f.value|;
    var len := LeBytes(n, 8);
    LeRoundTrip(n, 8);
    if r < k + 9 {
      assert FieldBytes(f)[..r] == f.key + [NL] + len[..r - k - 1];
      CutBinaryLength(f.key, len[..r - k - 1], m);
    } else {
      var v := f.value[..r - k - 9];
      assert FieldBytes(f)[..r] == f.key + [NL] + len + v;
      assert |v| == n ==> v == f.value;
      CutBinary(f.key, len, v, n, m);
    }
  }

  lemma ParseOfCutField(f: Field, r: nat, m: map<Bytes, Bytes>)
    requires f.Sent() && f.CleanKey() && r < |FieldBytes(f)|
    ensures Parse(FieldBytes(f)[..r], m) == match CutField(f, r)
      case None => m
      case Some(v) => m[f.key := v]
  {
    var k := |f.key|;
    if r <= k {
      assert FieldBytes(f)[..r] == f.key[..r];
      CutKey(f.key[..r], m);
    } else if NL in f.value {
      ParseOfCutBinary(f, r, m);
    } else {
      var v := f.value[..r - k - 1];
      assert FieldBytes(f)[..r] == f.key + [EQ] + v;
      CutPlain(f.key, v, m);
    }
  }

  /** The fields known after `j` whole fields and `r` octets of the next. */
  ghost function CutMeaningAt(fs: seq<Field>, j: nat, r: nat): map<Bytes, Bytes>
    requires j <= |fs| && (j < |fs| ==> r < |FieldBytes(fs[j])|)
  {
    var m := LastWins(fs[..j]);
    if j == |fs| then m
    else match CutField(fs[j], r)
      case None => m
      case Some(v) => m[fs[j].key := v]
  }

  /** The fields known after the first `c` octets of the datagram. */
  ghost function CutMeaning(fs: seq<Field>, c: nat): map<Bytes, Bytes> {
    WholeFieldsBounds(fs, c);
    var j := WholeFields(fs, c);
    CutMeaningAt(fs, j, c - |Datagram(fs[..j])|)
  }

  lemma CutAt(fs: seq<Field>, j: nat, r: nat, d: Bytes)
    requires AllSent(fs) && AllClean(fs)
    requires j < |fs| && r < |FieldBytes(fs[j])|
    requires d == Datagram(fs[..j]) + FieldBytes(fs[j])[..r]
    ensures Parse(d, map[]) == CutMeaningAt(fs, j, r)
  {
    ParseOfFields(fs[..j], FieldBytes(fs[j])[..r]);
    ParseOfCutField(fs[j], r, LastWins(fs[..j]));
  }

  /**
   A datagram cut after any number of octets yields every field that arrived
   whole, then at most the one field the cut went through, under its own key.
   */
  lemma CutDatagram(fs: seq<Field>, c: nat)
    requires AllSent(fs) && AllClean(fs)
    requires c <= |Datagram(fs)|
    ensures Parse(Datagram(fs)[..c], map[]) == CutMeaning(fs, c)
  {
    WholeFieldsBounds(fs, c);
    var j := WholeFields(fs, c);
    if j == |fs| {
      assert fs[..j] == fs && Datagram(fs)[..c] == Datagram(fs);
      DatagramRoundTrip(fs);
    } else {
      CutInside(fs, j, c - |Datagram(fs[..j])|, Datagram(fs), c);
    }
  }

  lemma CutInside(fs: seq<Field>, j: nat, r: nat, d: Bytes, c: nat)
    requires AllSent(fs) && AllClean(fs)
    requires j < |fs| && r < |FieldBytes(fs[j])|
    requires d == Datagram(fs) && c == |Datagram(fs[..j])| + r <= |d|
    ensures Parse(d[..c], map[]) == CutMeaningAt(fs, j, r)
  {
    assert d[..c] == Datagram(fs[..j]) + FieldBytes(fs[j])[..r] by {
      CutPoint(fs, j, r);
    }
    CutAt(fs, j, r, d[..c]);
  }

  /** Cutting the datagram inside field `j` cuts that field. */
  lemma CutPoint(fs: seq<Field>, j: nat, r: nat)
    requires j < |fs| && r < |FieldBytes(fs[j])|
    ensures |Datagram(fs[..j])| + r <= |Datagram(fs)|
    ensures Datagram(fs)[..|Datagram(fs[..j])| + r] == Datagram(fs[..j]) + FieldBytes(fs[j])[..r]
  {
    var whole, field, rest := Datagram(fs[..j]), FieldBytes(fs[j]), Datagram(fs[j..][1..]);
    DatagramSplit(fs, j);
    DatagramFirst(fs[j..]);
    assert Datagram(fs) == whole + (field + rest);
    CutConcat(whole, field, rest, r);
  }

  lemma CutConcat(a: Bytes, b: Bytes, c: Bytes, r: nat)
    requires r <= |b|
    ensures (a + (b + c))[..|a| + r] == a + b[..r]
  {
  }

  ghost predicate DistinctKeys(fs: seq<Field>) {
    forall i, j :: 0 <= i < j < |fs| ==> fs[i].key != fs[j].key
  }

  lemma {:induction false} LastWinsDistinct(fs: seq<Field>, i: nat)
    requires DistinctKeys(fs) && i < |fs|
    ensures fs[i].key in LastWins(fs) && LastWins(fs)[fs[i].key] == fs[i].value
  {
    if i < |fs| - 1 {
      LastWinsDistinct(fs[..|fs| - 1], i);
    }
  }

  lemma {:induction false} LastWinsOnly(fs: seq<Field>, k: Bytes)
    requires k in LastWins(fs)
    ensures exists f :: f in fs && f.key == k
  {
    if k in LastWins(fs[..|fs| - 1]) {
      LastWinsOnly(fs[..|fs| - 1], k);
    } else {
      assert fs[|fs| - 1].key == k;
    }
  }

  /** Whether the first `r` octets of a field make it appear, and how many octets of its value they hold. */
  predicate Appears(f: Field, r: nat) {
    if NL in f.value then r == |FieldBytes(f)| - 1 else |f.key| < r
  }

  function ValueOctets(f: Field, r: nat): nat
    requires Appears(f, r)
  {
    if NL in f.value then |f.value| else r - |f.key| - 1
  }

  lemma CutFieldIs(f: Field, r: nat)
    requires f.Sent() && r < |FieldBytes(f)|
    ensures CutField(f, r).Some? <==> Appears(f, r)
    ensures Appears(f, r) ==>
      ValueOctets(f, r) <= |f.value| && CutField(f, r) == Some(Lossy(f.value[..ValueOctets(f, r)]))
  {
    if NL in f.value {
      assert f.value[..|f.value|] == f.value;
      LossyOfText(f.value);
    }
  }

  /** How many octets of a datagram the daemon's buffer holds. */
  function Received(data: Bytes): Bytes {
    if |data| <= RECV_BUFFER then data else data[..RECV_BUFFER]
  }

  /**
   `got` is `sent` cut after `p` octets: its whole characters within them, and
   a replacement character exactly when the cut went through a character. It
   is a prefix of what was sent unless that character was another.
   */
  ghost predicate CutShort(got: Bytes, sent: Bytes, p: nat) {
    p <= |sent|
    && var q := Boundary(sent, p);
       CutText(got, sent, p, q)
       && (got <= sent <==> q == p || (q + 3 <= |sent| && sent[q..q + 3] == REPLACEMENT))
  }

  /** What `got` holds when `j` fields arrived whole, and `r` octets of the next. */
  ghost predicate WholeThenCut(got: map<Bytes, Bytes>, fs: seq<Field>, j: nat, r: nat, key: Bytes)
    requires j <= |fs|
  {
    (forall i :: 0 <= i < j ==> fs[i].key in got && got[fs[i].key] == fs[i].value)
    && ((forall i :: 0 <= i < j ==> fs[i].key != key) ==>
          (key in got <==> j < |fs| && key == fs[j].key && Appears(fs[j], r))
          && (key in got ==> CutShort(got[key], fs[j].value, ValueOctets(fs[j], r))))
  }

  lemma CutMeaningDistinct(fs: seq<Field>, j: nat, r: nat, key: Bytes)
    requires AllSent(fs) && DistinctKeys(fs)
    requires j <= |fs| && (j < |fs| ==> r < |FieldBytes(fs[j])|)
    ensures WholeThenCut(CutMeaningAt(fs, j, r), fs, j, r, key)
  {
    var m := LastWins(fs[..j]);
    WholeDistinct(fs, j, m, key);
    if j < |fs| {
      CutFieldIs(fs[j], r);
      if Appears(fs[j], r) {
        LossyOfCut(fs[j].value, ValueOctets(fs[j], r));
        CutIsPrefix(fs[j].value, ValueOctets(fs[j], r));
      }
    }
  }

  lemma WholeDistinct(fs: seq<Field>, j: nat, m: map<Bytes, Bytes>, key: Bytes)
    requires DistinctKeys(fs) && j <= |fs| && m == LastWins(fs[..j])
    ensures forall i :: 0 <= i < j ==> fs[i].key in m && m[fs[i].key] == fs[i].value
    ensures key in m ==> exists i :: 0 <= i < j && fs[i].key == key
  {
    forall i | 0 <= i < j ensures fs[i].key in m && m[fs[i].key] == fs[i].value {
      LastWinsDistinct(fs[..j], i);
    }
    if key in m {
      LastWinsOnly(fs[..j], key);
    }
  }

  /**
   What the daemon stores, keys being distinct: each whole field as sent, and
   besides those at most one more, the next key if its separator arrived, with
   what the octets that arrived make of its value.
   */
  lemma ReceivedFields(fs: seq<Field>, key: Bytes)
    requires AllSent(fs) && AllClean(fs) && DistinctKeys(fs)
    ensures var data := Datagram(fs);
      var c := |Received(data)|;
      var j := WholeFields(fs, c);
      c == (if |data| <= 65536 then |data| else 65536)
      && |Datagram(fs[..j])| <= c
      && WholeThenCut(Parse(Received(data), map[]), fs, j, c - |Datagram(fs[..j])|, key)
  {
    var data := Datagram(fs);
    var c := |Received(data)|;
    ReceivedMeaning(fs, data, c);
    MeaningDistinct(fs, c, key);
  }

  lemma ReceivedMeaning(fs: seq<Field>, data: Bytes, c: nat)
    requires AllSent(fs) && AllClean(fs) && data == Datagram(fs) && c == |Received(data)|
    ensures Parse(Received(data), map[]) == CutMeaning(fs, c)
  {
    assert Received(data) == data[..c];
    CutDatagram(fs, c);
  }

  lemma MeaningDistinct(fs: seq<Field>, c: nat, key: Bytes)
    requires AllSent(fs) && DistinctKeys(fs)
    ensures var j := WholeFields(fs, c);
      |Datagram(fs[..j])| <= c
      && WholeThenCut(CutMeaning(fs, c), fs, j, c - |Datagram(fs[..j])|, key)
  {
    WholeFieldsBounds(fs, c);
    var j := WholeFields(fs, c);
    CutMeaningDistinct(fs, j, c - |Datagram(fs[..j])|, key);
  }

  // ----------------------------------------------------------------- text

  ghost predicate AllText(m: map<Bytes, Bytes>) { forall k :: k in m ==> Valid(k) && Valid(m[k]) }

  /** Whatever octets arrive, every key and value handed on is text. */
  lemma {:induction false} ParsedIsText(d: Bytes, m: map<Bytes, Bytes>)
    requires AllText(m)
    ensures AllText(Parse(d, m))
    decreases |d|
  {
    var r := ParseRound(d);
    if r.Took? {
      var key, value := d[..r.keyEnd], d[r.valStart..r.valEnd];
      LossyIsText(key);
      LossyIsText(value);
      ParsedIsText(Drop(d, r.next), m[Lossy(key) := Lossy(value)]);
    }
  }
}

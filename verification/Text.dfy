/** The string operations the source applies to UTF-8 text, on its octets. */
module Text {
  import opened Common

  /** `split(sep)`: always at least one piece. */
  function Split(s: Bytes, sep: byte): (r: seq<Bytes>)
    ensures r != []
  {
    if s == [] then [[]]
    else
      var t := Split(s[1..], sep);
      if s[0] == sep then [[]] + t else [[s[0]] + t[0]] + t[1..]
  }

  function Join(parts: seq<Bytes>, sep: byte): Bytes
    requires parts != []
  {
    if |parts| == 1 then parts[0] else parts[0] + [sep] + Join(parts[1..], sep)
  }

  predicate Free(s: Bytes, sep: byte) { sep !in s }

  /** Splitting loses nothing and cuts at every separator. */
  lemma {:induction false} SplitJoin(s: Bytes, sep: byte)
    ensures Join(Split(s, sep), sep) == s
    ensures forall i :: 0 <= i < |Split(s, sep)| ==> Free(Split(s, sep)[i], sep)
    ensures |Split(s, sep)| == 1 <==> Free(s, sep)
  {
    if s != [] {
      SplitJoin(s[1..], sep);
      var t, r := Split(s[1..], sep), Split(s, sep);
      assert s == [s[0]] + s[1..];
      if s[0] == sep {
        assert r[1..] == t;
      } else {
        assert r[1..] == t[1..];
        assert |t| > 1 ==> Join(r, sep) == [s[0]] + (t[0] + [sep] + Join(t[1..], sep));
      }
    }
  }

  lemma {:induction false} SplitFree(s: Bytes, sep: byte)
    requires Free(s, sep)
    ensures Split(s, sep) == [s]
  {
    if s != [] {
      SplitFree(s[1..], sep);
      assert s == [s[0]] + s[1..];
    }
  }

  lemma {:induction false} SplitFirst(s: Bytes, sep: byte, rest: Bytes)
    requires Free(s, sep)
    ensures Split(s + [sep] + rest, sep) == [s] + Split(rest, sep)
  {
    var d := s + [sep] + rest;
    if s == [] {
      assert d[1..] == rest;
    } else {
      SplitFirst(s[1..], sep, rest);
      assert d[1..] == s[1..] + [sep] + rest;
      assert s == [s[0]] + s[1..];
    }
  }

  /** Joined pieces are split back into themselves. */
  lemma {:induction false} SplitOfJoin(parts: seq<Bytes>, sep: byte)
    requires parts != [] && forall i :: 0 <= i < |parts| ==> Free(parts[i], sep)
    ensures Split(Join(parts, sep), sep) == parts
  {
    if |parts| == 1 {
      SplitFree(parts[0], sep);
      assert parts == [parts[0]];
    } else {
      SplitOfJoin(parts[1..], sep);
      SplitFirst(parts[0], sep, Join(parts[1..], sep));
      assert parts == [parts[0]] + parts[1..];
    }
  }

  /** `rsplit_once(sep)`: cut at the last separator. */
  function RSplitOnce(s: Bytes, sep: byte): (r: Option<(Bytes, Bytes)>)
    ensures r.None? <==> Free(s, sep)
    ensures r.Some? ==> s == r.value.0 + [sep] + r.value.1 && Free(r.value.1, sep)
  {
    if s == [] then None
    else
      var last := |s| - 1;
      assert s == s[..last] + [s[last]];
      if s[last] == sep then Some((s[..last], []))
      else match RSplitOnce(s[..last], sep)
        case None => None
        case Some((a, b)) => Some((a, b + [s[last]]))
  }

  /** `contains(pat)`. */
  predicate Contains(s: Bytes, pat: Bytes)
    requires pat != []
  {
    s != [] && (pat <= s || Contains(s[1..], pat))
  }

  /** `replace(pat, with)`: left to right, without overlaps. */
  function Replace(s: Bytes, pat: Bytes, with: Bytes): Bytes
    requires pat != []
  {
    if s == [] then []
    else if pat <= s then with + Replace(s[|pat|..], pat, with)
    else [s[0]] + Replace(s[1..], pat, with)
  }

  /** Up to the first place the pattern stands, nothing changes; there it is replaced, and so on after it. */
  lemma {:induction false} ReplaceFirst(a: Bytes, pat: Bytes, b: Bytes, with: Bytes)
    requires pat != []
    requires forall i :: 0 <= i < |a| ==> !(pat <= (a + pat + b)[i..])
    ensures Replace(a + pat + b, pat, with) == a + with + Replace(b, pat, with)
  {
    var s := a + pat + b;
    if a == [] {
      assert s == pat + b;
      ReplaceHere(pat, b, with);
      assert a + with == with;
    } else {
      var t := a[1..] + pat + b;
      assert s == [a[0]] + t;
      forall i | 0 <= i < |a[1..]| ensures !(pat <= t[i..]) {
        assert t[i..] == s[i + 1..];
      }
      ReplaceFirst(a[1..], pat, b, with);
      assert s[0..] == s;
      ReplaceLater(a[0], t, pat, with);
      PrependAll(a, with, Replace(b, pat, with));
    }
  }

  lemma ReplaceHere(pat: Bytes, b: Bytes, with: Bytes)
    requires pat != []
    ensures Replace(pat + b, pat, with) == with + Replace(b, pat, with)
  {
    assert (pat + b)[|pat|..] == b;
  }

  lemma ReplaceLater(x: byte, t: Bytes, pat: Bytes, with: Bytes)
    requires pat != [] && !(pat <= [x] + t)
    ensures Replace([x] + t, pat, with) == [x] + Replace(t, pat, with)
  {
    assert ([x] + t)[1..] == t;
  }

  lemma PrependAll(a: Bytes, b: Bytes, c: Bytes)
    requires a != []
    ensures [a[0]] + (a[1..] + b + c) == a + b + c
  {
  }

  /** Without the pattern nothing changes. */
  lemma {:induction false} ReplaceNone(s: Bytes, pat: Bytes, with: Bytes)
    requires pat != [] && !Contains(s, pat)
    ensures Replace(s, pat, with) == s
  {
    if s != [] {
      ReplaceNone(s[1..], pat, with);
      assert s == [s[0]] + s[1..];
    }
  }

  /** The pattern occurs exactly if it stands somewhere. */
  lemma {:induction false} ContainsExactly(s: Bytes, pat: Bytes)
    requires pat != []
    ensures Contains(s, pat) <==> exists i :: 0 <= i < |s| && pat <= s[i..]
  {
    if s != [] {
      ContainsExactly(s[1..], pat);
      assert forall i :: 0 < i < |s| ==> s[i..] == s[1..][i - 1..];
      assert s[0..] == s;
      if i :| 0 <= i < |s[1..]| && pat <= s[1..][i..] {
        assert pat <= s[i + 1..];
      }
    }
  }

  /** How often `Replace` replaces. */
  function Hits(s: Bytes, pat: Bytes): (n: nat)
    requires pat != []
    ensures n > 0 <==> Contains(s, pat)
  {
    if s == [] then 0
    else if pat <= s then 1 + Hits(s[|pat|..], pat)
    else Hits(s[1..], pat)
  }

  lemma {:induction false} ReplaceLength(s: Bytes, pat: Bytes, with: Bytes)
    requires pat != []
    ensures |Replace(s, pat, with)| == |s| + Hits(s, pat) * (|with| - |pat|)
    ensures Hits(s, pat) == 0 ==> Replace(s, pat, with) == s
  {
    if s != [] {
      if pat <= s {
        var t := s[|pat|..];
        ReplaceLength(t, pat, with);
        assert (1 + Hits(t, pat)) * (|with| - |pat|)
            == |with| - |pat| + Hits(t, pat) * (|with| - |pat|);
      } else {
        ReplaceLength(s[1..], pat, with);
        assert s == [s[0]] + s[1..];
      }
    }
  }

  lemma SameProduct(c: nat, x: int, y: int)
    requires c > 0 && c * x == c * y
    ensures x == y
  {
    assert c * (x - y) == 0;
  }

  /** Where the pattern occurs, the replacement can be told from the result. */
  lemma ReplaceInjective(s: Bytes, pat: Bytes, a: Bytes, b: Bytes)
    requires pat != [] && Contains(s, pat)
    requires Replace(s, pat, a) == Replace(s, pat, b)
    ensures a == b
  {
    ReplaceLength(s, pat, a);
    ReplaceLength(s, pat, b);
    SameProduct(Hits(s, pat), |a| - |pat|, |b| - |pat|);
    ReplaceSameLength(s, pat, a, b);
  }

  lemma {:induction false} ReplaceSameLength(s: Bytes, pat: Bytes, a: Bytes, b: Bytes)
    requires pat != [] && Contains(s, pat) && |a| == |b|
    requires Replace(s, pat, a) == Replace(s, pat, b)
    ensures a == b
  {
    if pat <= s {
      assert a == Replace(s, pat, a)[..|a|];
      assert b == Replace(s, pat, b)[..|b|];
    } else {
      assert Replace(s, pat, a)[1..] == Replace(s[1..], pat, a);
      assert Replace(s, pat, b)[1..] == Replace(s[1..], pat, b);
      ReplaceSameLength(s[1..], pat, a, b);
    }
  }
}

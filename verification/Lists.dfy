/** The iterator chains of the source, as functions on sequences. */
module Lists {
  import opened Common

  function Reverse<T>(s: seq<T>): (r: seq<T>)
    ensures |r| == |s|
  {
    if s == [] then [] else [s[|s| - 1]] + Reverse(s[..|s| - 1])
  }

  lemma {:induction false} ReverseAt<T>(s: seq<T>, i: nat)
    requires i < |s|
    ensures Reverse(s)[i] == s[|s| - 1 - i]
  {
    if i > 0 {
      ReverseAt(s[..|s| - 1], i - 1);
    }
  }

  lemma ReverseAppend<T>(s: seq<T>, x: T)
    ensures Reverse(s + [x]) == [x] + Reverse(s)
  {
    assert (s + [x])[..|s|] == s;
  }

  function Skip<T>(s: seq<T>, n: nat): seq<T> { if n <= |s| then s[n..] else [] }

  function Take<T>(s: seq<T>, n: nat): seq<T> { if n <= |s| then s[..n] else s }

  function Map<T, U>(s: seq<T>, f: T -> U): (r: seq<U>)
    ensures |r| == |s| && forall i :: 0 <= i < |s| ==> r[i] == f(s[i])
  {
    seq(|s|, i requires 0 <= i < |s| => f(s[i]))
  }

  function Concat<T>(parts: seq<seq<T>>): seq<T> {
    if parts == [] then [] else parts[0] + Concat(parts[1..])
  }

  lemma ConcatOne<T>(part: seq<T>)
    ensures Concat([part]) == part
  {
    assert [part][1..] == [] && Concat<T>([]) == [] && part + [] == part;
  }

  lemma {:induction false} ConcatSplit<T>(parts: seq<seq<T>>, j: nat)
    requires j <= |parts|
    ensures Concat(parts) == Concat(parts[..j]) + Concat(parts[j..])
  {
    if j == 0 {
      assert parts[0..] == parts;
    } else {
      ConcatSplit(parts[1..], j - 1);
      assert parts[..j][1..] == parts[1..][..j - 1];
      assert parts[j..] == parts[1..][j - 1..];
    }
  }

  function Filter<T>(s: seq<T>, keep: T -> bool): seq<T> {
    if s == [] then [] else (if keep(s[0]) then [s[0]] else []) + Filter(s[1..], keep)
  }

  function FilterMap<T, U>(s: seq<T>, f: T -> Option<U>): seq<U> {
    if s == [] then []
    else (match f(s[0]) case Some(u) => [u] case None => []) + FilterMap(s[1..], f)
  }

  lemma {:induction false} FilterMapAppend<T, U>(s: seq<T>, x: T, f: T -> Option<U>)
    ensures FilterMap(s + [x], f)
         == FilterMap(s, f) + match f(x) case Some(u) => [u] case None => []
  {
    if s == [] {
      assert [] + [x] == [x] && [x][1..] == [];
    } else {
      FilterMapAppend(s[1..], x, f);
      assert (s + [x])[1..] == s[1..] + [x];
    }
  }

  lemma {:induction false} FilterMapConcat<T, U>(a: seq<T>, b: seq<T>, f: T -> Option<U>)
    ensures FilterMap(a + b, f) == FilterMap(a, f) + FilterMap(b, f)
  {
    if a == [] {
      assert a + b == b;
    } else {
      FilterMapConcat(a[1..], b, f);
      var head := match f(a[0]) case Some(u) => [u] case None => [];
      assert (a + b)[0] == a[0] && (a + b)[1..] == a[1..] + b;
      assert FilterMap(a + b, f) == head + FilterMap(a[1..] + b, f);
      AppendAssoc(head, FilterMap(a[1..], f), FilterMap(b, f));
    }
  }

  lemma AppendAssoc<T>(a: seq<T>, b: seq<T>, c: seq<T>)
    ensures a + (b + c) == a + b + c
  {
  }

  lemma {:induction false} FilterMapNone<T, U>(s: seq<T>, f: T -> Option<U>)
    requires forall i :: 0 <= i < |s| ==> f(s[i]).None?
    ensures FilterMap(s, f) == []
  {
    if s != [] {
      FilterMapNone(s[1..], f);
    }
  }

  /** Indices below `n` at which `f` yields a value, smallest first. */
  ghost function Picked<T, U>(s: seq<T>, f: T -> Option<U>, n: nat): (ix: seq<nat>)
    requires n <= |s|
    ensures forall k :: 0 <= k < |ix| ==> ix[k] < n && f(s[ix[k]]).Some?
    ensures forall k, l :: 0 <= k < l < |ix| ==> ix[k] < ix[l]
    ensures forall i :: 0 <= i < n && f(s[i]).Some? ==> i in ix
  {
    if n == 0 then [] else Picked(s, f, n - 1) + if f(s[n - 1]).Some? then [n - 1] else []
  }

  /** `FilterMap` takes the values at exactly those indices, in order. */
  lemma {:induction false} FilterMapPicks<T, U>(s: seq<T>, f: T -> Option<U>, n: nat)
    requires n <= |s|
    ensures |FilterMap(s[..n], f)| == |Picked(s, f, n)|
    ensures forall k :: 0 <= k < |Picked(s, f, n)| ==> f(s[Picked(s, f, n)[k]]) == Some(FilterMap(s[..n], f)[k])
  {
    if n > 0 {
      FilterMapPicks(s, f, n - 1);
      assert s[..n] == s[..n - 1] + [s[n - 1]];
      FilterMapAppend(s[..n - 1], s[n - 1], f);
    }
  }

  lemma {:induction false} FilterThenMap<T, U>(s: seq<T>, keep: T -> bool, f: T -> Option<U>, g: T -> Option<U>)
    requires forall i :: 0 <= i < |s| ==> g(s[i]) == if keep(s[i]) then f(s[i]) else None
    ensures FilterMap(Filter(s, keep), f) == FilterMap(s, g)
  {
    if s != [] {
      FilterThenMap(s[1..], keep, f, g);
      if keep(s[0]) {
        FilterMapCons(s[0], Filter(s[1..], keep), f);
      } else {
        assert Filter(s, keep) == Filter(s[1..], keep);
        assert FilterMap(s, g) == FilterMap(s[1..], g);
      }
    }
  }

  lemma FilterMapCons<T, U>(x: T, rest: seq<T>, f: T -> Option<U>)
    ensures FilterMap([x] + rest, f) == (match f(x) case Some(u) => [u] case None => []) + FilterMap(rest, f)
  {
    assert ([x] + rest)[1..] == rest;
  }

  lemma {:induction false} FilterMapThrough<T, V, U>(s: seq<T>, f: T -> Option<V>, g: V -> Option<U>, h: T -> Option<U>)
    requires forall i :: 0 <= i < |s| ==> h(s[i]) == match f(s[i]) case Some(v) => g(v) case None => None
    ensures FilterMap(FilterMap(s, f), g) == FilterMap(s, h)
  {
    if s != [] {
      FilterMapThrough(s[1..], f, g, h);
      if f(s[0]).Some? {
        FilterMapCons(f(s[0]).value, FilterMap(s[1..], f), g);
      } else {
        assert FilterMap(s, f) == FilterMap(s[1..], f);
        assert FilterMap(s, h) == FilterMap(s[1..], h);
      }
    }
  }

  lemma {:induction false} FilterMapFinds<T, U>(s: seq<T>, i: nat, f: T -> Option<U>)
    requires i < |s| && f(s[i]).Some?
    ensures f(s[i]).value in FilterMap(s, f)
  {
    if i > 0 {
      FilterMapFinds(s[1..], i - 1, f);
    }
  }

  lemma {:induction false} ReverseKeeps<T>(s: seq<T>, x: T)
    requires x in s
    ensures x in Reverse(s)
  {
    if x != s[|s| - 1] {
      ReverseKeeps(s[..|s| - 1], x);
    }
  }

  /** Indices below `n` of the elements kept, largest first. */
  ghost function Kept<T>(s: seq<T>, keep: T -> bool, n: nat): (ix: seq<nat>)
    requires n <= |s|
    ensures forall k :: 0 <= k < |ix| ==> ix[k] < n
  {
    if n == 0 then [] else (if keep(s[n - 1]) then [n - 1] else []) + Kept(s, keep, n - 1)
  }

  lemma {:induction false} KeptExactly<T>(s: seq<T>, keep: T -> bool, n: nat)
    requires n <= |s|
    ensures forall k :: 0 <= k < |Kept(s, keep, n)| ==> keep(s[Kept(s, keep, n)[k]])
    ensures forall k, l :: 0 <= k < l < |Kept(s, keep, n)| ==> Kept(s, keep, n)[k] > Kept(s, keep, n)[l]
    ensures forall i :: 0 <= i < n && keep(s[i]) ==> i in Kept(s, keep, n)
  {
    if n > 0 {
      KeptExactly(s, keep, n - 1);
    }
  }

  lemma {:induction false} KeptSame<T>(s: seq<T>, a: T -> bool, b: T -> bool, n: nat)
    requires n <= |s| && forall i :: 0 <= i < |s| ==> a(s[i]) == b(s[i])
    ensures Kept(s, a, n) == Kept(s, b, n)
  {
    if n > 0 {
      KeptSame(s, a, b, n - 1);
    }
  }

  ghost function At<T>(s: seq<T>, ix: seq<nat>): (r: seq<T>)
    requires forall k :: 0 <= k < |ix| ==> ix[k] < |s|
    ensures |r| == |ix| && forall k :: 0 <= k < |ix| ==> r[k] == s[ix[k]]
  {
    seq(|ix|, k requires 0 <= k < |ix| => s[ix[k]])
  }

  lemma {:induction false} FilterReverse<T>(s: seq<T>, keep: T -> bool, n: nat)
    requires n <= |s|
    ensures Filter(Reverse(s[..n]), keep) == At(s, Kept(s, keep, n))
  {
    if n > 0 {
      FilterReverse(s, keep, n - 1);
      ReversedStep(s, keep, n);
      AtStep(s, n - 1, keep(s[n - 1]), Kept(s, keep, n - 1));
    }
  }

  lemma ReversedStep<T>(s: seq<T>, keep: T -> bool, n: nat)
    requires 0 < n <= |s|
    ensures Filter(Reverse(s[..n]), keep)
         == (if keep(s[n - 1]) then [s[n - 1]] else []) + Filter(Reverse(s[..n - 1]), keep)
  {
    assert s[..n] == s[..n - 1] + [s[n - 1]];
    ReverseAppend(s[..n - 1], s[n - 1]);
    FilterCons(s[n - 1], Reverse(s[..n - 1]), keep);
  }

  lemma AtStep<T>(s: seq<T>, i: nat, taken: bool, ix: seq<nat>)
    requires i < |s| && forall k :: 0 <= k < |ix| ==> ix[k] < |s|
    ensures At(s, (if taken then [i] else []) + ix) == (if taken then [s[i]] else []) + At(s, ix)
  {
    if taken {
      AtCons(s, i, ix);
    } else {
      assert [] + ix == ix && [] + At(s, ix) == At(s, ix);
    }
  }

  lemma FilterCons<T>(x: T, rest: seq<T>, keep: T -> bool)
    ensures Filter([x] + rest, keep) == (if keep(x) then [x] else []) + Filter(rest, keep)
  {
    assert ([x] + rest)[1..] == rest;
  }

  lemma AtCons<T>(s: seq<T>, i: nat, ix: seq<nat>)
    requires i < |s| && forall k :: 0 <= k < |ix| ==> ix[k] < |s|
    ensures At(s, [i] + ix) == [s[i]] + At(s, ix)
    ensures [] + ix == ix && [] + At(s, ix) == At(s, ix)
  {
    assert forall k :: 0 < k <= |ix| ==> ([i] + ix)[k] == ix[k - 1];
  }

  /** Filtering and mapping commute with reading backwards. */
  lemma {:induction false} FilterMapReverse<T, V, U>(a: seq<T>, b: seq<V>, keep: T -> bool,
                                                     g: T -> U, f: V -> Option<U>)
    requires |a| == |b|
    requires forall i :: 0 <= i < |a| ==> f(b[i]) == if keep(a[i]) then Some(g(a[i])) else None
    ensures Reverse(FilterMap(b, f)) == Map(Filter(Reverse(a), keep), g)
  {
    if a != [] {
      var n := |a| - 1;
      var x, y := a[n], b[n];
      FilterMapReverse(a[..n], b[..n], keep, g, f);
      assert a == a[..n] + [x] && b == b[..n] + [y];
      FilterMapAppend(b[..n], y, f);
      ReverseAppend(a[..n], x);
      FilterCons(x, Reverse(a[..n]), keep);
      var older, rest := FilterMap(b[..n], f), Filter(Reverse(a[..n]), keep);
      if keep(x) {
        ReverseAppend(older, g(x));
        assert Map([x] + rest, g) == [g(x)] + Map(rest, g);
      } else {
        assert older + [] == older && [] + rest == rest;
      }
    }
  }

  lemma BackwardsAll<T, U>(s: seq<T>, f: T -> Option<U>, i: nat)
    requires i < |s| && forall k :: 0 <= k < |s| ==> f(s[k]).Some?
    ensures |Reverse(FilterMap(s, f))| == |s|
    ensures Reverse(FilterMap(s, f))[|s| - 1 - i] == f(s[i]).value
  {
    FilterMapAll(s, f);
    ReverseAt(FilterMap(s, f), |s| - 1 - i);
  }

  lemma SliceOfTail<T>(s: seq<T>, pos: nat, i: nat, j: nat)
    requires pos <= i <= j <= |s|
    ensures s[pos..][i - pos..j - pos] == s[i..j]
    ensures s[pos..][i - pos..] == s[i..]
  {
  }

  lemma MapPage<T, U>(s: seq<T>, g: T -> U, offset: nat, limit: nat)
    ensures Map(Take(Skip(s, offset), limit), g) == Take(Skip(Map(s, g), offset), limit)
  {
  }

  lemma NextPage<T>(s: seq<T>, size: nat, k: nat)
    ensures Take(s, k * size) + Take(Skip(s, k * size), size) == Take(s, (k + 1) * size)
  {
    assert (k + 1) * size == k * size + size;
  }

  lemma {:induction false} FilterAppend<T>(s: seq<T>, x: T, keep: T -> bool)
    ensures Filter(s + [x], keep) == Filter(s, keep) + if keep(x) then [x] else []
  {
    if s == [] {
      assert [] + [x] == [x] && [x][1..] == [];
    } else {
      FilterAppend(s[1..], x, keep);
      assert (s + [x])[1..] == s[1..] + [x];
    }
  }

  lemma {:induction false} FilterFilter<T(!new)>(s: seq<T>, weak: T -> bool, strong: T -> bool)
    requires forall x :: strong(x) ==> weak(x)
    ensures Filter(Filter(s, weak), strong) == Filter(s, strong)
    ensures |Filter(s, strong)| <= |Filter(s, weak)|
  {
    if s != [] {
      FilterFilter(s[1..], weak, strong);
      var rest := Filter(s[1..], weak);
      if weak(s[0]) {
        assert Filter(s, weak)[1..] == rest;
      } else {
        assert Filter(s, weak) == rest;
      }
    }
  }

  lemma {:induction false} FilterShorter<T>(s: seq<T>, keep: T -> bool)
    ensures |Filter(s, keep)| <= |s|
  {
    if s != [] {
      FilterShorter(s[1..], keep);
    }
  }

  lemma {:induction false} FilterMapShorter<T, U>(s: seq<T>, f: T -> Option<U>)
    ensures |FilterMap(s, f)| <= |s|
  {
    if s != [] {
      FilterMapShorter(s[1..], f);
    }
  }

  lemma {:induction false} FilterAll<T>(s: seq<T>, keep: T -> bool)
    requires forall i :: 0 <= i < |s| ==> keep(s[i])
    ensures Filter(s, keep) == s
  {
    if s != [] {
      FilterAll(s[1..], keep);
      assert s == [s[0]] + s[1..];
    }
  }

  lemma {:induction false} FilterMapAll<T, U>(s: seq<T>, f: T -> Option<U>)
    requires forall i :: 0 <= i < |s| ==> f(s[i]).Some?
    ensures |FilterMap(s, f)| == |s|
    ensures forall i :: 0 <= i < |s| ==> FilterMap(s, f)[i] == f(s[i]).value
  {
    if s != [] {
      FilterMapAll(s[1..], f);
    }
  }
}

/**
 Anti-replay nonces: the in-memory `NonceBucket` of src/state.rs and its use
 by src/routes/mod.rs and src/main.rs, on every node of a cluster (section 6.5
 of RFC 8555). Randomness and the clock are inputs.
 */
module Nonce {
  import opened Common

  type Store = map<string, int>

  const I64_MIN: int := -0x8000_0000_0000_0000
  const I64_MAX: int := 0x7FFF_FFFF_FFFF_FFFF

  function SaturatingSub(a: int, b: int): int {
    if a - b < I64_MIN then I64_MIN else if a - b > I64_MAX then I64_MAX else a - b
  }

  function PrefixDot(prefix: string): string { if prefix == "" then "" else prefix + "." }

  predicate HasPrefix(prefix: string, nonce: string) {
    PrefixDot(prefix) == "" || PrefixDot(prefix) <= nonce
  }

  function Swept(m: Store, cutoff: int): Store {
    map n | n in m && m[n] >= cutoff :: m[n]
  }

  /** The bucket itself; the mutex makes every method one atomic step. */
  class NonceBucket {
    var inner: Store
    const nodePrefix: string
    const prefixDot: string
    ghost var issued: multiset<string>
    ghost var accepted: multiset<string>

    /** The bucket as a node of the cluster below. */
    ghost function AsNode(): Node
      reads this
    {
      Node(nodePrefix, inner, issued, accepted)
    }

    ghost predicate Valid()
      reads this
    {
      prefixDot == PrefixDot(nodePrefix)
    }

    constructor WithPrefix(prefix: string)
      ensures Valid() && AsNode() == Node(prefix, map[], multiset{}, multiset{})
    {
      inner, issued, accepted := map[], multiset{}, multiset{};
      nodePrefix := prefix;
      prefixDot := if prefix == "" then "" else prefix + ".";
    }

    function HasLocalPrefix(nonce: string): (r: bool)
      requires Valid()
      reads this
      ensures r <==> HasPrefix(nodePrefix, nonce)
    {
      if prefixDot == "" then true else prefixDot <= nonce
    }

    method Insert(nonce: string, now: int)
      modifies this`inner
      ensures inner == old(inner)[nonce := now]
    {
      inner := inner[nonce := now];
    }

    method ConsumeAndInsert(oldNonce: string, newNonce: string, now: int) returns (ok: bool)
      modifies this`inner
      ensures ok <==> oldNonce in old(inner)
      ensures inner == if ok then (old(inner) - {oldNonce})[newNonce := now] else old(inner)
    {
      if oldNonce !in inner {
        return false;
      }
      inner := inner - {oldNonce};
      inner := inner[newNonce := now];
      return true;
    }

    /** `new_nonce`. */
    method NewNonce(random: string, now: int) returns (nonce: string)
      requires Valid()
      modifies this
      ensures nonce == Gen(nodePrefix, random)
      ensures AsNode() == StepNode(old(AsNode()), Step.NewNonce(0, random, now))
    {
      nonce := Gen(nodePrefix, random);
      Insert(nonce, now);
      issued := issued + multiset{nonce};
    }

    /** The nonce check of `parse_jws`: on failure the next nonce is stored all the same. */
    method CheckNonce(header: string, random: string, now: int) returns (next: string, ok: bool)
      requires Valid()
      modifies this
      ensures next == Gen(nodePrefix, random) && ok == Accepts(old(AsNode()), header)
      ensures AsNode() == StepNode(old(AsNode()), Request(0, header, random, now))
    {
      next := Gen(nodePrefix, random);
      ok := false;
      if HasLocalPrefix(header) {
        ok := ConsumeAndInsert(header, next, now);
      }
      if ok {
        accepted := accepted + multiset{header};
      } else {
        Insert(next, now);
      }
      issued := issued + multiset{next};
    }

    method SweepExpired(maxAge: int, now: int) returns (removed: nat)
      modifies this`inner
      ensures AsNode() == StepNode(old(AsNode()), Sweep(0, maxAge, now))
      ensures removed == |old(inner)| - |inner|
    {
      var cutoff := SaturatingSub(now, maxAge);
      var before := |inner|;
      inner := Swept(inner, cutoff);
      SubsetSize(inner.Keys, old(inner).Keys);
      removed := before - |inner|;
    }
  }

  lemma {:induction false} SubsetSize(a: set<string>, b: set<string>)
    requires a <= b
    ensures |a| <= |b|
  {
    if a != {} {
      var x :| x in a;
      SubsetSize(a - {x}, b - {x});
    }
  }

  // --------------------------------------------------------------- cluster

  /** One node, with what it has issued and accepted since its start. */
  datatype Node = Node(prefix: string, inner: Store,
                       issued: multiset<string>, accepted: multiset<string>)

  datatype Step =
    | NewNonce(i: nat, random: string, now: int)
    | Request(i: nat, header: string, random: string, now: int)
    | Sweep(i: nat, maxAge: int, now: int)
    | Restart(i: nat)

  function Gen(prefix: string, random: string): string {
    if prefix == "" then random else prefix + "." + random
  }

  /** Different random parts give different nonces. */
  lemma GenInjective(prefix: string, r: string, s: string)
    requires Gen(prefix, r) == Gen(prefix, s)
    ensures r == s
  {
    if prefix != "" {
      assert r == (prefix + "." + r)[|prefix| + 1..] && s == (prefix + "." + s)[|prefix| + 1..];
    }
  }

  /** The prefix test: the prefix, a dot, and anything. */
  lemma PrefixExactly(prefix: string, nonce: string)
    ensures HasPrefix(prefix, nonce) <==> prefix == "" || exists rest :: nonce == prefix + "." + rest
  {
    if prefix != "" && HasPrefix(prefix, nonce) {
      assert nonce == prefix + "." + nonce[|prefix| + 1..];
    }
  }

  predicate Accepts(n: Node, nonce: string) { HasPrefix(n.prefix, nonce) && nonce in n.inner }

  function StepNode(n: Node, step: Step): Node {
    match step
    case NewNonce(_, random, now) =>
      var next := Gen(n.prefix, random);
      n.(inner := n.inner[next := now], issued := n.issued + multiset{next})
    case Request(_, header, random, now) =>
      var next := Gen(n.prefix, random);
      var issued := n.issued + multiset{next};
      if Accepts(n, header)
      then n.(inner := (n.inner - {header})[next := now], issued := issued,
              accepted := n.accepted + multiset{header})
      else n.(inner := n.inner[next := now], issued := issued)
    case Sweep(_, maxAge, now) => n.(inner := Swept(n.inner, SaturatingSub(now, maxAge)))
    case Restart(_) => n.(inner := map[])
  }

  predicate DotFree(s: string) { '.' !in s }

  /** `random` is base64url text, which has no dot. */
  predicate Enabled(nodes: seq<Node>, step: Step) {
    step.i < |nodes|
    && (step.NewNonce? || step.Request? ==> DotFree(step.random))
  }

  function Apply(nodes: seq<Node>, step: Step): (r: seq<Node>)
    requires Enabled(nodes, step)
    ensures |r| == |nodes|
  {
    nodes[step.i := StepNode(nodes[step.i], step)]
  }

  predicate CanRun(nodes: seq<Node>, steps: seq<Step>)
    decreases |steps|
  {
    steps == [] || (Enabled(nodes, steps[0]) && CanRun(Apply(nodes, steps[0]), steps[1..]))
  }

  function Run(nodes: seq<Node>, steps: seq<Step>): (r: seq<Node>)
    requires CanRun(nodes, steps)
    ensures |r| == |nodes|
    decreases |steps|
  {
    if steps == [] then nodes else Run(Apply(nodes, steps[0]), steps[1..])
  }

  // ----------------------------------------------------------- conservation

  function Present(n: Node, nonce: string): nat { if nonce in n.inner then 1 else 0 }

  /** Uses plus presence never exceed issues, and a node issues under its own prefix only. */
  ghost predicate NodeInv(n: Node) {
    DotFree(n.prefix)
    && (forall x: string :: n.accepted[x] + Present(n, x) <= n.issued[x])
    && (forall x: string :: x in n.issued ==> exists r: string :: DotFree(r) && x == Gen(n.prefix, r))
  }

  ghost predicate Inv(nodes: seq<Node>) {
    forall i :: 0 <= i < |nodes| ==> NodeInv(nodes[i])
  }

  lemma StepKeepsNode(n: Node, step: Step)
    requires NodeInv(n) && (step.NewNonce? || step.Request? ==> DotFree(step.random))
    ensures NodeInv(StepNode(n, step))
    ensures StepNode(n, step).prefix == n.prefix
  {
    var n' := StepNode(n, step);
    forall x: string | x in n'.issued ensures exists r: string :: DotFree(r) && x == Gen(n.prefix, r) {
      if x !in n.issued {
        assert x == Gen(n.prefix, step.random);
      }
    }
  }

  lemma {:induction false} RunKeepsInv(nodes: seq<Node>, steps: seq<Step>)
    requires Inv(nodes) && CanRun(nodes, steps)
    ensures Inv(Run(nodes, steps))
    ensures forall i :: 0 <= i < |nodes| ==> Run(nodes, steps)[i].prefix == nodes[i].prefix
    decreases |steps|
  {
    if steps != [] {
      StepKeepsNode(nodes[steps[0].i], steps[0]);
      RunKeepsInv(Apply(nodes, steps[0]), steps[1..]);
    }
  }

  /** The part before the first dot, empty when there is none. */
  ghost function Owner(nonce: string): string {
    if '.' !in nonce || nonce[0] == '.' then "" else [nonce[0]] + Owner(nonce[1..])
  }

  /** A nonce names the node that issued it. */
  lemma {:induction false} OwnerOfGen(prefix: string, random: string)
    requires DotFree(prefix) && DotFree(random)
    ensures Owner(Gen(prefix, random)) == prefix
  {
    if prefix != "" {
      OwnerBeforeDot(prefix, random);
    }
  }

  lemma {:induction false} OwnerBeforeDot(prefix: string, rest: string)
    requires DotFree(prefix)
    ensures Owner(prefix + "." + rest) == prefix
  {
    var x := prefix + "." + rest;
    assert x[|prefix|] == '.';
    if prefix != "" {
      OwnerBeforeDot(prefix[1..], rest);
      assert x[1..] == prefix[1..] + "." + rest;
    }
  }

  function Fresh(prefixes: seq<string>): seq<Node> {
    seq(|prefixes|, i requires 0 <= i < |prefixes| => Node(prefixes[i], map[], multiset{}, multiset{}))
  }

  /**
   In every run of a cluster, on every node, the times a nonce was accepted
   plus its presence never exceed the times it was issued; so a nonce issued
   once is accepted at most once.
   */
  lemma NonceConserved(prefixes: seq<string>, steps: seq<Step>, i: nat, nonce: string)
    requires forall k :: 0 <= k < |prefixes| ==> DotFree(prefixes[k])
    requires i < |prefixes| && CanRun(Fresh(prefixes), steps)
    ensures var n := Run(Fresh(prefixes), steps)[i];
      n.accepted[nonce] + Present(n, nonce) <= n.issued[nonce]
  {
    RunKeepsInv(Fresh(prefixes), steps);
  }

  /** Nodes with different dot-free prefixes never both accept a nonce, in any run. */
  lemma OneNodeAccepts(prefixes: seq<string>, steps: seq<Step>, i: nat, j: nat, nonce: string)
    requires forall k :: 0 <= k < |prefixes| ==> DotFree(prefixes[k])
    requires i < |prefixes| && j < |prefixes| && prefixes[i] != prefixes[j]
    requires CanRun(Fresh(prefixes), steps)
    ensures var nodes := Run(Fresh(prefixes), steps);
      nodes[i].accepted[nonce] == 0 || nodes[j].accepted[nonce] == 0
  {
    var nodes := Run(Fresh(prefixes), steps);
    RunKeepsInv(Fresh(prefixes), steps);
    var a, b := nodes[i], nodes[j];
    assert a.prefix == prefixes[i] && b.prefix == prefixes[j];
    if a.accepted[nonce] > 0 && b.accepted[nonce] > 0 {
      assert nonce in a.issued && nonce in b.issued;
      var r: string :| DotFree(r) && nonce == Gen(a.prefix, r);
      var s: string :| DotFree(s) && nonce == Gen(b.prefix, s);
      OwnerOfGen(a.prefix, r);
      OwnerOfGen(b.prefix, s);
    }
  }

  // ---------------------------------------------------------------- expiry

  /** The prefix test refuses nothing a node holds. */
  lemma HeldIsAccepted(n: Node, nonce: string)
    requires NodeInv(n) && nonce in n.inner
    ensures Accepts(n, nonce)
  {
    assert n.accepted[nonce] + Present(n, nonce) <= n.issued[nonce];
    assert nonce in n.issued;
    var r: string :| DotFree(r) && nonce == Gen(n.prefix, r);
    assert PrefixDot(n.prefix) <= nonce;
  }

  /** A step that neither uses up the nonce nor clears the node, at a time when it is not too old. */
  predicate Spares(step: Step, i: nat, nonce: string, created: int, until: int) {
    match step
    case NewNonce(_, _, now) => created <= now
    case Request(k, header, _, now) => created <= now && !(k == i && header == nonce)
    case Sweep(_, maxAge, now) => I64_MIN <= now - maxAge && now <= until && until - created <= maxAge
    case Restart(k) => k != i
  }

  lemma {:induction false} Survives(nodes: seq<Node>, steps: seq<Step>, i: nat, nonce: string, created: int, until: int)
    requires CanRun(nodes, steps) && i < |nodes| && created <= I64_MAX
    requires nonce in nodes[i].inner && nodes[i].inner[nonce] >= created
    requires forall k :: 0 <= k < |steps| ==> Spares(steps[k], i, nonce, created, until)
    ensures nonce in Run(nodes, steps)[i].inner && Run(nodes, steps)[i].inner[nonce] >= created
    decreases |steps|
  {
    if steps != [] {
      var after := Apply(nodes, steps[0]);
      assert Spares(steps[0], i, nonce, created, until);
      assert forall k :: 0 <= k < |steps[1..]| ==> steps[1..][k] == steps[k + 1];
      Survives(after, steps[1..], i, nonce, created, until);
    }
  }

  /** A step that issues a nonce: on request, or in the answer to any other request, accepted or not. */
  predicate Issues(step: Step) { step.NewNonce? || step.Request? }

  /**
   Under a clock that does not go back, a nonce that has not been used is
   accepted for as long as it is no older than the sweep age, whatever other
   requests and sweeps happened in between.
   */
  lemma YoungNonceAccepted(nodes: seq<Node>, issue: Step, steps: seq<Step>, until: int)
    requires Inv(nodes) && Enabled(nodes, issue) && Issues(issue) && issue.now <= I64_MAX
    requires CanRun(Apply(nodes, issue), steps)
    requires forall k :: 0 <= k < |steps| ==>
      Spares(steps[k], issue.i, Gen(nodes[issue.i].prefix, issue.random), issue.now, until)
    ensures Accepts(Run(Apply(nodes, issue), steps)[issue.i], Gen(nodes[issue.i].prefix, issue.random))
  {
    var i, random, created := issue.i, issue.random, issue.now;
    var issued := Apply(nodes, issue);
    StepKeepsNode(nodes[i], issue);
    RunKeepsInv(issued, steps);
    Survives(issued, steps, i, Gen(nodes[i].prefix, random), created, until);
    HeldIsAccepted(Run(issued, steps)[i], Gen(nodes[i].prefix, random));
  }

  /** A sweep removes exactly the nonces older than the sweep age. */
  lemma SweepExactly(n: Node, nonce: string, i: nat, maxAge: int, now: int)
    requires NodeInv(n) && I64_MIN <= now - maxAge <= I64_MAX
    ensures Accepts(StepNode(n, Sweep(i, maxAge, now)), nonce)
      <==> nonce in n.inner && now - n.inner[nonce] <= maxAge
  {
    if nonce in n.inner {
      HeldIsAccepted(n, nonce);
    }
  }
}

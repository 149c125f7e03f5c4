/** The binary Merkle tree: roots, inclusion proofs, and what a root or an accepted proof commits to. */
module Merkle {
  import opened Bytes

  const DIGEST_LEN: nat := 32
  const LEAF_PREFIX: byte := 0
  const NODE_PREFIX: byte := 1

  datatype Step = Step(sibling: bytes, isLeft: bool)

  function LeafInput(data: bytes): bytes {
    [LEAF_PREFIX] + data
  }

  function NodeInput(left: bytes, right: bytes): bytes {
    [NODE_PREFIX] + left + right
  }

  // ---- Levels ----

  function LeafHashes(hash: bytes -> bytes, leaves: seq<bytes>): (level: seq<bytes>)
    ensures |level| == |leaves| && forall i :: 0 <= i < |leaves| ==> level[i] == hash(LeafInput(leaves[i]))
  {
    seq(|leaves|, i requires 0 <= i < |leaves| => hash(LeafInput(leaves[i])))
  }

  /** The partner of a position: an odd node at the end is paired with itself. */
  function Partner(level: seq<bytes>, i: nat): bytes
    requires i < |level|
  {
    if i + 1 < |level| then level[i + 1] else level[i]
  }

  function NextLevel(hash: bytes -> bytes, level: seq<bytes>): (next: seq<bytes>)
    ensures |next| == (|level| + 1) / 2
    ensures forall k :: 0 <= k < |next| ==> next[k] == hash(NodeInput(level[2 * k], Partner(level, 2 * k)))
  {
    seq((|level| + 1) / 2, k requires 0 <= k < (|level| + 1) / 2 =>
      hash(NodeInput(level[2 * k], Partner(level, 2 * k))))
  }

  function RootOf(hash: bytes -> bytes, level: seq<bytes>): bytes
    requires level != []
    decreases |level|
  {
    if |level| == 1 then level[0] else RootOf(hash, NextLevel(hash, level))
  }

  function Path(hash: bytes -> bytes, level: seq<bytes>, idx: nat): seq<Step>
    requires idx < |level|
    decreases |level|
  {
    if |level| == 1 then [] else [FirstStep(level, idx)] + Path(hash, NextLevel(hash, level), idx / 2)
  }

  function FirstStep(level: seq<bytes>, idx: nat): Step
    requires idx < |level|
  {
    if idx % 2 == 1 then Step(level[idx - 1], true) else Step(Partner(level, idx), false)
  }

  /** The first step of a proof goes to the node above. */
  lemma StepUp(hash: bytes -> bytes, level: seq<bytes>, idx: nat)
    requires idx < |level|
    ensures Combine(level[idx], FirstStep(level, idx)) == NodeInput(level[2 * (idx / 2)], Partner(level, 2 * (idx / 2)))
    ensures NextLevel(hash, level)[idx / 2] == hash(Combine(level[idx], FirstStep(level, idx)))
  {
    hide NodeInput;
  }

  function Combine(cur: bytes, step: Step): bytes {
    if step.isLeft then NodeInput(step.sibling, cur) else NodeInput(cur, step.sibling)
  }

  /** The root that a proof leads to from `cur`. */
  function Fold(hash: bytes -> bytes, cur: bytes, proof: seq<Step>): bytes
    decreases |proof|
  {
    if proof == [] then cur else Fold(hash, hash(Combine(cur, proof[0])), proof[1..])
  }

  // ---- The code ----

  method BuildNext(hash: bytes -> bytes, level: seq<bytes>) returns (next: seq<bytes>)
    ensures next == NextLevel(hash, level)
  {
    next := [];
    var i := 0;
    while i < |level|
      invariant i == 2 * |next| && |next| <= (|level| + 1) / 2
      invariant forall k :: 0 <= k < |next| ==> next[k] == NextLevel(hash, level)[k]
    {
      if i + 1 < |level| {
        next := next + [hash(NodeInput(level[i], level[i + 1]))];
      } else {
        next := next + [hash(NodeInput(level[i], level[i]))];
      }
      i := i + 2;
    }
  }

  method MerkleRoot(hash: bytes -> bytes, leaves: seq<bytes>) returns (root: Option<bytes>)
    ensures root == if leaves == [] then None else Some(RootOf(hash, LeafHashes(hash, leaves)))
  {
    if leaves == [] {
      return None;
    }
    var level := LeafHashes(hash, leaves);
    while |level| > 1
      invariant level != [] && RootOf(hash, level) == RootOf(hash, LeafHashes(hash, leaves))
      decreases |level|
    {
      level := BuildNext(hash, level);
    }
    root := Some(level[0]);
  }

  method MerkleProof(hash: bytes -> bytes, leaves: seq<bytes>, index: nat) returns (proof: Option<seq<Step>>)
    ensures proof == if index < |leaves| then Some(Path(hash, LeafHashes(hash, leaves), index)) else None
  {
    hide Path, NextLevel;
    if leaves == [] || index >= |leaves| {
      return None;
    }
    var level := LeafHashes(hash, leaves);
    var steps: seq<Step> := [];
    var idx: nat := index;
    assert [] + Path(hash, level, idx) == Path(hash, level, idx);
    while |level| > 1
      invariant idx < |level|
      invariant steps + Path(hash, level, idx) == Path(hash, LeafHashes(hash, leaves), index)
      decreases |level|
    {
      var other := if idx % 2 == 0 then idx + 1 else idx - 1;
      var sibling := if other < |level| then level[other] else level[idx];
      assert FirstStep(level, idx) == Step(sibling, idx % 2 == 1);
      PathStep(hash, level, idx, steps);
      steps := steps + [Step(sibling, idx % 2 == 1)];
      level := BuildNext(hash, level);
      idx := idx / 2;
    }
    PathDone(hash, level, idx);
    assert steps + [] == steps;
    proof := Some(steps);
  }

  lemma PathStep(hash: bytes -> bytes, level: seq<bytes>, idx: nat, steps: seq<Step>)
    requires idx < |level| && |level| > 1
    ensures steps + Path(hash, level, idx)
         == (steps + [FirstStep(level, idx)]) + Path(hash, NextLevel(hash, level), idx / 2)
  {
    hide FirstStep, NextLevel;
    var rest := Path(hash, NextLevel(hash, level), idx / 2);
    assert steps + ([FirstStep(level, idx)] + rest) == (steps + [FirstStep(level, idx)]) + rest;
  }

  lemma PathDone(hash: bytes -> bytes, level: seq<bytes>, idx: nat)
    requires idx < |level| && |level| == 1
    ensures Path(hash, level, idx) == []
  {
  }

  method MerkleVerify(hash: bytes -> bytes, root: bytes, data: bytes, proof: seq<Step>) returns (ok: bool)
    ensures ok <==> Fold(hash, hash(LeafInput(data)), proof) == root
  {
    var current := hash(LeafInput(data));
    assert proof[0..] == proof;
    for i := 0 to |proof|
      invariant Fold(hash, hash(LeafInput(data)), proof) == Fold(hash, current, proof[i..])
    {
      assert proof[i..][0] == proof[i] && proof[i..][1..] == proof[i + 1..];
      if proof[i].isLeft {
        current := hash(NodeInput(proof[i].sibling, current));
      } else {
        current := hash(NodeInput(current, proof[i].sibling));
      }
    }
    ok := current == root;
  }

  // ---- Completeness ----

  /** The generated proof leads from its leaf to the root. */
  lemma {:induction false} PathLeadsToRoot(hash: bytes -> bytes, level: seq<bytes>, idx: nat)
    requires idx < |level|
    ensures Fold(hash, level[idx], Path(hash, level, idx)) == RootOf(hash, level)
    decreases |level|
  {
    if |level| > 1 {
      hide Combine, FirstStep, NextLevel;
      var path := Path(hash, level, idx);
      assert path[1..] == Path(hash, NextLevel(hash, level), idx / 2);
      StepUp(hash, level, idx);
      PathLeadsToRoot(hash, NextLevel(hash, level), idx / 2);
    }
  }

  lemma {:induction false} ProofVerifies(hash: bytes -> bytes, leaves: seq<bytes>, index: nat)
    requires index < |leaves|
    ensures Fold(hash, hash(LeafInput(leaves[index])), Path(hash, LeafHashes(hash, leaves), index))
         == RootOf(hash, LeafHashes(hash, leaves))
  {
    PathLeadsToRoot(hash, LeafHashes(hash, leaves), index);
  }

  /** What is hashed: leaves behind a zero byte, pairs behind a one, left before right, and an odd one with itself. */
  lemma SmallRoots(hash: bytes -> bytes, a: bytes, b: bytes, c: bytes)
    ensures
      var x, y, z := hash([0] + a), hash([0] + b), hash([0] + c);
      && RootOf(hash, LeafHashes(hash, [a])) == x
      && RootOf(hash, LeafHashes(hash, [a, b])) == hash([1] + x + y)
      && RootOf(hash, LeafHashes(hash, [a, b, c])) == hash([1] + hash([1] + x + y) + hash([1] + z + z))
  {
    var x, y, z := hash([0] + a), hash([0] + b), hash([0] + c);
    assert LeafHashes(hash, [a]) == [x] && LeafHashes(hash, [a, b]) == [x, y];
    assert LeafHashes(hash, [a, b, c]) == [x, y, z];
    assert NextLevel(hash, [x, y]) == [hash([1] + x + y)];
    var two := [hash([1] + x + y), hash([1] + z + z)];
    assert NextLevel(hash, [x, y, z]) == two;
    assert NextLevel(hash, two) == [hash([1] + two[0] + two[1])];
    assert RootOf(hash, [x, y, z]) == RootOf(hash, two) == RootOf(hash, NextLevel(hash, two));
  }

  // ---- Soundness, on hash inputs that do not collide ----

  ghost predicate Digests(hash: bytes -> bytes) {
    forall x :: |hash(x)| == DIGEST_LEN
  }

  ghost predicate AllDigests(level: seq<bytes>) {
    forall i :: 0 <= i < |level| ==> |level[i]| == DIGEST_LEN
  }

  ghost predicate ProofSized(proof: seq<Step>) {
    forall i :: 0 <= i < |proof| ==> |proof[i].sibling| == DIGEST_LEN
  }

  /** Everything hashed while going up from `level` is in `s`. */
  ghost predicate TreeInputs(hash: bytes -> bytes, level: seq<bytes>, s: set<bytes>)
    decreases |level|
  {
    |level| > 1 ==>
      && (forall k :: 0 <= k < |NextLevel(hash, level)| ==> NodeInput(level[2 * k], Partner(level, 2 * k)) in s)
      && TreeInputs(hash, NextLevel(hash, level), s)
  }

  ghost predicate LeafInputs(leaves: seq<bytes>, s: set<bytes>) {
    forall i :: 0 <= i < |leaves| ==> LeafInput(leaves[i]) in s
  }

  /** Everything hashed while following a proof from `cur` is in `s`. */
  ghost predicate ProofInputs(hash: bytes -> bytes, cur: bytes, proof: seq<Step>, s: set<bytes>)
    decreases |proof|
  {
    proof != [] ==> Combine(cur, proof[0]) in s && ProofInputs(hash, hash(Combine(cur, proof[0])), proof[1..], s)
  }

  lemma NodeInputInjective(a: bytes, b: bytes, c: bytes, d: bytes)
    requires |a| == |c| == DIGEST_LEN && NodeInput(a, b) == NodeInput(c, d)
    ensures a == c && b == d
  {
    assert NodeInput(a, b)[1..1 + DIGEST_LEN] == a && NodeInput(c, d)[1..1 + DIGEST_LEN] == c;
    assert NodeInput(a, b)[1 + DIGEST_LEN..] == b && NodeInput(c, d)[1 + DIGEST_LEN..] == d;
  }

  lemma LeafInputInjective(a: bytes, b: bytes)
    requires LeafInput(a) == LeafInput(b)
    ensures a == b
  {
    assert LeafInput(a)[1..] == a && LeafInput(b)[1..] == b;
  }

  lemma Domains(data: bytes, l: bytes, r: bytes)
    ensures LeafInput(data) != NodeInput(l, r)
  {
    assert LeafInput(data)[0] == LEAF_PREFIX && NodeInput(l, r)[0] == NODE_PREFIX;
  }

  /** Proofs of the same directions that lead to the same place start from the same place. */
  lemma {:induction false} SameFold(hash: bytes -> bytes, a: bytes, p: seq<Step>, b: bytes, q: seq<Step>, s: set<bytes>)
    requires Digests(hash) && CollisionFree(hash, s) && |a| == |b| == DIGEST_LEN && ProofSized(p) && ProofSized(q)
    requires |p| == |q| && forall i :: 0 <= i < |p| ==> p[i].isLeft == q[i].isLeft
    requires ProofInputs(hash, a, p, s) && ProofInputs(hash, b, q, s)
    requires Fold(hash, a, p) == Fold(hash, b, q)
    ensures a == b && p == q
    decreases |p|
  {
    if p != [] {
      SameFold(hash, hash(Combine(a, p[0])), p[1..], hash(Combine(b, q[0])), q[1..], s);
      if p[0].isLeft {
        NodeInputInjective(p[0].sibling, a, q[0].sibling, b);
      } else {
        NodeInputInjective(a, p[0].sibling, b, q[0].sibling);
      }
      assert p == [p[0]] + p[1..] && q == [q[0]] + q[1..];
    }
  }

  lemma {:induction false} PathInputs(hash: bytes -> bytes, level: seq<bytes>, idx: nat, s: set<bytes>)
    requires idx < |level| && AllDigests(level) && Digests(hash) && TreeInputs(hash, level, s)
    ensures ProofInputs(hash, level[idx], Path(hash, level, idx), s) && ProofSized(Path(hash, level, idx))
    decreases |level|
  {
    hide Combine, FirstStep, NodeInput, NextLevel, Partner;
    if |level| > 1 {
      var path, next := Path(hash, level, idx), NextLevel(hash, level);
      assert path[1..] == Path(hash, next, idx / 2);
      StepUp(hash, level, idx);
      SiblingSized(level, idx);
      PathInputs(hash, next, idx / 2, s);
      assert path == [path[0]] + path[1..];
    }
  }

  lemma SiblingSized(level: seq<bytes>, idx: nat)
    requires idx < |level| && AllDigests(level)
    ensures |FirstStep(level, idx).sibling| == DIGEST_LEN
  {
  }

  /** With the directions of leaf `index`, only that leaf with its own proof is accepted. */
  lemma {:induction false} OnlyThatLeaf(hash: bytes -> bytes, leaves: seq<bytes>, index: nat, data: bytes,
      proof: seq<Step>, s: set<bytes>)
    requires Digests(hash) && CollisionFree(hash, s) && index < |leaves| && ProofSized(proof)
    requires LeafInputs(leaves, s) && TreeInputs(hash, LeafHashes(hash, leaves), s)
    requires LeafInput(data) in s && ProofInputs(hash, hash(LeafInput(data)), proof, s)
    requires var path := Path(hash, LeafHashes(hash, leaves), index);
      |proof| == |path| && forall i :: 0 <= i < |path| ==> proof[i].isLeft == path[i].isLeft
    requires Fold(hash, hash(LeafInput(data)), proof) == RootOf(hash, LeafHashes(hash, leaves))
    ensures data == leaves[index] && proof == Path(hash, LeafHashes(hash, leaves), index)
  {
    var level := LeafHashes(hash, leaves);
    var path := Path(hash, level, index);
    PathInputs(hash, level, index, s);
    PathLeadsToRoot(hash, level, index);
    SameFold(hash, hash(LeafInput(data)), proof, level[index], path, s);
    LeafInputInjective(data, leaves[index]);
  }

  // ---- Any accepted proof at all shows a leaf of the list ----

  /** The value reached after the first `t` steps of a proof. */
  function After(hash: bytes -> bytes, cur: bytes, proof: seq<Step>, t: nat): bytes
    requires t <= |proof|
  {
    Fold(hash, cur, proof[..t])
  }

  lemma {:induction false} AfterStep(hash: bytes -> bytes, cur: bytes, proof: seq<Step>, t: nat, s: set<bytes>)
    requires t < |proof| && ProofInputs(hash, cur, proof, s)
    ensures After(hash, cur, proof, t + 1) == hash(Combine(After(hash, cur, proof, t), proof[t]))
    ensures Combine(After(hash, cur, proof, t), proof[t]) in s
    decreases t
  {
    if t == 0 {
      assert proof[..1] == [proof[0]] && proof[..0] == [];
      assert Fold(hash, cur, [proof[0]]) == Fold(hash, hash(Combine(cur, proof[0])), [proof[0]][1..]);
    } else {
      AfterStep(hash, hash(Combine(cur, proof[0])), proof[1..], t - 1, s);
      assert proof[..t + 1][1..] == proof[1..][..t] && proof[..t][1..] == proof[1..][..t - 1];
    }
  }

  lemma {:induction false} AfterSized(hash: bytes -> bytes, cur: bytes, proof: seq<Step>)
    requires Digests(hash) && |cur| == DIGEST_LEN
    ensures |Fold(hash, cur, proof)| == DIGEST_LEN
    decreases |proof|
  {
    if proof != [] {
      AfterSized(hash, hash(Combine(cur, proof[0])), proof[1..]);
    }
  }

  /** A proof from a leaf hash that leads to the root passes through every level. */
  lemma {:induction false} PassesThrough(hash: bytes -> bytes, level: seq<bytes>, data: bytes, proof: seq<Step>,
      s: set<bytes>)
    returns (t: nat, i: nat)
    requires Digests(hash) && CollisionFree(hash, s) && AllDigests(level) && level != []
    requires ProofSized(proof) && TreeInputs(hash, level, s)
    requires LeafInput(data) in s && ProofInputs(hash, hash(LeafInput(data)), proof, s)
    requires Fold(hash, hash(LeafInput(data)), proof) == RootOf(hash, level)
    ensures t <= |proof| && i < |level| && After(hash, hash(LeafInput(data)), proof, t) == level[i]
    decreases |level|
  {
    var cur := hash(LeafInput(data));
    if |level| == 1 {
      t, i := |proof|, 0;
      assert proof[..|proof|] == proof;
    } else {
      var k;
      t, k := PassesThrough(hash, NextLevel(hash, level), data, proof, s);
      t, i := OneLevelDown(hash, level, data, proof, s, t, k);
    }
  }

  lemma {:induction false} OneLevelDown(hash: bytes -> bytes, level: seq<bytes>, data: bytes, proof: seq<Step>,
      s: set<bytes>, t': nat, k: nat)
    returns (t: nat, i: nat)
    requires Digests(hash) && CollisionFree(hash, s) && AllDigests(level) && |level| > 1
    requires ProofSized(proof) && TreeInputs(hash, level, s)
    requires LeafInput(data) in s && ProofInputs(hash, hash(LeafInput(data)), proof, s)
    requires t' <= |proof| && k < |NextLevel(hash, level)|
    requires After(hash, hash(LeafInput(data)), proof, t') == NextLevel(hash, level)[k]
    ensures t <= |proof| && i < |level| && After(hash, hash(LeafInput(data)), proof, t) == level[i]
  {
    var cur := hash(LeafInput(data));
    var l, r := level[2 * k], Partner(level, 2 * k);
    assert NodeInput(l, r) in s;
    Domains(data, l, r);
    assert proof[..0] == [];
    assert t' > 0;
    t := t' - 1;
    AfterStep(hash, cur, proof, t, s);
    AfterSized(hash, cur, proof[..t]);
    var c := After(hash, cur, proof, t);
    if proof[t].isLeft {
      NodeInputInjective(proof[t].sibling, c, l, r);
      i := if 2 * k + 1 < |level| then 2 * k + 1 else 2 * k;
    } else {
      NodeInputInjective(c, proof[t].sibling, l, r);
      i := 2 * k;
    }
  }

  lemma AcceptedIsMember(hash: bytes -> bytes, leaves: seq<bytes>, data: bytes, proof: seq<Step>, s: set<bytes>)
    requires Digests(hash) && CollisionFree(hash, s) && leaves != [] && ProofSized(proof)
    requires LeafInputs(leaves, s) && TreeInputs(hash, LeafHashes(hash, leaves), s)
    requires LeafInput(data) in s && ProofInputs(hash, hash(LeafInput(data)), proof, s)
    requires Fold(hash, hash(LeafInput(data)), proof) == RootOf(hash, LeafHashes(hash, leaves))
    ensures data in leaves
  {
    var cur := hash(LeafInput(data));
    var t, i := PassesThrough(hash, LeafHashes(hash, leaves), data, proof, s);
    if t == 0 {
      assert proof[..0] == [];
    } else {
      AfterStep(hash, cur, proof, t - 1, s);
      var c := After(hash, cur, proof, t - 1);
      if proof[t - 1].isLeft {
        Domains(leaves[i], proof[t - 1].sibling, c);
      } else {
        Domains(leaves[i], c, proof[t - 1].sibling);
      }
    }
    LeafInputInjective(data, leaves[i]);
  }

  // ---- Roots commit to lists of a known length ----

  lemma {:induction false} SameRootSameLevel(hash: bytes -> bytes, a: seq<bytes>, b: seq<bytes>, s: set<bytes>)
    requires Digests(hash) && CollisionFree(hash, s) && AllDigests(a) && AllDigests(b)
    requires |a| == |b| > 0 && TreeInputs(hash, a, s) && TreeInputs(hash, b, s)
    requires RootOf(hash, a) == RootOf(hash, b)
    ensures a == b
    decreases |a|
  {
    if |a| > 1 {
      var m, n := NextLevel(hash, a), NextLevel(hash, b);
      SameRootSameLevel(hash, m, n, s);
      forall i | 0 <= i < |a|
        ensures a[i] == b[i]
      {
        var k := i / 2;
        assert m[k] == n[k];
        NodeInputInjective(a[2 * k], Partner(a, 2 * k), b[2 * k], Partner(b, 2 * k));
      }
    }
  }

  lemma SameRootSameLeaves(hash: bytes -> bytes, a: seq<bytes>, b: seq<bytes>, s: set<bytes>)
    requires Digests(hash) && CollisionFree(hash, s) && |a| == |b| > 0
    requires LeafInputs(a, s) && LeafInputs(b, s)
    requires TreeInputs(hash, LeafHashes(hash, a), s) && TreeInputs(hash, LeafHashes(hash, b), s)
    ensures RootOf(hash, LeafHashes(hash, a)) == RootOf(hash, LeafHashes(hash, b)) <==> a == b
  {
    if RootOf(hash, LeafHashes(hash, a)) == RootOf(hash, LeafHashes(hash, b)) {
      SameRootSameLevel(hash, LeafHashes(hash, a), LeafHashes(hash, b), s);
      forall i | 0 <= i < |a|
        ensures a[i] == b[i]
      {
        assert LeafHashes(hash, a)[i] == LeafHashes(hash, b)[i];
        LeafInputInjective(a[i], b[i]);
      }
    }
  }

  /** The length matters: repeating the last leaf of an odd list of at least three does not change the root. */
  lemma OddTailDoubles(hash: bytes -> bytes, leaves: seq<bytes>)
    requires |leaves| % 2 == 1 && |leaves| >= 3
    ensures RootOf(hash, LeafHashes(hash, leaves + [leaves[|leaves| - 1]])) == RootOf(hash, LeafHashes(hash, leaves))
  {
    var longer := leaves + [leaves[|leaves| - 1]];
    var a, b := LeafHashes(hash, leaves), LeafHashes(hash, longer);
    var m, n := NextLevel(hash, a), NextLevel(hash, b);
    forall k | 0 <= k < |m|
      ensures m[k] == n[k]
    {
      assert a[2 * k] == b[2 * k] && Partner(a, 2 * k) == Partner(b, 2 * k);
    }
    assert m == n;
  }
}

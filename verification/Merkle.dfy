/** Merkle roots over forensic records, and the inclusion proofs that lead to them. */
module Merkle {
  import opened Wrappers

  /** The hex digest of a string's bytes. */
  type Digest = string -> string

  /** The parent of two hashes. */
  function Combine(digest: Digest, left: string, right: string): string {
    digest(left + ":" + right)
  }

  /** One level up: neighbours combined in pairs, an odd last hash promoted unchanged. */
  function NextLevel(digest: Digest, hashes: seq<string>): (next: seq<string>)
    ensures |next| == (|hashes| + 1) / 2
  {
    if |hashes| <= 1 then hashes
    else [Combine(digest, hashes[0], hashes[1])] + NextLevel(digest, hashes[2..])
  }

  function Root(digest: Digest, hashes: seq<string>): string
    requires hashes != []
    decreases |hashes|
  {
    if |hashes| == 1 then hashes[0] else Root(digest, NextLevel(digest, hashes))
  }

  lemma {:induction false} NextLevelAt(digest: Digest, hashes: seq<string>, j: nat)
    requires j < (|hashes| + 1) / 2
    ensures NextLevel(digest, hashes)[j] ==
      if 2 * j + 1 < |hashes| then Combine(digest, hashes[2 * j], hashes[2 * j + 1]) else hashes[2 * j]
  {
    if |hashes| > 1 && j > 0 {
      NextLevelAt(digest, hashes[2..], j - 1);
    }
  }

  method MerkleRoot(digest: Digest, records: seq<string>) returns (root: Option<string>)
    ensures root == if records == [] then None else Some(Root(digest, records))
  {
    hide NextLevel, Combine;
    if records == [] {
      return None;
    }
    var hashes := records;
    while |hashes| > 1
      invariant hashes != [] && Root(digest, hashes) == Root(digest, records)
      decreases |hashes|
    {
      ghost var level := NextLevel(digest, hashes);
      var next, i := [], 0;
      while i < |hashes|
        invariant 0 <= i <= |hashes| && |next| <= |level| && next == level[..|next|]
        invariant i == 2 * |next| || i == |hashes| == 2 * |next| - 1
      {
        NextLevelAt(digest, hashes, |next|);
        if i + 1 < |hashes| {
          next := next + [Combine(digest, hashes[i], hashes[i + 1])];
          i := i + 2;
        } else {
          next := next + [hashes[i]];
          i := i + 1;
        }
      }
      assert next == level;
      hashes := next;
    }
    return Some(hashes[0]);
  }

  /** Three records: the first two are hashed together, the third is promoted and hashed with them. */
  lemma RootOfThree(digest: Digest, a: string, b: string, c: string)
    ensures Root(digest, [a, b, c]) == digest(digest(a + ":" + b) + ":" + c)
  {
    var hashes := [a, b, c];
    assert hashes[2..] == [c];
    var next := NextLevel(digest, hashes);
    assert next == [Combine(digest, a, b)] + NextLevel(digest, [c]) == [digest(a + ":" + b), c];
    assert next[2..] == [];
    var top := NextLevel(digest, next);
    assert top == [Combine(digest, next[0], next[1])] + NextLevel(digest, []);
    assert Root(digest, hashes) == Root(digest, next) == Root(digest, top) == top[0];
  }

  /******* Proofs *******/

  datatype Sibling = Sibling(hash: string, isRight: bool)

  /** The sibling of position `idx`, if it has one on this level. */
  function SiblingAt(hashes: seq<string>, idx: nat): seq<Sibling>
    requires idx < |hashes|
  {
    if idx % 2 == 1 then [Sibling(hashes[idx - 1], false)]
    else if idx + 1 < |hashes| then [Sibling(hashes[idx + 1], true)]
    else []
  }

  function Proof(digest: Digest, hashes: seq<string>, idx: nat): seq<Sibling>
    requires idx < |hashes|
    decreases |hashes|
  {
    if |hashes| == 1 then []
    else SiblingAt(hashes, idx) + Proof(digest, NextLevel(digest, hashes), idx / 2)
  }

  lemma ProofStep(digest: Digest, hashes: seq<string>, idx: nat, before: seq<Sibling>)
    requires idx < |hashes| && |hashes| > 1
    ensures (before + SiblingAt(hashes, idx)) + Proof(digest, NextLevel(digest, hashes), idx / 2)
      == before + Proof(digest, hashes, idx)
  {
  }

  lemma ProofEnds(digest: Digest, hashes: seq<string>, idx: nat, proof: seq<Sibling>)
    requires |hashes| == 1 && idx == 0
    ensures proof + Proof(digest, hashes, idx) == proof
  {
  }

  /** The proof is collected in one pass per level; positions past the target add nothing. */
  method MerkleProof(digest: Digest, records: seq<string>, target: nat) returns (proof: seq<Sibling>)
    ensures proof == if target < |records| then Proof(digest, records, target) else []
  {
    hide NextLevel, Combine, Proof;
    if records == [] || target >= |records| {
      return [];
    }
    var hashes, idx: nat := records, target;
    proof := [];
    assert proof + Proof(digest, hashes, idx) == Proof(digest, records, target);
    while |hashes| > 1
      invariant idx < |hashes| && proof + Proof(digest, hashes, idx) == Proof(digest, records, target)
      decreases |hashes|
    {
      ghost var before, level := proof, NextLevel(digest, hashes);
      var next, i, newIdx: nat := [], 0, 0;
      while i < |hashes|
        invariant 0 <= i <= |hashes| && |next| <= |level| && next == level[..|next|]
        invariant i == 2 * |next| || i == |hashes| == 2 * |next| - 1
        invariant proof == if i <= idx then before else before + SiblingAt(hashes, idx)
        invariant i > idx ==> newIdx == idx / 2
      {
        NextLevelAt(digest, hashes, |next|);
        if i + 1 < |hashes| {
          if i == idx {
            proof := proof + [Sibling(hashes[i + 1], true)];
            newIdx := |next|;
          } else if i + 1 == idx {
            proof := proof + [Sibling(hashes[i], false)];
            newIdx := |next|;
          }
          next := next + [Combine(digest, hashes[i], hashes[i + 1])];
          i := i + 2;
        } else {
          if i == idx {
            newIdx := |next|;
          }
          next := next + [hashes[i]];
          i := i + 1;
        }
      }
      assert next == level;
      ProofStep(digest, hashes, idx, before);
      hashes, idx := next, newIdx;
    }
    ProofEnds(digest, hashes, idx, proof);
  }

  /** Recomputing the root from one hash and its siblings, each on its stated side. */
  function Fold(digest: Digest, hash: string, proof: seq<Sibling>): string
    decreases |proof|
  {
    if proof == [] then hash
    else
      var s := proof[0];
      Fold(digest, if s.isRight then Combine(digest, hash, s.hash) else Combine(digest, s.hash, hash), proof[1..])
  }

  /** One level of a proof takes a hash to its parent, or leaves a promoted one as it is. */
  lemma FoldLevel(digest: Digest, hashes: seq<string>, idx: nat, above: seq<Sibling>)
    requires idx < |hashes| && |hashes| > 1
    ensures Fold(digest, hashes[idx], SiblingAt(hashes, idx) + above)
      == Fold(digest, NextLevel(digest, hashes)[idx / 2], above)
  {
    hide NextLevel;
    NextLevelAt(digest, hashes, idx / 2);
    var here := SiblingAt(hashes, idx);
    if here == [] {
      assert here + above == above;
    } else {
      assert (here + above)[1..] == above;
    }
  }

  /** Every record's proof leads from its hash to the root, through any number of promoted odd hashes. */
  lemma {:induction false} ProofReachesRoot(digest: Digest, hashes: seq<string>, idx: nat)
    requires idx < |hashes|
    ensures Fold(digest, hashes[idx], Proof(digest, hashes, idx)) == Root(digest, hashes)
    decreases |hashes|
  {
    hide NextLevel, SiblingAt;
    if |hashes| > 1 {
      var next := NextLevel(digest, hashes);
      ProofReachesRoot(digest, next, idx / 2);
      FoldLevel(digest, hashes, idx, Proof(digest, next, idx / 2));
    }
  }

  function Pow2(k: nat): nat {
    if k == 0 then 1 else 2 * Pow2(k - 1)
  }

  /** A proof over at most 2^k records has at most k siblings. */
  lemma {:induction false} ProofIsShort(digest: Digest, hashes: seq<string>, idx: nat, k: nat)
    requires idx < |hashes| <= Pow2(k)
    ensures |Proof(digest, hashes, idx)| <= k
    decreases |hashes|
  {
    if |hashes| > 1 {
      ProofIsShort(digest, NextLevel(digest, hashes), idx / 2, k - 1);
    }
  }

  /******* What a proof binds *******/

  predicate Plain(s: string) {
    ':' !in s
  }

  predicate AllPlain(proof: seq<Sibling>) {
    forall i :: 0 <= i < |proof| ==> Plain(proof[i].hash)
  }

  predicate SameSides(p: seq<Sibling>, q: seq<Sibling>) {
    |p| == |q| && forall i :: 0 <= i < |p| ==> p[i].isRight == q[i].isRight
  }

  /** The string hashed with the first sibling of a proof. */
  function Paired(hash: string, s: Sibling): string {
    if s.isRight then hash + ":" + s.hash else s.hash + ":" + hash
  }

  /** The strings hashed while folding a proof. */
  function Inputs(digest: Digest, hash: string, proof: seq<Sibling>): (inputs: seq<string>)
    ensures |inputs| == |proof|
    decreases |proof|
  {
    if proof == [] then []
    else
      var u := Paired(hash, proof[0]);
      [u] + Inputs(digest, digest(u), proof[1..])
  }

  /** Somewhere along two foldings, different strings with one digest were hashed. */
  ghost predicate Collide(digest: Digest, x: string, p: seq<Sibling>, y: string, q: seq<Sibling>)
    requires |p| == |q|
  {
    var us, vs := Inputs(digest, x, p), Inputs(digest, y, q);
    exists i :: 0 <= i < |p| && us[i] != vs[i] && digest(us[i]) == digest(vs[i])
  }

  lemma FirstColon(a: string, b: string)
    requires Plain(a)
    ensures var s := a + ":" + b; s[|a|] == ':' && forall k :: 0 <= k < |a| ==> s[k] != ':'
  {
    var s := a + ":" + b;
    assert forall k :: 0 <= k < |a| ==> s[k] == a[k] && a[k] in a;
  }

  /** Hex hashes cannot be moved across the separator. */
  lemma SeparatorSplits(a: string, b: string, c: string, d: string)
    requires Plain(a) && Plain(c) && a + ":" + b == c + ":" + d
    ensures a == c && b == d
  {
    var s, t := a + ":" + b, c + ":" + d;
    FirstColon(a, b);
    FirstColon(c, d);
    assert |a| == |c|;
    assert s[..|a|] == a && t[..|c|] == c && s[|a| + 1..] == b && t[|c| + 1..] == d;
  }

  lemma CollideLater(digest: Digest, x: string, p: seq<Sibling>, y: string, q: seq<Sibling>)
    requires |p| == |q| > 0
    requires Collide(digest, digest(Paired(x, p[0])), p[1..], digest(Paired(y, q[0])), q[1..])
    ensures Collide(digest, x, p, y, q)
  {
    var us, vs := Inputs(digest, x, p), Inputs(digest, y, q);
    var i :| 0 <= i < |p[1..]| && us[1..][i] != vs[1..][i] && digest(us[1..][i]) == digest(vs[1..][i]);
    assert us[i + 1] != vs[i + 1];
  }

  /** Two proofs with the same sides that lead to one hash are the same proof of the same hash, unless two different
      strings hashed along the way have one digest. */
  lemma {:induction false} ProofBinds(digest: Digest, x: string, p: seq<Sibling>, y: string, q: seq<Sibling>)
    requires SameSides(p, q) && AllPlain(p) && AllPlain(q) && Plain(x) && Plain(y)
    requires forall s :: Plain(digest(s))
    requires Fold(digest, x, p) == Fold(digest, y, q)
    ensures (x == y && p == q) || Collide(digest, x, p, y, q)
    decreases |p|
  {
    hide Paired, Collide, Plain;
    if p != [] {
      var u, v := Paired(x, p[0]), Paired(y, q[0]);
      FoldOnce(digest, x, p);
      FoldOnce(digest, y, q);
      assert SameSides(p[1..], q[1..]) && AllPlain(p[1..]) && AllPlain(q[1..]);
      ProofBinds(digest, digest(u), p[1..], digest(v), q[1..]);
      if Collide(digest, digest(u), p[1..], digest(v), q[1..]) {
        CollideLater(digest, x, p, y, q);
      } else if u == v {
        PairedSplits(x, p[0], y, q[0]);
        assert p == [p[0]] + p[1..] && q == [q[0]] + q[1..];
      } else {
        CollideFirst(digest, x, p, y, q);
      }
    }
  }

  lemma FoldOnce(digest: Digest, hash: string, proof: seq<Sibling>)
    requires proof != []
    ensures Fold(digest, hash, proof) == Fold(digest, digest(Paired(hash, proof[0])), proof[1..])
  {
  }

  lemma CollideFirst(digest: Digest, x: string, p: seq<Sibling>, y: string, q: seq<Sibling>)
    requires |p| == |q| > 0 && Paired(x, p[0]) != Paired(y, q[0])
    requires digest(Paired(x, p[0])) == digest(Paired(y, q[0]))
    ensures Collide(digest, x, p, y, q)
  {
    assert Inputs(digest, x, p)[0] == Paired(x, p[0]) && Inputs(digest, y, q)[0] == Paired(y, q[0]);
  }

  lemma PairedSplits(x: string, s: Sibling, y: string, t: Sibling)
    requires s.isRight == t.isRight && Plain(x) && Plain(y) && Plain(s.hash) && Plain(t.hash)
    requires Paired(x, s) == Paired(y, t)
    ensures x == y && s == t
  {
    if s.isRight {
      SeparatorSplits(x, s.hash, y, t.hash);
    } else {
      SeparatorSplits(s.hash, x, t.hash, y);
    }
  }

  lemma {:induction false} ProofIsPlain(digest: Digest, hashes: seq<string>, idx: nat)
    requires idx < |hashes| && (forall i :: 0 <= i < |hashes| ==> Plain(hashes[i])) && forall s :: Plain(digest(s))
    ensures AllPlain(Proof(digest, hashes, idx))
    decreases |hashes|
  {
    if |hashes| > 1 {
      var next := NextLevel(digest, hashes);
      forall j | 0 <= j < |next|
        ensures Plain(next[j])
      {
        NextLevelAt(digest, hashes, j);
      }
      ProofIsPlain(digest, next, idx / 2);
    }
  }

  /** Whatever siblings are offered, on the sides of position `idx` only that record's hash leads to the root,
      unless hashing them collides with hashing the record's own proof. */
  lemma OnlyTheRecordProves(digest: Digest, hashes: seq<string>, idx: nat, x: string, p: seq<Sibling>)
    requires idx < |hashes| && (forall i :: 0 <= i < |hashes| ==> Plain(hashes[i])) && forall s :: Plain(digest(s))
    requires Plain(x) && AllPlain(p) && SameSides(p, Proof(digest, hashes, idx))
    requires Fold(digest, x, p) == Root(digest, hashes)
    ensures x == hashes[idx] || Collide(digest, x, p, hashes[idx], Proof(digest, hashes, idx))
  {
    ProofReachesRoot(digest, hashes, idx);
    ProofIsPlain(digest, hashes, idx);
    ProofBinds(digest, x, p, hashes[idx], Proof(digest, hashes, idx));
  }

  /******* Inclusion proofs for a selection of records *******/

  datatype Record = Record(id: nat, hash: string)

  datatype Inclusion = Inclusion(recordId: nat, chainIndex: nat, recordHash: string, siblings: seq<Sibling>)

  function Hashes(chain: seq<Record>): (hs: seq<string>)
    ensures |hs| == |chain|
  {
    seq(|chain|, i requires 0 <= i < |chain| => chain[i].hash)
  }

  /** The first record with the id. */
  function IndexById(chain: seq<Record>, id: nat): (index: Option<nat>)
    ensures index.None? ==> forall i :: 0 <= i < |chain| ==> chain[i].id != id
    ensures index.Some? ==>
      index.value < |chain| && chain[index.value].id == id && forall i :: 0 <= i < index.value ==> chain[i].id != id
  {
    if chain == [] then None
    else if chain[0].id == id then Some(0)
    else
      var rest := IndexById(chain[1..], id);
      if rest.Some? then Some(rest.value + 1) else None
  }

  function InclusionOf(digest: Digest, chain: seq<Record>, r: Record): Option<Inclusion> {
    var index := IndexById(chain, r.id);
    if index.None? then None
    else Some(Inclusion(r.id, index.value, r.hash, Proof(digest, Hashes(chain), index.value)))
  }

  /** The inclusion proofs of the selected records that are in the chain. */
  function InclusionProofs(digest: Digest, chain: seq<Record>, records: seq<Record>): seq<Inclusion> {
    if records == [] then []
    else
      var here := InclusionOf(digest, chain, records[0]);
      (if here.Some? then [here.value] else []) + InclusionProofs(digest, chain, records[1..])
  }

  ghost predicate InChain(chain: seq<Record>, r: Record) {
    exists i :: 0 <= i < |chain| && chain[i] == r
  }

  ghost predicate DistinctIds(chain: seq<Record>) {
    forall i, j :: 0 <= i < j < |chain| ==> chain[i].id != chain[j].id
  }

  predicate LeadsToRoot(digest: Digest, chain: seq<Record>, p: Inclusion) {
    chain != [] && Fold(digest, p.recordHash, p.siblings) == Root(digest, Hashes(chain))
  }

  /** The inclusion names the record, its place in the chain and its hash, and carries the proof of that place. */
  predicate Includes(digest: Digest, chain: seq<Record>, r: Record, p: Inclusion) {
    && p.recordId == r.id && p.recordHash == r.hash && p.chainIndex < |chain| && chain[p.chainIndex] == r
    && p.siblings == Proof(digest, Hashes(chain), p.chainIndex)
  }

  /** A record whose id is not in the chain gets no proof. */
  lemma AbsentHasNone(digest: Digest, chain: seq<Record>, r: Record)
    ensures InclusionOf(digest, chain, r).None? <==> forall i :: 0 <= i < |chain| ==> chain[i].id != r.id
  {
  }

  /** Selecting by id: proofs are made for the records that are in the chain, in the order they are given. */
  lemma {:induction false} SelectionSplits(digest: Digest, chain: seq<Record>, xs: seq<Record>, ys: seq<Record>)
    ensures InclusionProofs(digest, chain, xs + ys)
      == InclusionProofs(digest, chain, xs) + InclusionProofs(digest, chain, ys)
    decreases |xs|
  {
    hide InclusionOf;
    assert InclusionProofs(digest, chain, []) == [];
    if xs == [] {
      assert xs + ys == ys;
    } else {
      assert (xs + ys)[1..] == xs[1..] + ys;
      SelectionSplits(digest, chain, xs[1..], ys);
    }
  }

  lemma InclusionProves(digest: Digest, chain: seq<Record>, r: Record)
    requires DistinctIds(chain) && InChain(chain, r)
    ensures var p := InclusionOf(digest, chain, r);
      p.Some? && Includes(digest, chain, r, p.value) && LeadsToRoot(digest, chain, p.value)
  {
    var index := IndexById(chain, r.id);
    assert chain[index.value] == r;
    ProofReachesRoot(digest, Hashes(chain), index.value);
  }

  /** Records drawn from a chain with distinct ids get one proof each, in order, and each leads to the chain's root. */
  lemma {:induction false} InclusionsProve(digest: Digest, chain: seq<Record>, records: seq<Record>)
    requires DistinctIds(chain) && forall k :: 0 <= k < |records| ==> InChain(chain, records[k])
    ensures var ps := InclusionProofs(digest, chain, records);
      |ps| == |records| && forall k :: 0 <= k < |ps| ==>
        Includes(digest, chain, records[k], ps[k]) && LeadsToRoot(digest, chain, ps[k])
  {
    hide LeadsToRoot, InclusionOf, Includes;
    if records != [] {
      InclusionProves(digest, chain, records[0]);
      InclusionsProve(digest, chain, records[1..]);
    }
  }
}

/** Delegation chains of Cap-V1 capabilities. */
module Capability {

  /** Identifiers, digests and nonces are numbers here: only equality matters, and zero marks no parent. */
  type Id = nat
  type Digest = nat
  type Byte = x: int | 0 <= x < 256

  const ZERO_ID: Id := 0
  const VERSION_V1: Byte := 1
  const SUITE_HYB1: int := 1

  datatype CapV1 = CapV1(
    version: Byte, suiteId: int, capType: Byte, flags: bv8,
    issuerId: Id, subjectId: Id, parentId: Id, capId: Id,
    resourceId: Digest, action: bv32, maxDepth: Byte, constraints: Digest,
    notBefore: nat, notAfter: nat, nonce: Id, audienceId: Id)

  datatype PublicKey = PublicKey(id: Id, rest: nat)

  /** The leading 16 bytes of a key. */
  function KeyId(pk: PublicKey): Id { pk.id }

  predicate IsRoot(c: CapV1) { c.parentId == ZERO_ID }

  /** Bit 0 of the flags: the holder may re-delegate. */
  predicate MayDelegate(c: CapV1) { c.flags & 1 != 0 }

  /** Is child a well-formed re-delegation of parent? */
  predicate ValidDelegation(parent: CapV1, child: CapV1) {
    && child.issuerId == parent.subjectId
    && child.parentId == parent.capId
    && child.resourceId == parent.resourceId
    && child.audienceId == parent.audienceId
    && child.suiteId == parent.suiteId
    && child.capType == parent.capType
    && child.constraints == parent.constraints
    && MayDelegate(parent)
    && child.flags & !parent.flags == 0
    && parent.maxDepth > 0
    && child.maxDepth < parent.maxDepth
    && child.action & !parent.action == 0
    && child.notBefore >= parent.notBefore
    && child.notAfter <= parent.notAfter
    && child.notBefore <= child.notAfter
  }

  /** What every descendant keeps from its root. */
  predicate ChainInvariant(root: CapV1, x: CapV1) {
    && x.action & !root.action == 0
    && x.flags & !root.flags == 0
    && x.maxDepth <= root.maxDepth
    && x.notBefore >= root.notBefore
    && x.notAfter <= root.notAfter
    && x.resourceId == root.resourceId
    && x.audienceId == root.audienceId
    && x.suiteId == root.suiteId
    && x.capType == root.capType
    && x.constraints == root.constraints
  }

  predicate AcceptLeaf(c: CapV1, verifierId: Id, now: nat, sigOk: bool) {
    sigOk && c.audienceId == verifierId && c.notBefore <= now <= c.notAfter
  }

  predicate AcceptLeafSigned(c: CapV1, verifierId: Id, now: nat, pk: PublicKey, sigOk: bool) {
    KeyId(pk) == c.issuerId && AcceptLeaf(c, verifierId, now, sigOk)
  }

  predicate ValidFieldValues(c: CapV1) {
    c.version == VERSION_V1 && c.suiteId == SUITE_HYB1
  }

  /** Every adjacent pair is a valid delegation. */
  predicate Linked(caps: seq<CapV1>) {
    forall i :: 0 < i < |caps| ==> ValidDelegation(caps[i - 1], caps[i])
  }

  /** What the chain gate demands: a root, all signatures, all links, and the leaf gate on the last. */
  predicate ChainAccepted(caps: seq<CapV1>, verifierId: Id, now: nat, sigsOk: seq<bool>)
    requires |caps| == |sigsOk|
  {
    && |caps| > 0 && IsRoot(caps[0])
    && (forall i :: 0 <= i < |sigsOk| ==> sigsOk[i])
    && Linked(caps)
    && AcceptLeaf(caps[|caps| - 1], verifierId, now, sigsOk[|caps| - 1])
  }

  predicate KeysBound(caps: seq<CapV1>, pks: seq<PublicKey>)
    requires |caps| == |pks|
  {
    forall i :: 0 <= i < |caps| ==> KeyId(pks[i]) == caps[i].issuerId
  }

  method AcceptChain(caps: seq<CapV1>, verifierId: Id, now: nat, sigsOk: seq<bool>) returns (ok: bool)
    requires |caps| == |sigsOk|
    ensures ok <==> ChainAccepted(caps, verifierId, now, sigsOk)
  {
    hide ValidDelegation;
    var n := |caps|;
    if n == 0 || !IsRoot(caps[0]) { return false; }
    var i := 0;
    while i < n
      invariant 0 <= i <= n && forall j :: 0 <= j < i ==> sigsOk[j]
    {
      if !sigsOk[i] { return false; }
      i := i + 1;
    }
    i := 1;
    while i < n
      invariant 1 <= i <= n && forall j :: 0 < j < i ==> ValidDelegation(caps[j - 1], caps[j])
    {
      if !ValidDelegation(caps[i - 1], caps[i]) { return false; }
      i := i + 1;
    }
    return AcceptLeaf(caps[n - 1], verifierId, now, sigsOk[n - 1]);
  }

  method AcceptChainSigned(caps: seq<CapV1>, verifierId: Id, now: nat, pks: seq<PublicKey>, sigsOk: seq<bool>)
    returns (ok: bool)
    requires |caps| == |sigsOk| == |pks|
    ensures ok <==> KeysBound(caps, pks) && ChainAccepted(caps, verifierId, now, sigsOk)
  {
    var i := 0;
    while i < |caps|
      invariant 0 <= i <= |caps| && forall j :: 0 <= j < i ==> KeyId(pks[j]) == caps[j].issuerId
    {
      if KeyId(pks[i]) != caps[i].issuerId { return false; }
      i := i + 1;
    }
    ok := AcceptChain(caps, verifierId, now, sigsOk);
  }

  // ---------- what an accepted chain of any length guarantees ----------

  lemma InvariantStep(root: CapV1, x: CapV1, child: CapV1)
    requires ChainInvariant(root, x) && ValidDelegation(x, child)
    ensures ChainInvariant(root, child)
  {
    SubsetTrans32(child.action, x.action, root.action);
    SubsetTrans8(child.flags, x.flags, root.flags);
  }

  lemma SubsetTrans32(a: bv32, b: bv32, c: bv32)
    requires a & !b == 0 && b & !c == 0
    ensures a & !c == 0
  {
    assert a & !c == (a & !b & !c) | (a & b & !c);
  }

  lemma SubsetTrans8(a: bv8, b: bv8, c: bv8)
    requires a & !b == 0 && b & !c == 0
    ensures a & !c == 0
  {
    assert a & !c == (a & !b & !c) | (a & b & !c);
  }

  lemma InvariantRefl(c: CapV1)
    ensures ChainInvariant(c, c)
  {
  }

  /** Authority only shrinks along a chain, and every link spends depth. */
  lemma {:induction false} Attenuates(caps: seq<CapV1>, i: nat, j: nat)
    requires Linked(caps) && i <= j < |caps|
    ensures ChainInvariant(caps[i], caps[j])
    ensures caps[i].maxDepth >= caps[j].maxDepth + (j - i)
    decreases j
  {
    hide ChainInvariant;
    if i == j {
      InvariantRefl(caps[i]);
    } else {
      Attenuates(caps, i, j - 1);
      assert ValidDelegation(caps[j - 1], caps[j]);
      InvariantStep(caps[i], caps[j - 1], caps[j]);
    }
  }

  /** For every length: an accepted chain begins at a root and every signature in it is good; it attenuates pairwise,
      has distinct links and at most root depth + 1 of them; every link's window contains now and its audience is the
      verifier, though only the leaf is checked. */
  lemma AcceptedChain(caps: seq<CapV1>, verifierId: Id, now: nat, sigsOk: seq<bool>)
    requires |caps| == |sigsOk| && ChainAccepted(caps, verifierId, now, sigsOk)
    ensures forall i, j :: 0 <= i < j < |caps| ==>
      && ChainInvariant(caps[i], caps[j])
      && caps[i].maxDepth >= caps[j].maxDepth + (j - i)
      && caps[i] != caps[j]
    ensures |caps| <= caps[0].maxDepth + 1 <= 256
    ensures forall i :: 0 <= i < |caps| ==>
      caps[i].notBefore <= now <= caps[i].notAfter && caps[i].audienceId == verifierId
    ensures forall i :: 0 <= i < |caps| - 1 ==> caps[i].flags & 1 == 1
    ensures caps != [] && caps[0].parentId == 0 && forall i :: 0 <= i < |sigsOk| ==> sigsOk[i]
  {
    var last := |caps| - 1;
    forall i, j | 0 <= i < j < |caps|
      ensures ChainInvariant(caps[i], caps[j]) && caps[i].maxDepth >= caps[j].maxDepth + (j - i) && caps[i] != caps[j]
    {
      Attenuates(caps, i, j);
    }
    Attenuates(caps, 0, last);
    forall i | 0 <= i < |caps|
      ensures caps[i].notBefore <= now <= caps[i].notAfter && caps[i].audienceId == verifierId
    {
      Attenuates(caps, i, last);
    }
    forall i | 0 <= i < |caps| - 1 ensures caps[i].flags & 1 == 1 {
      assert ValidDelegation(caps[i + 1 - 1], caps[i + 1]);
      LowBit(caps[i].flags);
    }
  }

  lemma LowBit(b: bv8)
    ensures b & 1 == 0 || b & 1 == 1
  {
  }

  // ---------- exactly which chains are accepted ----------

  /** The delegation bit is set, and each bit of the child is one of the parent's. */
  predicate BitsNarrow(flags: bv8, flags': bv8, action: bv32, action': bv32) {
    flags & 1 == 1 && flags | flags' == flags && action | action' == action
  }

  /** A re-delegation, field by field: what stays, what narrows, what is spent. */
  ghost predicate Narrows(parent: CapV1, child: CapV1) {
    && parent.subjectId == child.issuerId && parent.capId == child.parentId
    && parent.resourceId == child.resourceId && parent.audienceId == child.audienceId
    && parent.suiteId == child.suiteId && parent.capType == child.capType && parent.constraints == child.constraints
    && BitsNarrow(parent.flags, child.flags, parent.action, child.action)
    && child.maxDepth < parent.maxDepth
    && parent.notBefore <= child.notBefore <= child.notAfter <= parent.notAfter
  }

  lemma SubsetIs8(a: bv8, b: bv8)
    ensures a & !b == 0 <==> b | a == b
  {
  }

  lemma SubsetIs32(a: bv32, b: bv32)
    ensures a & !b == 0 <==> b | a == b
  {
  }

  lemma NarrowsIff(parent: CapV1, child: CapV1)
    ensures ValidDelegation(parent, child) <==> Narrows(parent, child)
  {
    BitsNarrowIff(parent.flags, child.flags, parent.action, child.action);
    hide BitsNarrow;
  }

  lemma BitsNarrowIff(flags: bv8, flags': bv8, action: bv32, action': bv32)
    ensures BitsNarrow(flags, flags', action, action') <==> flags & 1 != 0 && flags' & !flags == 0 && action' & !action == 0
  {
    SubsetIs8(flags', flags);
    SubsetIs32(action', action);
    LowBit(flags);
  }

  /** Acceptable chains, link by link: a signed root for this verifier that is in its window, and then one signed
      re-delegation after the other, each in its window. */
  ghost predicate Grown(caps: seq<CapV1>, verifierId: Id, now: nat, sigsOk: seq<bool>)
    requires |caps| == |sigsOk|
  {
    var n := |caps| - 1;
    && n >= 0 && sigsOk[n] && caps[n].notBefore <= now <= caps[n].notAfter
    && if n == 0 then caps[0].parentId == 0 && caps[0].audienceId == verifierId
       else Narrows(caps[n - 1], caps[n]) && Grown(caps[..n], verifierId, now, sigsOk[..n])
  }

  /** Exactly these are accepted. */
  lemma {:induction false} AcceptedIffGrown(caps: seq<CapV1>, verifierId: Id, now: nat, sigsOk: seq<bool>)
    requires |caps| == |sigsOk|
    ensures ChainAccepted(caps, verifierId, now, sigsOk) <==> Grown(caps, verifierId, now, sigsOk)
  {
    hide ValidDelegation, Narrows;
    var n := |caps| - 1;
    if n > 0 {
      AcceptedIffGrown(caps[..n], verifierId, now, sigsOk[..n]);
      NarrowsIff(caps[n - 1], caps[n]);
      LastLink(caps, verifierId, now, sigsOk);
    }
  }

  /** The last link against the chain before it. */
  lemma LastLink(caps: seq<CapV1>, verifierId: Id, now: nat, sigsOk: seq<bool>)
    requires |caps| == |sigsOk| && |caps| > 1
    ensures var n := |caps| - 1;
      ChainAccepted(caps, verifierId, now, sigsOk) <==>
        && ChainAccepted(caps[..n], verifierId, now, sigsOk[..n]) && ValidDelegation(caps[n - 1], caps[n])
        && sigsOk[n] && caps[n].notBefore <= now <= caps[n].notAfter
  {
    var n := |caps| - 1;
    var init := caps[..n];
    assert ValidDelegation(caps[n - 1], caps[n]) ==> Narrower(caps[n - 1], caps[n]);
    hide ValidDelegation;
    if Linked(caps) {
      forall i | 0 < i < n ensures ValidDelegation(init[i - 1], init[i]) { assert ValidDelegation(caps[i - 1], caps[i]); }
      assert ValidDelegation(caps[n - 1], caps[n]);
    }
    if Linked(init) && ValidDelegation(caps[n - 1], caps[n]) {
      forall i | 0 < i <= n ensures ValidDelegation(caps[i - 1], caps[i]) {
        if i < n { assert ValidDelegation(init[i - 1], init[i]); }
      }
    }
  }

  predicate Narrower(parent: CapV1, child: CapV1) {
    child.audienceId == parent.audienceId && parent.notBefore <= child.notBefore && child.notAfter <= parent.notAfter
  }

  /** One bad signature anywhere rejects the chain. */
  lemma BadSignatureRejects(caps: seq<CapV1>, verifierId: Id, now: nat, sigsOk: seq<bool>, i: nat)
    requires |caps| == |sigsOk| && i < |sigsOk|
    ensures !ChainAccepted(caps, verifierId, now, sigsOk[i := false])
  {
    assert !sigsOk[i := false][i];
  }

  /** Each signer is the agent the previous link delegated to. */
  lemma SignersChain(caps: seq<CapV1>, pks: seq<PublicKey>, i: nat)
    requires |caps| == |pks| && Linked(caps) && KeysBound(caps, pks) && 0 < i < |caps|
    ensures KeyId(pks[i]) == caps[i - 1].subjectId && caps[i].parentId == caps[i - 1].capId
  {
    assert ValidDelegation(caps[i - 1], caps[i]);
  }
}

/** The stateful gates of a Cap-V1 verifier: single use, revocation, and whole runs that mix them. */
module CapStore {
  import opened Common
  import opened Capability

  /** Replay key of a capability. */
  datatype Key = Key(capId: Id, nonce: Id)

  /** A bounded append-only log; Rust copies it, so its functions return the successor. */
  datatype Log<T> = Log(slots: seq<T>, len: nat)

  function ReplayKey(c: CapV1): Key { Key(c.capId, c.nonce) }

  /** The live prefix: a length beyond the capacity is treated as full. */
  function Live<T>(log: Log<T>): seq<T> {
    if log.len > |log.slots| then log.slots else log.slots[..log.len]
  }

  function Append<T>(log: Log<T>, x: T): Log<T>
    requires log.len < |log.slots|
  {
    Log(log.slots[log.len := x], log.len + 1)
  }

  function Empty<T>(cap: nat, zero: T): Log<T> {
    Log(seq(cap, _ => zero), 0)
  }

  /** store_contains and is_revoked: a scan of the live prefix. */
  method Contains<T(==)>(log: Log<T>, x: T) returns (found: bool)
    ensures found <==> x in Live(log)
  {
    var n := if log.len > |log.slots| then |log.slots| else log.len;
    var i := 0;
    while i < n
      invariant 0 <= i <= n && forall j :: 0 <= j < i ==> Live(log)[j] != x
    {
      if log.slots[i] == x { return true; }
      i := i + 1;
    }
    return false;
  }

  // ---------- decisions as functions of the stores ----------

  /** Consume a key for a presentation the stateless gate has judged. */
  function Once(gate: bool, key: Key, used: Log<Key>): (bool, Log<Key>) {
    if !gate || key in Live(used) || used.len >= |used.slots| then (false, used)
    else (true, Append(used, key))
  }

  function Revoked(list: Log<Id>, id: Id): (bool, Log<Id>) {
    if id in Live(list) then (true, list)
    else if list.len >= |list.slots| then (false, list)
    else (true, Append(list, id))
  }

  /** What is presented to the verifier. */
  datatype Op =
    | Leaf(cap: CapV1, verifierId: Id, now: nat, pk: PublicKey, sigOk: bool)
    | Chain(caps: seq<CapV1>, verifierId: Id, now: nat, pks: seq<PublicKey>, sigsOk: seq<bool>)
    | Revoke(id: Id)

  predicate WellSized(op: Op) {
    op.Chain? ==> |op.caps| == |op.pks| == |op.sigsOk|
  }

  function Links(op: Op): seq<CapV1> {
    match op
    case Leaf(c, _, _, _, _) => [c]
    case Chain(caps, _, _, _, _) => caps
    case Revoke(_) => []
  }

  /** The gates that look at no store. */
  predicate Stateless(op: Op)
    requires WellSized(op)
  {
    match op
    case Leaf(c, v, now, pk, ok) => ValidFieldValues(c) && AcceptLeafSigned(c, v, now, pk, ok)
    case Chain(caps, v, now, pks, oks) =>
      (forall i :: 0 <= i < |caps| ==> ValidFieldValues(caps[i])) && KeysBound(caps, pks) && ChainAccepted(caps, v, now, oks)
    case Revoke(_) => false
  }

  predicate NoneRevoked(op: Op, list: Log<Id>) {
    forall i :: 0 <= i < |Links(op)| ==> Links(op)[i].capId !in Live(list)
  }

  function LeafKey(op: Op): Key
    requires Links(op) != []
  {
    ReplayKey(Links(op)[|Links(op)| - 1])
  }

  method AcceptLeafOnce(c: CapV1, verifierId: Id, now: nat, sigOk: bool, used: Log<Key>) returns (ok: bool, next: Log<Key>)
    ensures (ok, next) == Once(AcceptLeaf(c, verifierId, now, sigOk), ReplayKey(c), used)
  {
    var key := ReplayKey(c);
    var seen := Contains(used, key);
    if !AcceptLeaf(c, verifierId, now, sigOk) || seen || used.len >= |used.slots| {
      return false, used;
    }
    next := Log(used.slots[used.len := key], used.len + 1);
    ok := true;
  }

  method AcceptChainOnce(caps: seq<CapV1>, verifierId: Id, now: nat, sigsOk: seq<bool>, used: Log<Key>)
    returns (ok: bool, next: Log<Key>)
    requires |caps| == |sigsOk|
    ensures (ok, next) == if caps == [] then (false, used)
      else Once(ChainAccepted(caps, verifierId, now, sigsOk), ReplayKey(caps[|caps| - 1]), used)
  {
    if |caps| == 0 { return false, used; }
    var key := ReplayKey(caps[|caps| - 1]);
    var gate := AcceptChain(caps, verifierId, now, sigsOk);
    var seen := Contains(used, key);
    if !gate || seen || used.len >= |used.slots| {
      return false, used;
    }
    next := Log(used.slots[used.len := key], used.len + 1);
    ok := true;
  }

  method RevokeId(list: Log<Id>, id: Id) returns (ok: bool, next: Log<Id>)
    ensures (ok, next) == Revoked(list, id)
  {
    var already := Contains(list, id);
    if already { return true, list; }
    if list.len >= |list.slots| { return false, list; }
    return true, Log(list.slots[list.len := id], list.len + 1);
  }

  /** The deployment gates as one function of both stores. */
  function Present(op: Op, used: Log<Key>, list: Log<Id>): (bool, Log<Key>)
    requires WellSized(op)
  {
    if Links(op) == [] then (false, used)
    else Once(NoneRevoked(op, list) && Stateless(op), LeafKey(op), used)
  }

  method AcceptLeafFull(c: CapV1, verifierId: Id, now: nat, pk: PublicKey, sigOk: bool, used: Log<Key>, list: Log<Id>)
    returns (ok: bool, next: Log<Key>)
    ensures (ok, next) == Present(Leaf(c, verifierId, now, pk, sigOk), used, list)
  {
    ghost var op := Leaf(c, verifierId, now, pk, sigOk);
    assert Links(op)[0] == c;
    var dead := Contains(list, c.capId);
    if dead || !ValidFieldValues(c) || !AcceptLeafSigned(c, verifierId, now, pk, sigOk) {
      return false, used;
    }
    ok, next := AcceptLeafOnce(c, verifierId, now, sigOk, used);
  }

  method AcceptChainFull(caps: seq<CapV1>, verifierId: Id, now: nat, pks: seq<PublicKey>, sigsOk: seq<bool>,
                         used: Log<Key>, list: Log<Id>)
    returns (ok: bool, next: Log<Key>)
    requires |caps| == |pks| == |sigsOk|
    ensures (ok, next) == Present(Chain(caps, verifierId, now, pks, sigsOk), used, list)
  {
    hide ChainAccepted, ValidFieldValues;
    ghost var op := Chain(caps, verifierId, now, pks, sigsOk);
    var i := 0;
    while i < |caps|
      invariant 0 <= i <= |caps|
      invariant forall j :: 0 <= j < i ==>
        caps[j].capId !in Live(list) && ValidFieldValues(caps[j]) && KeyId(pks[j]) == caps[j].issuerId
    {
      var dead := Contains(list, caps[i].capId);
      if dead || !ValidFieldValues(caps[i]) || KeyId(pks[i]) != caps[i].issuerId {
        assert Links(op)[i] == caps[i];
        assert !(NoneRevoked(op, list) && Stateless(op));
        return false, used;
      }
      i := i + 1;
    }
    ok, next := AcceptChainOnce(caps, verifierId, now, sigsOk, used);
  }

  // ---------- runs ----------

  datatype State = State(used: Log<Key>, revoked: Log<Id>)

  function Step(s: State, op: Op): (bool, State)
    requires WellSized(op)
  {
    if op.Revoke? then
      var (ok, list) := Revoked(s.revoked, op.id);
      (ok, s.(revoked := list))
    else
      var (ok, used) := Present(op, s.used, s.revoked);
      (ok, s.(used := used))
  }

  ghost predicate Sized(ops: seq<Op>) { forall op :: op in ops ==> WellSized(op) }

  /** State after a run from empty stores of capacity cap. */
  function After(cap: nat, ops: seq<Op>): State
    requires Sized(ops)
  {
    if ops == [] then State(Empty(cap, Key(0, 0)), Empty(cap, 0))
    else
      assert ops[|ops| - 1] in ops;
      assert Sized(ops[..|ops| - 1]);
      Step(After(cap, ops[..|ops| - 1]), ops[|ops| - 1]).1
  }

  /** Answer to operation i of a run. */
  predicate Answer(cap: nat, ops: seq<Op>, i: nat)
    requires Sized(ops) && i < |ops|
  {
    assert Sized(ops[..i]) && ops[i] in ops;
    Step(After(cap, ops[..i]), ops[i]).0
  }

  /** Keys of the accepted presentations, in order. */
  function AcceptedKeys(cap: nat, ops: seq<Op>): seq<Key>
    requires Sized(ops)
  {
    if ops == [] then []
    else
      var n := |ops| - 1;
      assert ops[n] in ops && Sized(ops[..n]);
      AcceptedKeys(cap, ops[..n]) + (if !ops[n].Revoke? && Answer(cap, ops, n) then [LeafKey(ops[n])] else [])
  }

  /** Identifiers newly revoked, in order. */
  function RevokedIds(cap: nat, ops: seq<Op>): seq<Id>
    requires Sized(ops)
  {
    if ops == [] then []
    else
      var n := |ops| - 1;
      assert ops[n] in ops && Sized(ops[..n]);
      var before := RevokedIds(cap, ops[..n]);
      before + (if ops[n].Revoke? && Answer(cap, ops, n) && ops[n].id !in before then [ops[n].id] else [])
  }

  /** The log holds exactly xs. */
  ghost predicate Holds<T>(log: Log<T>, cap: nat, xs: seq<T>) {
    |log.slots| == cap && log.len == |xs| <= cap && Live(log) == xs && Distinct(xs)
  }

  lemma HoldsAppend<T>(log: Log<T>, cap: nat, xs: seq<T>, x: T)
    requires Holds(log, cap, xs) && log.len < cap && x !in xs
    ensures Holds(Append(log, x), cap, xs + [x])
  {
  }

  /** One operation keeps both logs. */
  lemma StepHolds(s: State, op: Op, cap: nat, keys: seq<Key>, ids: seq<Id>)
    requires WellSized(op) && Holds(s.used, cap, keys) && Holds(s.revoked, cap, ids)
    ensures !op.Revoke? && Step(s, op).0 ==> Links(op) != []
    ensures Holds(Step(s, op).1.used, cap, keys + if !op.Revoke? && Step(s, op).0 then [LeafKey(op)] else [])
    ensures Holds(Step(s, op).1.revoked, cap, ids + if op.Revoke? && Step(s, op).0 && op.id !in ids then [op.id] else [])
  {
    hide Stateless, NoneRevoked, Append, LeafKey;
    assert keys + [] == keys && ids + [] == ids;
    if op.Revoke? {
      if op.id !in ids && s.revoked.len < cap { HoldsAppend(s.revoked, cap, ids, op.id); }
    } else if Step(s, op).0 {
      HoldsAppend(s.used, cap, keys, LeafKey(op));
    }
  }

  /** On every run the nonce store is the log of accepted leaf keys, the revocation list the log of
      revoked identifiers; each has no repetition and fits its capacity. */
  lemma {:induction false} StoresAreHistory(cap: nat, ops: seq<Op>)
    requires Sized(ops)
    ensures Holds(After(cap, ops).used, cap, AcceptedKeys(cap, ops))
    ensures Holds(After(cap, ops).revoked, cap, RevokedIds(cap, ops))
  {
    hide Step, Holds, Empty, LeafKey, Links;
    if ops == [] {
      EmptyHolds<Key>(cap, Key(0, 0));
      EmptyHolds<Id>(cap, 0);
    } else {
      var n := |ops| - 1;
      assert ops[n] in ops && Sized(ops[..n]);
      StoresAreHistory(cap, ops[..n]);
      StepHolds(After(cap, ops[..n]), ops[n], cap, AcceptedKeys(cap, ops[..n]), RevokedIds(cap, ops[..n]));
    }
  }

  lemma EmptyHolds<T>(cap: nat, zero: T)
    ensures Holds(Empty(cap, zero), cap, [])
  {
  }

  lemma AnswerOfPrefix(cap: nat, ops: seq<Op>, n: nat)
    requires Sized(ops) && 0 < n <= |ops|
    ensures Sized(ops[..n]) && ops[..n][..n - 1] == ops[..n - 1]
    ensures Answer(cap, ops[..n], n - 1) == Answer(cap, ops, n - 1)
  {
    assert ops[..n][..n - 1] == ops[..n - 1];
  }

  /** An earlier operation revoked id and was answered true. */
  ghost predicate RevokedBefore(cap: nat, ops: seq<Op>, n: nat, id: Id)
    requires Sized(ops) && n <= |ops|
  {
    exists i :: 0 <= i < n && ops[i] == Revoke(id) && Answer(cap, ops, i)
  }

  lemma NoneRevokedYet(cap: nat, ops: seq<Op>, id: Id)
    requires Sized(ops)
    ensures !RevokedBefore(cap, ops, 0, id) && Sized([]) && RevokedIds(cap, []) == []
  {
  }

  lemma RevokedIdsNext(cap: nat, ops: seq<Op>, n: nat)
    requires Sized(ops) && 0 < n <= |ops|
    ensures Sized(ops[..n - 1]) && Sized(ops[..n])
    ensures var before, op := RevokedIds(cap, ops[..n - 1]), ops[n - 1];
      RevokedIds(cap, ops[..n]) ==
        before + if op.Revoke? && Answer(cap, ops, n - 1) && op.id !in before then [op.id] else []
  {
    AnswerOfPrefix(cap, ops, n);
    hide Answer, WellSized;
    var upto := ops[..n];
    assert upto[|upto| - 1] == ops[n - 1] && upto[..|upto| - 1] == ops[..n - 1];
  }

  lemma RevokedNext(cap: nat, ops: seq<Op>, n: nat, id: Id)
    requires Sized(ops) && 0 < n <= |ops|
    ensures RevokedBefore(cap, ops, n, id) <==>
      RevokedBefore(cap, ops, n - 1, id) || (ops[n - 1] == Revoke(id) && Answer(cap, ops, n - 1))
  {
    hide Answer;
  }

  lemma {:induction false} RevokedIdsAre(cap: nat, ops: seq<Op>, n: nat, id: Id)
    requires Sized(ops) && n <= |ops|
    ensures Sized(ops[..n]) && (id in RevokedIds(cap, ops[..n]) <==> RevokedBefore(cap, ops, n, id))
  {
    hide Answer, WellSized, Sized, RevokedBefore, RevokedIds;
    if n > 0 {
      RevokedNext(cap, ops, n, id);
      RevokedIdsNext(cap, ops, n);
      RevokedIdsAre(cap, ops, n - 1, id);
    } else {
      assert ops[..0] == [];
      NoneRevokedYet(cap, ops, id);
    }
  }

  /** Every answer follows from the stateless gates and the history of the run. */
  lemma AnswerIsHistoryRule(cap: nat, ops: seq<Op>, n: nat)
    requires Sized(ops) && n < |ops|
    ensures WellSized(ops[n]) && Sized(ops[..n])
    ensures !ops[n].Revoke? ==> (Answer(cap, ops, n) <==>
      && Links(ops[n]) != [] && Stateless(ops[n])
      && (forall i :: 0 <= i < |Links(ops[n])| ==> !RevokedBefore(cap, ops, n, Links(ops[n])[i].capId))
      && LeafKey(ops[n]) !in AcceptedKeys(cap, ops[..n])
      && |AcceptedKeys(cap, ops[..n])| < cap)
    ensures ops[n].Revoke? ==> (Answer(cap, ops, n) <==>
      RevokedBefore(cap, ops, n, ops[n].id) || |RevokedIds(cap, ops[..n])| < cap)
  {
    hide Stateless, Append;
    assert ops[n] in ops && Sized(ops[..n]);
    StoresAreHistory(cap, ops[..n]);
    var s := After(cap, ops[..n]);
    if ops[n].Revoke? {
      RevokedIdsAre(cap, ops, n, ops[n].id);
    } else {
      forall i | 0 <= i < |Links(ops[n])|
        ensures Links(ops[n])[i].capId in Live(s.revoked) <==> RevokedBefore(cap, ops, n, Links(ops[n])[i].capId)
      {
        RevokedIdsAre(cap, ops, n, Links(ops[n])[i].capId);
      }
    }
  }

  /** Once revoke has answered true for an identifier, no later presentation with it at any link is
      accepted. */
  lemma RevocationIsFinal(cap: nat, ops: seq<Op>, i: nat, j: nat, k: nat)
    requires Sized(ops) && i < j < |ops| && k < |Links(ops[j])|
    requires ops[i] == Revoke(Links(ops[j])[k].capId) && Answer(cap, ops, i)
    ensures !Answer(cap, ops, j)
  {
    AnswerIsHistoryRule(cap, ops, j);
    assert RevokedBefore(cap, ops, j, Links(ops[j])[k].capId);
  }

  lemma NoLinks(cap: nat, ops: seq<Op>, i: nat)
    requires Sized(ops) && i < |ops| && !ops[i].Revoke?
    ensures WellSized(ops[i]) && (Answer(cap, ops, i) ==> Links(ops[i]) != [])
  {
    assert ops[i] in ops;
  }

  lemma AnswerInPrefix(cap: nat, ops: seq<Op>, n: nat, i: nat)
    requires Sized(ops) && i < n <= |ops|
    ensures Sized(ops[..n]) && Answer(cap, ops[..n], i) == Answer(cap, ops, i)
  {
    hide Step, After;
    assert ops[..n][..i] == ops[..i];
  }

  lemma {:induction false} AcceptedKeyKept(cap: nat, ops: seq<Op>, i: nat, n: nat)
    requires Sized(ops) && i < n <= |ops| && !ops[i].Revoke? && Answer(cap, ops, i)
    ensures Sized(ops[..n]) && WellSized(ops[i]) && Links(ops[i]) != [] && LeafKey(ops[i]) in AcceptedKeys(cap, ops[..n])
    decreases n
  {
    hide Step, After, Present, Stateless;
    assert ops[i] in ops;
    NoLinks(cap, ops, i);
    var upto := ops[..n];
    assert upto[..n - 1] == ops[..n - 1];
    if i < n - 1 {
      AcceptedKeyKept(cap, ops, i, n - 1);
    } else {
      AnswerInPrefix(cap, ops, n, n - 1);
    }
  }

  /** No presentation is accepted twice: neither again as it was, nor under another chain to the same leaf. */
  lemma NoReplay(cap: nat, ops: seq<Op>, i: nat, j: nat)
    requires Sized(ops) && i < j < |ops| && !ops[i].Revoke? && !ops[j].Revoke?
    requires Answer(cap, ops, i) && Links(ops[i]) != [] && Links(ops[j]) != [] && LeafKey(ops[i]) == LeafKey(ops[j])
    ensures !Answer(cap, ops, j)
  {
    AcceptedKeyKept(cap, ops, i, j);
    AnswerIsHistoryRule(cap, ops, j);
  }

  // ---------- every answer on the fields of what is presented ----------

  /** An earlier accepted presentation ended in a link with this identifier and nonce. */
  ghost predicate UsedBefore(cap: nat, ops: seq<Op>, n: nat, c: CapV1)
    requires Sized(ops) && n <= |ops|
  {
    exists i :: 0 <= i < n && !ops[i].Revoke? && Answer(cap, ops, i) && EndsWith(ops[i], c)
  }

  predicate EndsWith(op: Op, c: CapV1) {
    var links := Links(op);
    links != [] && links[|links| - 1].capId == c.capId && links[|links| - 1].nonce == c.nonce
  }

  /** Accepted presentations among the first n operations. */
  ghost function AcceptedBefore(cap: nat, ops: seq<Op>, n: nat): nat
    requires Sized(ops) && n <= |ops|
  {
    if n == 0 then 0
    else AcceptedBefore(cap, ops, n - 1) + if !ops[n - 1].Revoke? && Answer(cap, ops, n - 1) then 1 else 0
  }

  lemma {:induction false} AcceptedKeysAre(cap: nat, ops: seq<Op>, n: nat, c: CapV1)
    requires Sized(ops) && n <= |ops|
    ensures Sized(ops[..n]) && |AcceptedKeys(cap, ops[..n])| == AcceptedBefore(cap, ops, n)
    ensures ReplayKey(c) in AcceptedKeys(cap, ops[..n]) <==> UsedBefore(cap, ops, n, c)
  {
    hide Answer, AcceptedKeys, Links, WellSized, UsedBefore;
    if n > 0 {
      AcceptedKeysAre(cap, ops, n - 1, c);
      AcceptedKeysNext(cap, ops, n, c);
      UsedNext(cap, ops, n, c);
    } else {
      assert ops[..0] == [];
      NothingAccepted(cap);
      assert !UsedBefore(cap, ops, 0, c) by { NoneUsed(cap, ops, c); }
    }
  }

  lemma NothingAccepted(cap: nat)
    ensures AcceptedKeys(cap, []) == []
  {
  }

  lemma NoneUsed(cap: nat, ops: seq<Op>, c: CapV1)
    requires Sized(ops)
    ensures !UsedBefore(cap, ops, 0, c)
  {
  }

  lemma UsedNext(cap: nat, ops: seq<Op>, n: nat, c: CapV1)
    requires Sized(ops) && 0 < n <= |ops|
    ensures UsedBefore(cap, ops, n, c) <==>
      UsedBefore(cap, ops, n - 1, c) || (!ops[n - 1].Revoke? && Answer(cap, ops, n - 1) && EndsWith(ops[n - 1], c))
  {
    hide Answer, EndsWith;
  }

  /** The key of the n-th operation, if it is an accepted presentation, comes last. */
  lemma AcceptedKeysNext(cap: nat, ops: seq<Op>, n: nat, c: CapV1)
    requires Sized(ops) && 0 < n <= |ops|
    ensures Sized(ops[..n - 1]) && Sized(ops[..n])
    ensures var before, keys := AcceptedKeys(cap, ops[..n - 1]), AcceptedKeys(cap, ops[..n]);
      if !ops[n - 1].Revoke? && Answer(cap, ops, n - 1)
      then |keys| == |before| + 1 && (ReplayKey(c) in keys <==> ReplayKey(c) in before || EndsWith(ops[n - 1], c))
      else keys == before
  {
    AnswerOfPrefix(cap, ops, n);
    hide Answer, WellSized, AcceptedKeys, LeafKey, EndsWith, ReplayKey, Links, Sized, RevokedIds;
    var upto := ops[..n];
    assert upto[|upto| - 1] == ops[n - 1];
    KeysUnfolded(cap, upto);
    if !ops[n - 1].Revoke? && Answer(cap, ops, n - 1) { KeyMatches(ops[n - 1], c); }
  }

  lemma KeysUnfolded(cap: nat, ops: seq<Op>)
    requires Sized(ops) && ops != []
    ensures var n := |ops| - 1;
      && WellSized(ops[n]) && Sized(ops[..n])
      && (!ops[n].Revoke? && Answer(cap, ops, n) ==> Links(ops[n]) != [])
      && AcceptedKeys(cap, ops)
        == AcceptedKeys(cap, ops[..n]) + if !ops[n].Revoke? && Answer(cap, ops, n) then [LeafKey(ops[n])] else []
  {
    if !ops[|ops| - 1].Revoke? { NoLinks(cap, ops, |ops| - 1); }
    hide Answer;
  }

  lemma KeyMatches(op: Op, c: CapV1)
    requires Links(op) != []
    ensures LeafKey(op) == ReplayKey(c) <==> EndsWith(op, c)
  {
  }

  /** A leaf is accepted iff its version and suite are the ones defined, the presented key is the one it names, its
      signature is good, it is for this verifier and in its window, its identifier is not revoked, no accepted
      presentation ended in it before, and there is room. */
  lemma LeafAnswer(cap: nat, ops: seq<Op>, n: nat)
    requires Sized(ops) && n < |ops| && ops[n].Leaf?
    ensures var op := ops[n];
      Answer(cap, ops, n) <==>
        && op.cap.version == 1 && op.cap.suiteId == 1 && op.pk.id == op.cap.issuerId && op.sigOk
        && op.cap.audienceId == op.verifierId && op.cap.notBefore <= op.now <= op.cap.notAfter
        && !RevokedBefore(cap, ops, n, op.cap.capId) && !UsedBefore(cap, ops, n, op.cap) && AcceptedBefore(cap, ops, n) < cap
  {
    AnswerIsHistoryRule(cap, ops, n);
    AcceptedKeysAre(cap, ops, n, ops[n].cap);
    hide Answer, RevokedBefore, UsedBefore, AcceptedKeys, AcceptedBefore;
    assert Links(ops[n]) == [ops[n].cap];
  }

  /** A chain is accepted iff it has grown from a signed root by signed re-delegations, all in their windows, every link
      has the version and suite defined and its key, none is revoked, no accepted presentation ended in its leaf
      before, and there is room. */
  lemma ChainAnswer(cap: nat, ops: seq<Op>, n: nat)
    requires Sized(ops) && n < |ops| && ops[n].Chain?
    ensures WellSized(ops[n])
    ensures var op := ops[n];
      Answer(cap, ops, n) <==>
        && Grown(op.caps, op.verifierId, op.now, op.sigsOk)
        && (forall i :: 0 <= i < |op.caps| ==>
          && op.caps[i].version == 1 && op.caps[i].suiteId == 1 && op.pks[i].id == op.caps[i].issuerId
          && !RevokedBefore(cap, ops, n, op.caps[i].capId))
        && !UsedBefore(cap, ops, n, op.caps[|op.caps| - 1]) && AcceptedBefore(cap, ops, n) < cap
  {
    hide Answer, RevokedBefore, UsedBefore, AcceptedKeys, AcceptedBefore, ChainAccepted, Grown, Sized, Stateless, LeafKey, Links,
      ReplayKey;
    AnswerIsHistoryRule(cap, ops, n);
    var op := ops[n];
    ChainGate(op);
    AcceptedIffGrown(op.caps, op.verifierId, op.now, op.sigsOk);
    if op.caps == [] {
      EmptyNotGrown(op.verifierId, op.now);
    } else {
      AcceptedKeysAre(cap, ops, n, op.caps[|op.caps| - 1]);
    }
  }

  lemma ChainGate(op: Op)
    requires op.Chain? && WellSized(op)
    ensures Links(op) == op.caps && (op.caps != [] ==> LeafKey(op) == ReplayKey(op.caps[|op.caps| - 1]))
    ensures Stateless(op) <==>
      && ChainAccepted(op.caps, op.verifierId, op.now, op.sigsOk)
      && forall i :: 0 <= i < |op.caps| ==>
        op.caps[i].version == 1 && op.caps[i].suiteId == 1 && op.pks[i].id == op.caps[i].issuerId
  {
    hide ChainAccepted;
  }

  lemma EmptyNotGrown(verifierId: Id, now: nat)
    ensures !Grown([], verifierId, now, [])
  {
  }
}

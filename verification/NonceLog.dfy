/** The append-only single-use store and its hash-set twin. */
module NonceLog {
  import opened Common

  /** A key is its bytes. */
  type Key = seq<int>

  datatype Request = Request(ok: bool, key: Key)

  // ---------- decisions on values ----------

  /** Array store: the consumed keys in order, at most cap of them. */
  predicate LogAccepts(log: seq<Key>, cap: nat, r: Request) {
    r.ok && r.key !in log && |log| < cap
  }

  function LogNext(log: seq<Key>, cap: nat, r: Request): seq<Key> {
    if LogAccepts(log, cap, r) then log + [r.key] else log
  }

  predicate SetAccepts(used: set<Key>, r: Request) {
    r.ok && r.key !in used
  }

  function SetNext(used: set<Key>, r: Request): set<Key> {
    if SetAccepts(used, r) then used + {r.key} else used
  }

  /** Both stores after a list of requests, each from empty. */
  function LogAfter(cap: nat, rs: seq<Request>): seq<Key> {
    if rs == [] then [] else LogNext(LogAfter(cap, rs[..|rs| - 1]), cap, rs[|rs| - 1])
  }

  function SetAfter(rs: seq<Request>): set<Key> {
    if rs == [] then {} else SetNext(SetAfter(rs[..|rs| - 1]), rs[|rs| - 1])
  }

  function Keys(log: seq<Key>): set<Key> { set k | k in log }

  lemma {:induction false} DistinctSize(log: seq<Key>)
    requires Distinct(log)
    ensures |Keys(log)| == |log|
  {
    if log != [] {
      var init := log[..|log| - 1];
      DistinctSize(init);
      assert log == init + [log[|log| - 1]];
      assert Keys(log) == Keys(init) + {log[|log| - 1]};
      assert log[|log| - 1] !in init;
    }
  }

  /** The consumed keys never repeat and never exceed the capacity. */
  lemma {:induction false} LogInvariant(cap: nat, rs: seq<Request>)
    ensures Distinct(LogAfter(cap, rs)) && |LogAfter(cap, rs)| <= cap
  {
    if rs != [] { LogInvariant(cap, rs[..|rs| - 1]); }
  }

  /** While fewer than cap distinct keys have been accepted the two stores hold the same keys; from then
      on the array store stays at its first cap keys, all of which the set store has too. */
  lemma {:induction false} LogTracksSet(cap: nat, rs: seq<Request>)
    ensures |SetAfter(rs)| <= cap ==> Keys(LogAfter(cap, rs)) == SetAfter(rs)
    ensures |SetAfter(rs)| >= cap ==> |LogAfter(cap, rs)| == cap
    ensures Keys(LogAfter(cap, rs)) <= SetAfter(rs)
  {
    if rs != [] {
      var init, r := rs[..|rs| - 1], rs[|rs| - 1];
      LogTracksSet(cap, init);
      LogInvariant(cap, init);
      DistinctSize(LogAfter(cap, init));
      KeysNext(LogAfter(cap, init), cap, r);
    }
  }

  lemma KeysNext(log: seq<Key>, cap: nat, r: Request)
    ensures Keys(LogNext(log, cap, r)) == if LogAccepts(log, cap, r) then Keys(log) + {r.key} else Keys(log)
  {
  }

  /** Over every run from empty: the array store answers like the set store until cap distinct keys have
      been accepted, and rejects everything afterwards. */
  lemma SameAnswersUntilFull(cap: nat, rs: seq<Request>, r: Request)
    ensures |SetAfter(rs)| < cap ==> (LogAccepts(LogAfter(cap, rs), cap, r) <==> SetAccepts(SetAfter(rs), r))
    ensures |SetAfter(rs)| >= cap ==> !LogAccepts(LogAfter(cap, rs), cap, r)
  {
    LogTracksSet(cap, rs);
    LogInvariant(cap, rs);
    DistinctSize(LogAfter(cap, rs));
    assert r.key in LogAfter(cap, rs) <==> r.key in Keys(LogAfter(cap, rs));
  }

  /** No key is accepted twice. */
  lemma {:induction false} NoReplay(cap: nat, rs: seq<Request>, i: nat, j: nat)
    requires i < j < |rs| && rs[i].key == rs[j].key
    requires LogAccepts(LogAfter(cap, rs[..i]), cap, rs[i])
    ensures !LogAccepts(LogAfter(cap, rs[..j]), cap, rs[j])
  {
    assert rs[..i + 1][..i] == rs[..i];
    StaysConsumed(cap, rs, i + 1, j, rs[i].key);
  }

  lemma {:induction false} StaysConsumed(cap: nat, rs: seq<Request>, i: nat, j: nat, k: Key)
    requires i <= j <= |rs| && k in LogAfter(cap, rs[..i])
    ensures k in LogAfter(cap, rs[..j])
    decreases j
  {
    if i < j {
      StaysConsumed(cap, rs, i, j - 1, k);
      assert rs[..j][..j - 1] == rs[..j - 1];
    }
  }

  // ---------- every answer on the requests alone ----------

  /** Answer of the array store to request i. */
  predicate LogAnswer(cap: nat, rs: seq<Request>, i: nat)
    requires i < |rs|
  {
    LogAccepts(LogAfter(cap, rs[..i]), cap, rs[i])
  }

  function AcceptedBefore(cap: nat, rs: seq<Request>, n: nat): nat
    requires n <= |rs|
  {
    if n == 0 then 0 else AcceptedBefore(cap, rs, n - 1) + if LogAnswer(cap, rs, n - 1) then 1 else 0
  }

  ghost predicate KeyAcceptedBefore(cap: nat, rs: seq<Request>, n: nat, k: Key)
    requires n <= |rs|
  {
    exists i :: 0 <= i < n && LogAnswer(cap, rs, i) && rs[i].key == k
  }

  lemma {:induction false} LogHistory(cap: nat, rs: seq<Request>, n: nat, k: Key)
    requires n <= |rs|
    ensures |LogAfter(cap, rs[..n])| == AcceptedBefore(cap, rs, n)
    ensures k in LogAfter(cap, rs[..n]) <==> KeyAcceptedBefore(cap, rs, n, k)
  {
    if n > 0 {
      LogHistory(cap, rs, n - 1, k);
      assert rs[..n][..n - 1] == rs[..n - 1];
    }
  }

  /** The array store accepts iff the request is good, its key was not accepted before, and fewer than CAP were. */
  lemma LogRule(cap: nat, rs: seq<Request>, i: nat)
    requires i < |rs|
    ensures LogAnswer(cap, rs, i) <==>
      rs[i].ok && !KeyAcceptedBefore(cap, rs, i, rs[i].key) && AcceptedBefore(cap, rs, i) < cap
  {
    LogHistory(cap, rs, i, rs[i].key);
  }

  lemma {:induction false} SetHistory(rs: seq<Request>, n: nat, k: Key)
    requires n <= |rs|
    ensures k in SetAfter(rs[..n]) <==> exists i :: 0 <= i < n && rs[i].ok && rs[i].key == k
  {
    if n > 0 {
      SetHistory(rs, n - 1, k);
      assert rs[..n][..n - 1] == rs[..n - 1];
    }
  }

  /** The set store accepts iff the request is good and no good request before it had its key. */
  lemma SetRule(rs: seq<Request>, i: nat)
    requires i < |rs|
    ensures SetAccepts(SetAfter(rs[..i]), rs[i]) <==>
      rs[i].ok && forall j :: 0 <= j < i && rs[j].ok ==> rs[j].key != rs[i].key
  {
    SetHistory(rs, i, rs[i].key);
  }

  // ---------- the stores in place ----------

  class ArrayStore {
    var count: nat
    const slots: array<Key>

    ghost predicate Valid()
      reads this
    {
      slots.Length <= 255 && count <= slots.Length
    }

    /** The first count slots: the consumed keys. */
    ghost function Log(): (s: seq<Key>)
      requires Valid()
      reads this, slots
      ensures |s| == count
    {
      slots[..count]
    }

    constructor (cap: nat)
      requires cap <= 255
      ensures Valid() && fresh(slots) && slots.Length == cap && Log() == []
    {
      count := 0;
      slots := new Key[cap](_ => []);
    }

    /** All slots are scanned; only the first count of them can match. */
    method Seen(k: Key) returns (found: bool)
      requires Valid()
      ensures found <==> k in Log()
    {
      found := false;
      for i := 0 to slots.Length
        invariant found <==> exists j :: 0 <= j < i && j < count && slots[j] == k
      {
        if i < count && slots[i] == k { found := true; }
      }
    }

    method Accept(r: Request) returns (a: bool)
      requires Valid()
      modifies this`count, slots
      ensures Valid()
      ensures a == LogAccepts(old(Log()), slots.Length, r)
      ensures Log() == LogNext(old(Log()), slots.Length, r)
    {
      var isSeen := Seen(r.key);
      var isFull := count >= slots.Length;
      a := r.ok && !isSeen && !isFull;
      if a {
        for i := 0 to slots.Length
          invariant count == old(count)
          invariant forall j :: 0 <= j < slots.Length ==>
            slots[j] == (if j == count < i then r.key else old(slots[j]))
        {
          if i == count { slots[i] := r.key; }
        }
        count := count + 1;
        assert Log() == old(Log()) + [r.key];
      }
    }
  }

  class HashStore {
    var used: set<Key>

    constructor ()
      ensures used == {}
    {
      used := {};
    }

    /** The key is verifier id, request id and nonce, one after the other. */
    method AcceptOnce(sigsOk: bool, verifierId: seq<int>, requestId: seq<int>, nonce: seq<int>) returns (accept: bool)
      modifies this
      ensures var r := Request(sigsOk, verifierId + requestId + nonce);
        accept == SetAccepts(old(used), r) && used == SetNext(old(used), r)
    {
      var key := verifierId + requestId + nonce;
      var isFresh := key !in used;
      accept := sigsOk && isFresh;
      if accept { used := used + {key}; }
    }
  }
}

/** The single-use store with expiry: a slot is live while its recorded expiry lies in the future. */
module NonceExp {

  /** A key is its bytes; times are 32-bit in the source and only compared. */
  type Key = seq<int>

  datatype Entry = Entry(key: Key, exp: nat)

  datatype Request = Request(ok: bool, key: Key, exp: nat, now: nat)

  // ---------- one request ----------

  predicate SeenLive(s: seq<Entry>, k: Key, now: nat) {
    exists i :: 0 <= i < |s| && s[i].key == k && s[i].exp > now
  }

  /** Lowest slot that is free or expired, |s| for none. */
  function FirstFree(s: seq<Entry>, now: nat): (r: nat)
    ensures r <= |s|
    ensures r < |s| ==> s[r].exp <= now
    ensures forall i :: 0 <= i < r ==> s[i].exp > now
  {
    if s == [] then 0 else if s[0].exp <= now then 0 else 1 + FirstFree(s[1..], now)
  }

  predicate Accepts(s: seq<Entry>, r: Request) {
    r.ok && r.now < r.exp && !SeenLive(s, r.key, r.now) && FirstFree(s, r.now) < |s|
  }

  function Next(s: seq<Entry>, r: Request): (s': seq<Entry>)
    ensures |s'| == |s|
  {
    if Accepts(s, r) then s[FirstFree(s, r.now) := Entry(r.key, r.exp)] else s
  }

  // ---------- runs ----------

  /** Store after a list of requests. */
  function After(s: seq<Entry>, rs: seq<Request>): (s': seq<Entry>)
    ensures |s'| == |s|
  {
    if rs == [] then s else Next(After(s, rs[..|rs| - 1]), rs[|rs| - 1])
  }

  /** Was request i of the list accepted? */
  predicate Accepted(s: seq<Entry>, rs: seq<Request>, i: nat)
    requires i < |rs|
  {
    Accepts(After(s, rs[..i]), rs[i])
  }

  /** The clock does not go back. */
  ghost predicate ClockMonotone(rs: seq<Request>) {
    forall i, j :: 0 <= i < j < |rs| ==> rs[i].now <= rs[j].now
  }

  /** Live entries of the store, and unexpired accepted requests of the history. */
  function LiveSlots(s: seq<Entry>, t: nat): multiset<Entry> {
    if s == [] then multiset{}
    else LiveSlots(s[..|s| - 1], t) + (if s[|s| - 1].exp > t then multiset{s[|s| - 1]} else multiset{})
  }

  function LiveRequests(s: seq<Entry>, rs: seq<Request>, t: nat): multiset<Entry> {
    if rs == [] then multiset{}
    else
      var r := rs[|rs| - 1];
      LiveRequests(s, rs[..|rs| - 1], t) +
      (if Accepts(After(s, rs[..|rs| - 1]), r) && r.exp > t then multiset{Entry(r.key, r.exp)} else multiset{})
  }

  lemma {:induction false} LiveSlotsAt(s: seq<Entry>, t: nat, e: Entry)
    ensures e in LiveSlots(s, t) <==> e in s && e.exp > t
  {
    if s != [] {
      LiveSlotsAt(s[..|s| - 1], t, e);
      assert s == s[..|s| - 1] + [s[|s| - 1]];
    }
  }

  /** Writing a slot that is not live at t adds the new entry and takes nothing away. */
  lemma {:induction false} WriteDeadSlot(s: seq<Entry>, i: nat, e: Entry, t: nat)
    requires i < |s| && s[i].exp <= t
    ensures LiveSlots(s[i := e], t) == LiveSlots(s, t) + (if e.exp > t then multiset{e} else multiset{})
  {
    var n := |s| - 1;
    if i < n {
      assert s[i := e][..n] == s[..n][i := e];
      WriteDeadSlot(s[..n], i, e, t);
    } else {
      assert s[i := e][..n] == s[..n];
    }
  }

  lemma {:induction false} LiveCount(s: seq<Entry>, t: nat)
    ensures |LiveSlots(s, t)| <= |s|
    ensures |LiveSlots(s, t)| == |s| <==> forall i :: 0 <= i < |s| ==> s[i].exp > t
  {
    if s != [] {
      LiveCount(s[..|s| - 1], t);
    }
  }

  lemma {:induction false} NothingLive(cap: nat, zero: Key, t: nat)
    ensures LiveSlots(seq(cap, _ => Entry(zero, 0)), t) == multiset{}
  {
    if cap > 0 {
      NothingLive(cap - 1, zero, t);
      assert seq(cap, _ => Entry(zero, 0))[..cap - 1] == seq(cap - 1, _ => Entry(zero, 0));
    }
  }

  /** From an all-zero store, the live slots are at every later time exactly the accepted requests that
      have not expired, each recorded once. */
  lemma {:induction false} LiveIsHistory(cap: nat, zero: Key, rs: seq<Request>, t: nat)
    requires ClockMonotone(rs) && (rs != [] ==> rs[|rs| - 1].now <= t)
    ensures var s := seq(cap, _ => Entry(zero, 0));
      LiveSlots(After(s, rs), t) == LiveRequests(s, rs, t)
  {
    var s := seq(cap, _ => Entry(zero, 0));
    if rs == [] {
      NothingLive(cap, zero, t);
    } else {
      var init, r := rs[..|rs| - 1], rs[|rs| - 1];
      LiveIsHistory(cap, zero, init, t);
      var before := After(s, init);
      if Accepts(before, r) {
        WriteDeadSlot(before, FirstFree(before, r.now), Entry(r.key, r.exp), t);
      }
    }
  }

  /** An earlier accepted request with this key is still unexpired at time t. */
  ghost predicate AcceptedEarlier(s: seq<Entry>, rs: seq<Request>, k: Key, t: nat) {
    exists i :: 0 <= i < |rs| && Accepted(s, rs, i) && rs[i].key == k && rs[i].exp > t
  }

  /** Request i was accepted and recorded as e. */
  ghost predicate RecordedAs(s: seq<Entry>, rs: seq<Request>, i: nat, e: Entry) {
    i < |rs| && Accepted(s, rs, i) && Entry(rs[i].key, rs[i].exp) == e
  }

  lemma RecordedInPrefix(s: seq<Entry>, rs: seq<Request>, n: nat, i: nat, e: Entry)
    requires n <= |rs| && i < n
    ensures RecordedAs(s, rs[..n], i, e) <==> RecordedAs(s, rs, i, e)
  {
    assert rs[..n][..i] == rs[..i];
  }

  lemma {:induction false} LiveRequestsAt(s: seq<Entry>, rs: seq<Request>, t: nat, e: Entry)
    ensures e in LiveRequests(s, rs, t) <==> e.exp > t && exists i: nat :: RecordedAs(s, rs, i, e)
  {
    hide Accepts, After, RecordedAs;
    if rs != [] {
      LiveRequestsAt(s, rs[..|rs| - 1], t, e);
      RecordedNext(s, rs, e);
    } else {
      NoneRecorded(s, e);
    }
  }

  lemma NoneRecorded(s: seq<Entry>, e: Entry)
    ensures !exists i: nat :: RecordedAs(s, [], i, e)
  {
  }

  lemma RecordedNext(s: seq<Entry>, rs: seq<Request>, e: Entry)
    requires rs != []
    ensures var n := |rs| - 1;
      (exists i: nat :: RecordedAs(s, rs, i, e)) <==>
      (exists i: nat :: RecordedAs(s, rs[..n], i, e))
      || (Accepts(After(s, rs[..n]), rs[n]) && Entry(rs[n].key, rs[n].exp) == e)
  {
    hide Accepts, After;
    var n := |rs| - 1;
    if i: nat :| RecordedAs(s, rs[..n], i, e) {
      RecordedInPrefix(s, rs, n, i, e);
    }
    if i: nat :| RecordedAs(s, rs, i, e) {
      if i < n { RecordedInPrefix(s, rs, n, i, e); }
    }
    if Accepts(After(s, rs[..n]), rs[n]) && Entry(rs[n].key, rs[n].exp) == e {
      assert RecordedAs(s, rs, n, e);
    }
  }

  /** A key is recorded live in the store iff an earlier accepted request with it is unexpired. */
  lemma SeenIsAcceptedEarlier(cap: nat, zero: Key, rs: seq<Request>, k: Key, t: nat)
    requires ClockMonotone(rs) && (rs != [] ==> rs[|rs| - 1].now <= t)
    ensures var s := seq(cap, _ => Entry(zero, 0));
      SeenLive(After(s, rs), k, t) <==> AcceptedEarlier(s, rs, k, t)
  {
    hide Accepts, After, Accepted;
    var s := seq(cap, _ => Entry(zero, 0));
    var now := After(s, rs);
    LiveIsHistory(cap, zero, rs, t);
    if SeenLive(now, k, t) {
      var j :| 0 <= j < |now| && now[j].key == k && now[j].exp > t;
      LiveSlotsAt(now, t, now[j]);
      LiveRequestsAt(s, rs, t, now[j]);
    }
    if AcceptedEarlier(s, rs, k, t) {
      var i :| 0 <= i < |rs| && Accepted(s, rs, i) && rs[i].key == k && rs[i].exp > t;
      var e := Entry(k, rs[i].exp);
      assert RecordedAs(s, rs, i, e);
      LiveRequestsAt(s, rs, t, e);
      LiveSlotsAt(now, t, e);
      var j :| 0 <= j < |now| && now[j] == e;
    }
  }

  /** Accepted requests of a list that are unexpired at time t. */
  function CountUnexpired(s: seq<Entry>, rs: seq<Request>, t: nat): nat {
    if rs == [] then 0
    else
      CountUnexpired(s, rs[..|rs| - 1], t) +
      (if Accepted(s, rs, |rs| - 1) && rs[|rs| - 1].exp > t then 1 else 0)
  }

  lemma {:induction false} CountIsSize(s: seq<Entry>, rs: seq<Request>, t: nat)
    ensures |LiveRequests(s, rs, t)| == CountUnexpired(s, rs, t)
  {
    if rs != [] { CountIsSize(s, rs[..|rs| - 1], t); }
  }

  /** From an all-zero store with a nondecreasing clock, the decision depends on the history alone. */
  lemma AcceptIsHistoryRule(cap: nat, zero: Key, rs: seq<Request>, i: nat)
    requires ClockMonotone(rs) && i < |rs|
    ensures var s := seq(cap, _ => Entry(zero, 0)); var r := rs[i];
      Accepted(s, rs, i) <==>
        && r.ok && r.now < r.exp
        && !AcceptedEarlier(s, rs[..i], r.key, r.now)
        && CountUnexpired(s, rs[..i], r.now) < cap
  {
    var s, r, earlier := seq(cap, _ => Entry(zero, 0)), rs[i], rs[..i];
    LiveIsHistory(cap, zero, earlier, r.now);
    SeenIsAcceptedEarlier(cap, zero, earlier, r.key, r.now);
    CountIsSize(s, earlier, r.now);
    LiveCount(After(s, earlier), r.now);
  }

  /** A live entry stays in the store while it is live: no step overwrites a live slot. */
  lemma {:induction false} LiveEntryStays(s: seq<Entry>, rs: seq<Request>, i: nat, t: nat)
    requires i < |s| && s[i].exp > t && forall j :: 0 <= j < |rs| ==> rs[j].now <= t
    ensures After(s, rs)[i] == s[i]
  {
    if rs != [] { LiveEntryStays(s, rs[..|rs| - 1], i, t); }
  }

  lemma {:induction false} AfterConcat(s: seq<Entry>, a: seq<Request>, b: seq<Request>)
    ensures After(s, a + b) == After(After(s, a), b)
  {
    if b == [] {
      assert a + b == a;
    } else {
      AfterConcat(s, a, b[..|b| - 1]);
      assert (a + b)[..|a + b| - 1] == a + b[..|b| - 1];
    }
  }

  /** From any store: no key is accepted twice before the expiry of its first acceptance. */
  lemma NoReplayInWindow(s: seq<Entry>, rs: seq<Request>, i: nat, j: nat)
    requires ClockMonotone(rs) && i < j < |rs|
    requires Accepted(s, rs, i) && Accepted(s, rs, j) && rs[i].key == rs[j].key
    ensures rs[i].exp <= rs[j].now
  {
    if rs[i].exp > rs[j].now {
      var first := After(s, rs[..i]);
      var slot := FirstFree(first, rs[i].now);
      var mid := rs[i + 1..j];
      assert rs[..j] == rs[..i + 1] + mid;
      assert rs[..i + 1][..i] == rs[..i];
      AfterConcat(s, rs[..i + 1], mid);
      assert After(s, rs[..i + 1]) == Next(first, rs[i]);
      LiveEntryStays(After(s, rs[..i + 1]), mid, slot, rs[j].now);
    }
  }

  // ---------- the store in place ----------

  class Store {
    const keys: array<Key>
    const exps: array<nat>

    ghost predicate Valid()
      reads this
    {
      keys.Length == exps.Length <= 255 && keys as object != exps
    }

    /** The slots as a sequence. */
    ghost function Slots(): (s: seq<Entry>)
      requires Valid()
      reads this, keys, exps
      ensures |s| == keys.Length
    {
      seq(keys.Length, i requires 0 <= i < keys.Length reads keys, exps => Entry(keys[i], exps[i]))
    }

    constructor (cap: nat, zero: Key)
      requires cap <= 255
      ensures Valid() && fresh(keys) && fresh(exps)
      ensures Slots() == seq(cap, _ => Entry(zero, 0))
    {
      keys := new Key[cap](_ => zero);
      exps := new nat[cap](_ => 0);
    }

    /** Accept iff validated, not expired, not recorded live, and some slot is free or expired; on accept
        the lowest such slot is overwritten. */
    method Accept(r: Request) returns (a: bool)
      requires Valid()
      modifies keys, exps
      ensures a == Accepts(old(Slots()), r)
      ensures Slots() == Next(old(Slots()), r)
    {
      var cap := keys.Length;
      ghost var s := Slots();
      var seenLive, hasRoom := false, false;
      var firstFree: nat := cap;
      for i := 0 to cap
        invariant seenLive <==> exists j :: 0 <= j < i && s[j].key == r.key && s[j].exp > r.now
        invariant hasRoom <==> firstFree < cap
        invariant firstFree == cap || (firstFree < i && s[firstFree].exp <= r.now)
        invariant forall j :: 0 <= j < firstFree && j < i ==> s[j].exp > r.now
      {
        assert s[i] == Entry(keys[i], exps[i]);
        var live := exps[i] > r.now;
        if keys[i] == r.key && live { seenLive := true; }
        if !live {
          hasRoom := true;
          if firstFree == cap { firstFree := i; }
        }
      }
      assert firstFree == FirstFree(s, r.now);
      a := r.ok && r.now < r.exp && !seenLive && hasRoom;
      if a {
        for i := 0 to cap
          invariant forall j :: 0 <= j < cap ==> keys[j] == if j == firstFree < i then r.key else s[j].key
          invariant forall j :: 0 <= j < cap ==> exps[j] == if j == firstFree < i then r.exp else s[j].exp
        {
          if i == firstFree {
            keys[i] := r.key;
            exps[i] := r.exp;
          }
        }
      }
      assert Slots() == Next(s, r);
    }
  }
}

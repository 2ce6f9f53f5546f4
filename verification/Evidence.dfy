/** Reassembly of evidence fragments: exactly the original bytes, or nothing. */
module Evidence {
  import opened Common

  type Byte = x: int | 0 <= x < 256

  datatype Frag = Frag(idx: Byte, total: Byte, data: seq<Byte>)

  /** nf fragments of fs bytes each. */
  ghost predicate Shaped(frags: seq<Frag>, fs: nat) {
    1 <= |frags| <= 255 && forall i :: 0 <= i < |frags| ==> |frags[i].data| == fs
  }

  /** Number of fragments that carry index j. */
  function Count(frags: seq<Frag>, j: int): nat {
    if frags == [] then 0
    else Count(frags[..|frags| - 1], j) + (if frags[|frags| - 1].idx == j then 1 else 0)
  }

  predicate TotalsOk(frags: seq<Frag>) {
    forall i :: 0 <= i < |frags| ==> frags[i].total == |frags|
  }

  predicate EachOnce(frags: seq<Frag>, n: nat) {
    forall j :: 0 <= j < n ==> Count(frags, j) == 1
  }

  /** What both reassemblers test. */
  predicate WellFormed(frags: seq<Frag>) {
    TotalsOk(frags) && EachOnce(frags, |frags|)
  }

  lemma {:induction false} CountIn(frags: seq<Frag>, i: nat)
    requires i < |frags|
    ensures Count(frags, frags[i].idx) >= 1
  {
    if i < |frags| - 1 { CountIn(frags[..|frags| - 1], i); }
  }

  lemma {:induction false} CountTwo(frags: seq<Frag>, i: nat, i': nat)
    requires i < i' < |frags| && frags[i].idx == frags[i'].idx
    ensures Count(frags, frags[i].idx) >= 2
  {
    if i' < |frags| - 1 { CountTwo(frags[..|frags| - 1], i, i'); } else { CountIn(frags[..|frags| - 1], i); }
  }

  lemma {:induction false} Owner(frags: seq<Frag>, j: int) returns (i: nat)
    requires Count(frags, j) >= 1
    ensures i < |frags| && frags[i].idx == j
  {
    if frags[|frags| - 1].idx == j { i := |frags| - 1; } else { i := Owner(frags[..|frags| - 1], j); }
  }

  // ---------- "each index once" excludes every other index ----------

  function CountBelow(frags: seq<Frag>, n: nat): nat {
    if n == 0 then 0 else CountBelow(frags, n - 1) + Count(frags, n - 1)
  }

  lemma {:induction false} CountBelowOnes(frags: seq<Frag>, n: nat)
    requires EachOnce(frags, n)
    ensures CountBelow(frags, n) == n
  {
    if n > 0 { CountBelowOnes(frags, n - 1); }
  }

  lemma {:induction false} CountBelowSnoc(init: seq<Frag>, f: Frag, n: nat)
    ensures CountBelow(init + [f], n) == CountBelow(init, n) + (if f.idx < n then 1 else 0)
  {
    if n > 0 {
      CountBelowSnoc(init, f, n - 1);
      assert (init + [f])[..|init|] == init;
    }
  }

  lemma {:induction false} CountBelowBound(frags: seq<Frag>, n: nat)
    ensures CountBelow(frags, n) <= |frags|
    ensures CountBelow(frags, n) == |frags| ==> forall i :: 0 <= i < |frags| ==> frags[i].idx < n
  {
    if frags == [] {
      CountBelowEmpty(n);
    } else {
      var init, f := frags[..|frags| - 1], frags[|frags| - 1];
      assert frags == init + [f];
      CountBelowBound(init, n);
      CountBelowSnoc(init, f, n);
    }
  }

  lemma {:induction false} CountBelowEmpty(n: nat)
    ensures CountBelow([], n) == 0
  {
    if n > 0 { CountBelowEmpty(n - 1); }
  }

  /** Pigeonhole: nf fragments carrying each of 0..nf once carry no other index. */
  lemma NoOtherIndex(frags: seq<Frag>, i: nat)
    requires EachOnce(frags, |frags|) && i < |frags|
    ensures frags[i].idx < |frags|
  {
    CountBelowOnes(frags, |frags|);
    CountBelowBound(frags, |frags|);
  }

  // ---------- placement ----------

  /** out is the payload of fragment j at its place, for every j below n. */
  ghost predicate Placed(out: seq<Byte>, frags: seq<Frag>, fs: nat, n: nat) {
    forall i :: 0 <= i < |frags| && frags[i].idx < n ==> HasAt(out, frags[i].idx * fs, frags[i].data)
  }

  ghost predicate HasAt(out: seq<Byte>, at: nat, data: seq<Byte>) {
    at + |data| <= |out| && out[at..at + |data|] == data
  }

  lemma PlaceFits(j: nat, n: nat, fs: nat)
    requires j < n
    ensures j * fs + fs == (j + 1) * fs <= n * fs
  {
    assert (j + 1) * fs <= n * fs by { MulMono(j + 1, n, fs); }
  }

  lemma MulMono(a: nat, b: nat, c: nat)
    requires a <= b
    ensures a * c <= b * c
  {
  }

  /** The placement loops: for each index j, copy the payload of the fragment that carries it. */
  method Place(frags: seq<Frag>, fs: nat, out: array<Byte>)
    requires Shaped(frags, fs) && WellFormed(frags) && out.Length == |frags| * fs
    modifies out
    ensures Placed(out[..], frags, fs, |frags|)
  {
    var nf := |frags|;
    for j := 0 to nf
      invariant Placed(out[..], frags, fs, j)
    {
      PlaceFits(j, nf, fs);
      for i := 0 to nf
        invariant Placed(out[..], frags, fs, j)
        invariant forall i' :: 0 <= i' < i && frags[i'].idx == j ==> HasAt(out[..], j * fs, frags[i'].data)
      {
        if frags[i].idx == j {
          assert Count(frags, j) == 1;
          forall i' | 0 <= i' < i ensures frags[i'].idx != j {
            if frags[i'].idx == j { CountTwo(frags, i', i); }
          }
          CopyFragment(frags, fs, out, j, i);
        }
      }
    }
  }

  method CopyFragment(frags: seq<Frag>, fs: nat, out: array<Byte>, j: nat, i: nat)
    requires Shaped(frags, fs) && out.Length == |frags| * fs && j < |frags| && i < |frags|
    requires Placed(out[..], frags, fs, j)
    modifies out
    ensures Placed(out[..], frags, fs, j)
    ensures HasAt(out[..], j * fs, frags[i].data)
  {
    hide Placed;
    PlaceFits(j, |frags|, fs);
    var at := j * fs;
    ghost var before := out[..];
    for k := 0 to fs
      invariant forall x :: 0 <= x < out.Length ==>
        out[x] == (if at <= x < at + k then frags[i].data[x - at] else before[x])
    {
      out[at + k] := frags[i].data[k];
    }
    StillPlaced(before, out[..], frags, fs, j);
  }

  /** What is placed before position j * fs stays placed when only later positions change. */
  lemma StillPlaced(before: seq<Byte>, after: seq<Byte>, frags: seq<Frag>, fs: nat, j: nat)
    requires Shaped(frags, fs) && |before| == |after| == |frags| * fs && j * fs <= |before|
    requires Placed(before, frags, fs, j) && forall x :: 0 <= x < j * fs ==> after[x] == before[x]
    ensures Placed(after, frags, fs, j)
  {
    forall i' | 0 <= i' < |frags| && frags[i'].idx < j
      ensures HasAt(after, frags[i'].idx * fs, frags[i'].data)
    {
      PlaceFits(frags[i'].idx, j, fs);
      assert HasAt(before, frags[i'].idx * fs, frags[i'].data);
    }
  }

  /** qseal_evidence_reassemble: true with the blob in out, or false with out zeroed. */
  method Reassemble(frags: seq<Frag>, fs: nat, out: array<Byte>) returns (ok: bool)
    requires Shaped(frags, fs) && out.Length == |frags| * fs
    modifies out
    ensures ok <==> WellFormed(frags)
    ensures ok ==> Placed(out[..], frags, fs, |frags|)
    ensures !ok ==> forall x :: 0 <= x < out.Length ==> out[x] == 0
  {
    var nf := |frags|;
    ok := true;
    for i := 0 to nf
      invariant ok <==> forall i' :: 0 <= i' < i ==> frags[i'].total == nf
    {
      if frags[i].total != nf { ok := false; }
    }
    for j := 0 to nf
      invariant ok <==> TotalsOk(frags) && EachOnce(frags, j)
    {
      var c := 0;
      for i := 0 to nf
        invariant c == Count(frags[..i], j)
      {
        assert frags[..i + 1][..i] == frags[..i];
        if frags[i].idx == j { c := c + 1; }
      }
      assert frags[..nf] == frags;
      if c != 1 { ok := false; }
    }
    if !ok {
      for i := 0 to out.Length
        invariant forall x :: 0 <= x < i ==> out[x] == 0
      {
        out[i] := 0;
      }
      return false;
    }
    Place(frags, fs, out);
  }

  lemma PlaceNext(out: seq<Byte>, frags: seq<Frag>, fs: nat, j: nat, i: nat)
    requires Shaped(frags, fs) && WellFormed(frags) && |out| == |frags| * fs && Placed(out, frags, fs, j)
    requires j < |frags| && i < |frags| && frags[i].idx == j
    ensures j * fs <= (j + 1) * fs <= |out|
    ensures var next := out[..j * fs] + frags[i].data + out[(j + 1) * fs..];
      |next| == |out| && Placed(next, frags, fs, j + 1)
  {
    PlaceFits(j, |frags|, fs);
    var next := out[..j * fs] + frags[i].data + out[(j + 1) * fs..];
    forall i' | 0 <= i' < |frags| && frags[i'].idx < j + 1
      ensures HasAt(next, frags[i'].idx * fs, frags[i'].data)
    {
      if frags[i'].idx == j {
        assert Count(frags, j) == 1;
        if i' < i { CountTwo(frags, i', i); }
        if i < i' { CountTwo(frags, i, i'); }
      } else {
        PlaceFits(frags[i'].idx, j, fs);
        assert HasAt(out, frags[i'].idx * fs, frags[i'].data);
        KeepsBefore(out, next, j * fs, frags[i'].idx * fs, frags[i'].data);
      }
    }
  }

  lemma KeepsBefore(out: seq<Byte>, next: seq<Byte>, end: nat, at: nat, data: seq<Byte>)
    requires HasAt(out, at, data) && at + |data| <= end <= |out| && end <= |next| && next[..end] == out[..end]
    ensures HasAt(next, at, data)
  {
    assert next[at..at + |data|] == next[..end][at..at + |data|] == out[..end][at..at + |data|];
  }

  /** The Rust twin, on values. */
  method ReassembleEvidence(frags: seq<Frag>, fs: nat) returns (r: Option<seq<Byte>>)
    requires Shaped(frags, fs)
    ensures r.Some? <==> WellFormed(frags)
    ensures r.Some? ==> |r.value| == |frags| * fs && Placed(r.value, frags, fs, |frags|)
  {
    if !WellFormed(frags) { return None; }
    var nf := |frags|;
    var out: seq<Byte> := seq(nf * fs, _ => 0);
    for j := 0 to nf
      invariant |out| == nf * fs && Placed(out, frags, fs, j)
    {
      PlaceFits(j, nf, fs);
      ghost var owner := Owner(frags, j);
      var i := 0;
      while frags[i].idx != j
        invariant i <= owner
        decreases nf - i
      {
        i := i + 1;
      }
      PlaceNext(out, frags, fs, j, i);
      out := out[..j * fs] + frags[i].data + out[(j + 1) * fs..];
    }
    return Some(out);
  }

  // ---------- fragmenting, and the main result ----------

  /** The split of a blob into nf fragments of fs bytes. */
  function Fragment(e: seq<Byte>, nf: nat, fs: nat): (r: seq<Frag>)
    requires |e| == nf * fs && nf <= 255
    ensures |r| == nf
  {
    seq(nf, i requires 0 <= i < nf => PlaceFits(i, nf, fs); Frag(i, nf, e[i * fs..(i + 1) * fs]))
  }

  lemma {:induction false} FragmentCounts(e: seq<Byte>, nf: nat, fs: nat, n: nat, j: nat)
    requires |e| == nf * fs && nf <= 255 && n <= nf
    ensures Count(Fragment(e, nf, fs)[..n], j) == if j < n then 1 else 0
  {
    var f := Fragment(e, nf, fs);
    if n > 0 {
      FragmentCounts(e, nf, fs, n - 1, j);
      assert f[..n][..n - 1] == f[..n - 1];
    }
  }

  lemma FragmentWellFormed(e: seq<Byte>, nf: nat, fs: nat)
    requires |e| == nf * fs && nf <= 255
    ensures WellFormed(Fragment(e, nf, fs))
  {
    var f := Fragment(e, nf, fs);
    forall j | 0 <= j < nf ensures Count(f, j) == 1 {
      FragmentCounts(e, nf, fs, nf, j);
      assert f[..nf] == f;
    }
  }

  lemma {:induction false} CountConcat(s: seq<Frag>, t: seq<Frag>, j: int)
    ensures Count(s + t, j) == Count(s, j) + Count(t, j)
  {
    if t == [] {
      assert s + t == s;
    } else {
      CountConcat(s, t[..|t| - 1], j);
      assert (s + t)[..|s + t| - 1] == s + t[..|t| - 1];
    }
  }

  /** A count does not depend on the order. */
  lemma {:induction false} CountReordered(s: seq<Frag>, t: seq<Frag>, j: int)
    requires multiset(s) == multiset(t)
    ensures Count(s, j) == Count(t, j)
  {
    if s == [] {
      assert |multiset(t)| == 0;
    } else {
      var init, f := s[..|s| - 1], s[|s| - 1];
      assert s == init + [f];
      assert f in multiset(t);
      var k :| 0 <= k < |t| && t[k] == f;
      CountWithout(t, k, j);
      CountReordered(init, t[..k] + t[k + 1..], j);
    }
  }

  /** Taking one fragment out takes one off the count of its index. */
  lemma CountWithout(t: seq<Frag>, k: nat, j: int)
    requires k < |t|
    ensures var rest := t[..k] + t[k + 1..];
      multiset(rest) == multiset(t) - multiset{t[k]} && Count(t, j) == Count(rest, j) + if t[k].idx == j then 1 else 0
  {
    var f := t[k];
    assert t == t[..k] + ([f] + t[k + 1..]);
    assert Count([f], j) == if f.idx == j then 1 else 0;
    hide Count;
    CountConcat(t[..k], [f] + t[k + 1..], j);
    CountConcat([f], t[k + 1..], j);
    CountConcat(t[..k], t[k + 1..], j);
  }

  /** With every index at most once, a fragment occurs at most once. */
  lemma {:induction false} OccursOnce(frags: seq<Frag>, f: Frag)
    ensures multiset(frags)[f] <= Count(frags, f.idx)
  {
    if frags != [] {
      assert frags == frags[..|frags| - 1] + [frags[|frags| - 1]];
      OccursOnce(frags[..|frags| - 1], f);
    }
  }

  /** The blob that the fragments of a well-formed set make up, wherever they stand. */
  lemma PlacedSlice(out: seq<Byte>, frags: seq<Frag>, fs: nat, i: nat)
    requires Shaped(frags, fs) && WellFormed(frags) && |out| == |frags| * fs && Placed(out, frags, fs, |frags|)
    requires i < |frags|
    ensures frags[i].idx < |frags| && frags[i] == Fragment(out, |frags|, fs)[frags[i].idx]
  {
    NoOtherIndex(frags, i);
    var j := frags[i].idx;
    PlaceFits(j, |frags|, fs);
    assert HasAt(out, j * fs, frags[i].data);
    assert Fragment(out, |frags|, fs)[j] == Frag(j, |frags|, out[j * fs..(j + 1) * fs]);
  }

  /** An accepted set is a reordering of the split of the blob it yields. */
  lemma AcceptedIsReordering(out: seq<Byte>, frags: seq<Frag>, fs: nat)
    requires Shaped(frags, fs) && WellFormed(frags) && |out| == |frags| * fs && Placed(out, frags, fs, |frags|)
    ensures multiset(frags) == multiset(Fragment(out, |frags|, fs))
  {
    var nf := |frags|;
    var split := Fragment(out, nf, fs);
    FragmentWellFormed(out, nf, fs);
    forall j | 0 <= j < nf ensures split[j] in frags {
      assert Count(frags, j) == 1;
      var i := Owner(frags, j);
      PlacedSlice(out, frags, fs, i);
    }
    forall f ensures multiset(frags)[f] == multiset(split)[f] {
      OccursOnce(frags, f);
      OccursOnce(split, f);
      if f in frags {
        var i :| 0 <= i < nf && frags[i] == f;
        PlacedSlice(out, frags, fs, i);
        assert Count(frags, f.idx) == 1 && Count(split, f.idx) == 1;
        assert f in multiset(frags) && f in multiset(split);
      }
    }
  }

  /** A reordering of the split of a blob is accepted, and only that blob fits its fragments. */
  lemma ReorderingIsAccepted(e: seq<Byte>, out: seq<Byte>, frags: seq<Frag>, fs: nat)
    requires Shaped(frags, fs) && |e| == |out| == |frags| * fs
    requires multiset(frags) == multiset(Fragment(e, |frags|, fs))
    ensures WellFormed(frags)
    ensures Placed(out, frags, fs, |frags|) ==> out == e
  {
    var nf := |frags|;
    var split := Fragment(e, nf, fs);
    FragmentWellFormed(e, nf, fs);
    forall j | 0 <= j < nf ensures Count(frags, j) == 1 {
      CountReordered(frags, split, j);
    }
    forall i | 0 <= i < nf ensures frags[i].total == nf {
      assert frags[i] in multiset(split);
    }
    if Placed(out, frags, fs, nf) {
      forall j | 0 <= j < nf ensures HasAt(out, j * fs, split[j].data) {
        assert split[j] in multiset(frags);
        var i :| 0 <= i < nf && frags[i] == split[j];
        assert HasAt(out, frags[i].idx * fs, frags[i].data);
      }
      BlobsEqual(e, out, nf, fs);
    }
  }

  lemma BlobsEqual(e: seq<Byte>, out: seq<Byte>, nf: nat, fs: nat)
    requires |e| == |out| == nf * fs && nf <= 255
    requires forall j :: 0 <= j < nf ==> HasAt(out, j * fs, Fragment(e, nf, fs)[j].data)
    ensures out == e
  {
    forall x | 0 <= x < nf * fs ensures out[x] == e[x] {
      var j, k := x / fs, x % fs;
      assert x == j * fs + k;
      assert j < nf by { if j >= nf { MulMono(nf, j, fs); } }
      PlaceFits(j, nf, fs);
      assert HasAt(out, j * fs, Fragment(e, nf, fs)[j].data);
      assert out[j * fs..j * fs + fs][k] == e[j * fs..(j + 1) * fs][k];
    }
  }

  /** For every fragment size and 1 to 255 fragments: a set is accepted iff it is some reordering of the
      split of some blob, and that blob is the only one the output can be. */
  lemma AcceptedIffReordering(frags: seq<Frag>, fs: nat, out: seq<Byte>)
    requires Shaped(frags, fs) && |out| == |frags| * fs
    requires WellFormed(frags) ==> Placed(out, frags, fs, |frags|)
    ensures WellFormed(frags) <==>
      exists e: seq<Byte> :: |e| == |frags| * fs && multiset(frags) == multiset(Fragment(e, |frags|, fs))
    ensures forall e: seq<Byte> :: |e| == |frags| * fs && multiset(frags) == multiset(Fragment(e, |frags|, fs)) ==> e == out
  {
    if WellFormed(frags) { AcceptedIsReordering(out, frags, fs); }
    forall e: seq<Byte> | |e| == |frags| * fs && multiset(frags) == multiset(Fragment(e, |frags|, fs))
      ensures WellFormed(frags) && e == out
    {
      ReorderingIsAccepted(e, out, frags, fs);
    }
  }
}

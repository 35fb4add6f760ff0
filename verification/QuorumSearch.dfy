/** Searching downwards for the highest index with a quorum. */
module QuorumSearch {
  import opened Wrappers
  import opened Hashing
  import opened Checkpoints
  import opened Quorums

  // ----- The latest indices reported -----

  /** The latest index of each listed validator that reports one, by address: a validator listed twice
      counts once. */
  function Reported(net: Network, validators: seq<H256>, n: nat): map<Address, nat>
    requires n <= |validators|
  {
    if n == 0 then
      map[]
    else
      var before, address := Reported(net, validators, n - 1), ToAddress(validators[n - 1]);
      if address in net.syncers && net.syncers[address].latest.Some? then
        before[address := net.syncers[address].latest.value]
      else
        before
  }

  /** The validator at this address reports a latest index of at least `v`. */
  ghost predicate Reports(net: Network, address: Address, v: nat) {
    address in net.syncers && net.syncers[address].latest.Some? && net.syncers[address].latest.value >= v
  }

  /** The addresses of listed validators that report at least `v`; at least 0 means that they report. */
  ghost function Reached(net: Network, validators: seq<H256>, v: nat): set<Address> {
    set p: nat | p < |validators| && Reports(net, ToAddress(validators[p]), v) :: ToAddress(validators[p])
  }

  /** The indices are the ones reported, one for each address. */
  ghost predicate AllLatest(net: Network, validators: seq<H256>, indices: seq<nat>) {
    && |indices| == |Reached(net, validators, 0)|
    && forall v: nat :: CountAtLeast(indices, v) == |Reached(net, validators, v)|
  }

  /** What is reported is the latest index of exactly the listed validators that have one. */
  lemma {:induction false} ReportedExactly(net: Network, validators: seq<H256>, n: nat, a: Address)
    requires n <= |validators|
    ensures var reported := Reported(net, validators, n);
            && (a in reported <==> exists p :: 0 <= p < n && ToAddress(validators[p]) == a && Reports(net, a, 0))
            && (a in reported ==> a in net.syncers && net.syncers[a].latest == Some(reported[a]))
  {
    if n > 0 {
      ReportedExactly(net, validators, n - 1, a);
      var address := ToAddress(validators[n - 1]);
      if address == a && Reports(net, a, 0) {
        assert ToAddress(validators[n - 1]) == a;
      }
    }
  }

  lemma ReportedReaches(net: Network, validators: seq<H256>, v: nat)
    ensures Reaching(Reported(net, validators, |validators|), v) == Reached(net, validators, v)
  {
    var reported := Reported(net, validators, |validators|);
    forall a
      ensures a in Reaching(reported, v) <==> a in Reached(net, validators, v)
    {
      ReportedExactly(net, validators, |validators|, a);
    }
  }

  lemma ReportedValues(net: Network, validators: seq<H256>, indices: seq<nat>)
    requires Values(indices, Reported(net, validators, |validators|))
    ensures AllLatest(net, validators, indices)
  {
    var reported := Reported(net, validators, |validators|);
    forall v: nat
      ensures CountAtLeast(indices, v) == |Reached(net, validators, v)|
    {
      ReportedReaches(net, validators, v);
      assert CountAtLeast(indices, v) == |Reaching(reported, v)|;
    }
    ReportedReaches(net, validators, 0);
    assert Reaching(reported, 0) == reported.Keys;
  }

  method LatestIndices(net: Network, validators: seq<H256>) returns (indices: seq<nat>)
    ensures AllLatest(net, validators, indices)
  {
    var latest: map<Address, Option<nat>> := map[];
    for i := 0 to |validators|
      invariant forall a :: a in latest ==> a in net.syncers && latest[a] == net.syncers[a].latest
      invariant forall a :: a in Reported(net, validators, i) <==> a in latest && latest[a].Some?
      invariant forall a :: a in Reported(net, validators, i) ==> Reported(net, validators, i)[a] == latest[a].value
    {
      var address := ToAddress(validators[i]);
      if address in net.syncers {
        latest := latest[address := net.syncers[address].latest];
      }
    }
    indices := PresentValues(latest, Reported(net, validators, |validators|));
    ReportedValues(net, validators, indices);
  }

  /** The values that are present, in the unspecified order of the map. */
  method PresentValues(latest: map<Address, Option<nat>>, ghost present: map<Address, nat>) returns (indices: seq<nat>)
    requires forall a :: a in present <==> a in latest && latest[a].Some?
    requires forall a :: a in present ==> present[a] == latest[a].value
    ensures Values(indices, present)
  {
    indices := [];
    ghost var done: map<Address, nat> := map[];
    var rest := latest.Keys;
    NoValues();
    while rest != {}
      invariant rest <= latest.Keys && Values(indices, done)
      invariant forall a :: a in done <==> a in present && a !in rest
      invariant forall a :: a in done ==> done[a] == present[a]
      decreases |rest|
    {
      var address :| address in rest;
      rest := rest - {address};
      if latest[address].Some? {
        ValuesGrow(indices, done, address, latest[address].value);
        indices := indices + [latest[address].value];
        done := done[address := latest[address].value];
      }
    }
    assert done == present;
  }

  /** The addresses that report at least `v`. */
  ghost function Reaching(reported: map<Address, nat>, v: nat): set<Address> {
    set a | a in reported && reported[a] >= v
  }

  function CountAtLeast(indices: seq<nat>, v: nat): nat {
    if indices == [] then 0 else CountAtLeast(indices[..|indices| - 1], v) + if indices[|indices| - 1] >= v then 1 else 0
  }

  /** The values of a map, in some order. */
  ghost predicate Values(indices: seq<nat>, reported: map<Address, nat>) {
    |indices| == |reported| && forall v: nat :: CountAtLeast(indices, v) == |Reaching(reported, v)|
  }

  lemma NoValues()
    ensures Values([], map[])
  {
    forall v: nat
      ensures Reaching(map[], v) == {}
    {
    }
  }

  lemma ValuesGrow(indices: seq<nat>, reported: map<Address, nat>, address: Address, index: nat)
    requires Values(indices, reported) && address !in reported
    ensures Values(indices + [index], reported[address := index])
  {
    var after, longer := reported[address := index], indices + [index];
    assert after.Keys == reported.Keys + {address};
    forall v: nat
      ensures CountAtLeast(longer, v) == |Reaching(after, v)|
    {
      assert CountAtLeast(indices, v) == |Reaching(reported, v)|;
      CountGrows(indices, reported, address, index, v);
    }
  }

  lemma CountGrows(indices: seq<nat>, reported: map<Address, nat>, address: Address, index: nat, v: nat)
    requires CountAtLeast(indices, v) == |Reaching(reported, v)| && address !in reported
    ensures CountAtLeast(indices + [index], v) == |Reaching(reported[address := index], v)|
  {
    assert (indices + [index])[..|indices|] == indices;
    assert Reaching(reported[address := index], v) == Reaching(reported, v) + if index >= v then {address} else {};
  }

  // ----- The quorum index -----

  ghost predicate Descending(s: seq<nat>) {
    forall i, j :: 0 <= i < j < |s| ==> s[i] >= s[j]
  }

  /** Stands for the library's sort: descending, and with the same counts. */
  method SortDescending(indices: seq<nat>) returns (sorted: seq<nat>)
    ensures Descending(sorted) && |sorted| == |indices|
    ensures forall v: nat :: CountAtLeast(sorted, v) == CountAtLeast(indices, v)
  {
    sorted := [];
    for i := 0 to |indices|
      invariant Descending(sorted) && |sorted| == i
      invariant forall v: nat :: CountAtLeast(sorted, v) == CountAtLeast(indices[..i], v)
    {
      var at := i;
      while at > 0 && sorted[at - 1] < indices[i]
        invariant 0 <= at <= i
        invariant forall k :: at <= k < i ==> sorted[k] < indices[i]
      {
        at := at - 1;
      }
      assert indices[..i + 1][..i] == indices[..i];
      forall v: nat
        ensures CountAtLeast(sorted[..at] + [indices[i]] + sorted[at..], v) == CountAtLeast(indices[..i + 1], v)
      {
        CountInserted(sorted, at, indices[i], v);
      }
      sorted := sorted[..at] + [indices[i]] + sorted[at..];
    }
    assert indices[..|indices|] == indices;
  }

  lemma {:induction false} CountInserted(s: seq<nat>, at: nat, x: nat, v: nat)
    requires at <= |s|
    ensures CountAtLeast(s[..at] + [x] + s[at..], v) == CountAtLeast(s, v) + if x >= v then 1 else 0
    decreases |s|
  {
    var inserted := s[..at] + [x] + s[at..];
    if at == |s| {
      assert inserted[..|s|] == s;
    } else {
      var before := s[..|s| - 1];
      assert inserted[..|s|] == before[..at] + [x] + before[at..];
      CountInserted(before, at, x, v);
    }
  }

  /** The largest index that at least `threshold` listed addresses report to have reached. */
  ghost predicate IsQuorumIndex(net: Network, validators: seq<H256>, threshold: nat, q: nat) {
    && |Reached(net, validators, q)| >= threshold
    && forall v :: v > q ==> |Reached(net, validators, v)| < threshold
  }

  lemma {:induction false} CountDescending(s: seq<nat>, v: nat)
    requires Descending(s)
    ensures CountAtLeast(s, v) <= |s|
    ensures forall i :: 0 <= i < |s| ==> (s[i] >= v <==> i < CountAtLeast(s, v))
    decreases |s|
  {
    if s != [] {
      CountDescending(s[..|s| - 1], v);
    }
  }

  /** The entry at position threshold - 1 of the sorted indices is the quorum index; without such an
      entry there is none. */
  lemma OrderStatisticIsQuorumIndex(net: Network, validators: seq<H256>, sorted: seq<nat>, threshold: nat)
    requires Descending(sorted) && AllLatest(net, validators, sorted) && threshold >= 1
    ensures threshold <= |sorted| ==> IsQuorumIndex(net, validators, threshold, sorted[threshold - 1])
    ensures threshold > |sorted| ==> |Reached(net, validators, 0)| < threshold
  {
    if threshold <= |sorted| {
      var q := sorted[threshold - 1];
      CountDescending(sorted, q);
      assert |Reached(net, validators, q)| == CountAtLeast(sorted, q);
      forall v | v > q
        ensures |Reached(net, validators, v)| < threshold
      {
        CountDescending(sorted, v);
        assert |Reached(net, validators, v)| == CountAtLeast(sorted, v);
      }
    }
  }

  lemma QuorumIndexIsUnique(net: Network, validators: seq<H256>, threshold: nat, p: nat, q: nat)
    requires IsQuorumIndex(net, validators, threshold, p) && IsQuorumIndex(net, validators, threshold, q)
    ensures p == q
  {
    assert !(p < q) && !(q < p);
  }

  // ----- The search -----

  /** The result is the highest index from `minimum` to `top` at which a quorum is fetched. */
  ghost predicate HighestFetched(
    net: Network, validators: seq<H256>, threshold: nat, minimum: nat, top: nat, r: Option<MultisigSignedCheckpoint>
  ) {
    match r
    case None => forall i :: minimum <= i <= top ==> !Fetch(net, validators, threshold, i).Fetched?
    case Some(m) =>
      var at := m.checkpoint.checkpoint.index;
      && minimum <= at <= top
      && Fetch(net, validators, threshold, at) == Fetched(m)
      && forall i :: at < i <= top ==> !Fetch(net, validators, threshold, i).Fetched?
  }

  method FetchCheckpointInRange(net: Network, validators: seq<H256>, threshold: nat, minimum: nat, maximum: nat)
    returns (r: Option<MultisigSignedCheckpoint>)
    requires threshold >= 1
    ensures if |Reached(net, validators, 0)| < threshold then
              r == None
            else
              exists q: nat :: IsQuorumIndex(net, validators, threshold, q)
                          && HighestFetched(net, validators, threshold, minimum, if q <= maximum then q else maximum, r)
  {
    var indices := LatestIndices(net, validators);
    if indices == [] {
      return None;
    }
    var sorted := SortDescending(indices);
    OrderStatisticIsQuorumIndex(net, validators, sorted, threshold);
    if threshold - 1 >= |sorted| {
      return None;
    }
    var highestQuorumIndex := sorted[threshold - 1];
    assert IsQuorumIndex(net, validators, threshold, highestQuorumIndex);
    var start := if highestQuorumIndex <= maximum then highestQuorumIndex else maximum;
    if minimum > start {
      return None;
    }
    var index := start + 1;
    while index > minimum
      invariant minimum <= index <= start + 1
      invariant forall i :: index <= i <= start ==> !Fetch(net, validators, threshold, i).Fetched?
    {
      index := index - 1;
      var fetched := FetchCheckpoint(net, validators, threshold, index);
      if fetched.Fetched? {
        var ps := FetchedIsQuorum(net, validators, threshold, index, fetched.multisig);
        return Some(fetched.multisig);
      }
    }
    return None;
  }
}

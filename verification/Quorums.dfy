/** Finding a quorum of signatures over one checkpoint among the validators' stores. */
module Quorums {
  import opened Wrappers
  import opened Hashing
  import opened Checkpoints

  /** A 20-byte address. */
  type Address = nat

  const ADDRESS_SPACE: nat := 0x1_0000000000_0000000000_0000000000_0000000000

  /** The low 20 bytes of a word. */
  function ToAddress(word: H256): Address {
    word % ADDRESS_SPACE
  }

  /** An address as a word, padded with zeros. */
  function ToWord(address: Address): H256 {
    address
  }

  /** What one validator's store answers; an error is as good as nothing found. */
  datatype Syncer = Syncer(latest: Option<nat>, checkpoints: map<nat, SignedCheckpoint>)

  /** The stores by address, and signature recovery, which may fail. */
  datatype Network = Network(syncers: map<Address, Syncer>, recover: SignedCheckpoint -> Option<Address>)

  datatype Verdict = Skipped | RecoveryFailed | Accepted(signed: SignedCheckpoint)

  /** What the store of one validator contributes to a checkpoint at `index`. */
  function Examine(net: Network, validator: H256, index: nat): Verdict {
    var address := ToAddress(validator);
    if address !in net.syncers || index !in net.syncers[address].checkpoints then
      Skipped
    else
      var signed := net.syncers[address].checkpoints[index];
      if signed.value.checkpoint.index != index then
        Skipped
      else
        match net.recover(signed)
        case None => RecoveryFailed
        case Some(signer) => if ToWord(signer) != validator then Skipped else Accepted(signed)
  }

  datatype FetchResult = Fetched(multisig: MultisigSignedCheckpoint) | NoQuorum | RecoveryError | Inconsistent

  function AsFetchResult(r: MultisigResult): FetchResult {
    match r
    case Combined(m) => Fetched(m)
    case _ => Inconsistent
  }

  /** The validator's store has an accepted signature over `root`. */
  predicate Backs(net: Network, validator: H256, index: nat, root: H256) {
    var verdict := Examine(net, validator, index);
    verdict.Accepted? && verdict.signed.value.checkpoint.root == root
  }

  /** The accepted checkpoints over `root` of the first `n` validators, in list order. */
  function Group(net: Network, validators: seq<H256>, index: nat, n: nat, root: H256): seq<SignedCheckpoint>
    requires n <= |validators|
  {
    if n == 0 then
      []
    else
      Group(net, validators, index, n - 1, root)
      + if Backs(net, validators[n - 1], index, root) then [Examine(net, validators[n - 1], index).signed] else []
  }

  /** What the first `n` validators decide, if anything. */
  function Decision(net: Network, validators: seq<H256>, threshold: nat, index: nat, n: nat): Option<FetchResult>
    requires n <= |validators|
  {
    if n == 0 then
      None
    else
      var before := Decision(net, validators, threshold, index, n - 1);
      if before.Some? then
        before
      else
        match Examine(net, validators[n - 1], index)
        case Skipped => None
        case RecoveryFailed => Some(RecoveryError)
        case Accepted(signed) =>
          var group := Group(net, validators, index, n, signed.value.checkpoint.root);
          if |group| >= threshold then Some(AsFetchResult(Combine(group))) else None
  }

  function Fetch(net: Network, validators: seq<H256>, threshold: nat, index: nat): FetchResult {
    Decision(net, validators, threshold, index, |validators|).GetOr(NoQuorum)
  }

  /** `MultisigSignedCheckpoint::try_from`, which checks all values against the first. */
  method TryCombine(signed: seq<SignedCheckpoint>) returns (r: MultisigResult)
    ensures r == Combine(signed)
  {
    if signed == [] {
      return EmptySignatures;
    }
    for i := 0 to |signed|
      invariant forall k :: 0 <= k < i ==> signed[k].value == signed[0].value
    {
      if signed[i].value != signed[0].value {
        assert signed[i] in signed;
        return InconsistentCheckpoints;
      }
    }
    return Combined(MultisigSignedCheckpoint(signed[0].value, Signatures(signed)));
  }

  ghost predicate GroupedAt(
    net: Network, validators: seq<H256>, index: nat, n: nat, perRoot: map<H256, seq<SignedCheckpoint>>, root: H256
  )
    requires n <= |validators|
  {
    Group(net, validators, index, n, root) == if root in perRoot then perRoot[root] else []
  }

  /** The map has the group of every root, the empty ones left out. */
  ghost predicate Grouped(
    net: Network, validators: seq<H256>, index: nat, n: nat, perRoot: map<H256, seq<SignedCheckpoint>>
  )
    requires n <= |validators|
  {
    forall root :: GroupedAt(net, validators, index, n, perRoot, root)
  }

  lemma GroupedStep(
    net: Network, validators: seq<H256>, index: nat, n: nat, perRoot: map<H256, seq<SignedCheckpoint>>
  )
    requires n < |validators| && Grouped(net, validators, index, n, perRoot)
    ensures var verdict := Examine(net, validators[n], index);
            if verdict.Accepted? then
              var root := verdict.signed.value.checkpoint.root;
              var group := (if root in perRoot then perRoot[root] else []) + [verdict.signed];
              group == Group(net, validators, index, n + 1, root)
              && Grouped(net, validators, index, n + 1, perRoot[root := group])
            else
              Grouped(net, validators, index, n + 1, perRoot)
  {
    var verdict, next := Examine(net, validators[n], index), n + 1;
    var after := perRoot;
    if verdict.Accepted? {
      var root := verdict.signed.value.checkpoint.root;
      assert GroupedAt(net, validators, index, n, perRoot, root);
      after := perRoot[root := Group(net, validators, index, n, root) + [verdict.signed]];
    }
    forall root
      ensures GroupedAt(net, validators, index, next, after, root)
    {
      assert GroupedAt(net, validators, index, n, perRoot, root);
    }
  }

  method FetchCheckpoint(net: Network, validators: seq<H256>, threshold: nat, index: nat) returns (r: FetchResult)
    ensures r == Fetch(net, validators, threshold, index)
  {
    var perRoot: map<H256, seq<SignedCheckpoint>> := map[];
    for i := 0 to |validators|
      invariant Grouped(net, validators, index, i, perRoot)
      invariant Decision(net, validators, threshold, index, i) == None
    {
      GroupedStep(net, validators, index, i, perRoot);
      var address := ToAddress(validators[i]);
      if address !in net.syncers || index !in net.syncers[address].checkpoints {
        continue;
      }
      var signed := net.syncers[address].checkpoints[index];
      if signed.value.checkpoint.index != index {
        continue;
      }
      var signer := net.recover(signed);
      if signer.None? {
        DecisionStays(net, validators, threshold, index, i + 1, |validators|);
        return RecoveryError;
      }
      if ToWord(signer.value) != validators[i] {
        continue;
      }
      assert Examine(net, validators[i], index) == Accepted(signed);
      var root := signed.value.checkpoint.root;
      var group := (if root in perRoot then perRoot[root] else []) + [signed];
      perRoot := perRoot[root := group];
      if |group| >= threshold {
        var combined := TryCombine(group);
        DecisionStays(net, validators, threshold, index, i + 1, |validators|);
        return AsFetchResult(combined);
      }
    }
    return NoQuorum;
  }

  lemma {:induction false} DecisionStays(net: Network, validators: seq<H256>, threshold: nat, index: nat, n: nat, m: nat)
    requires n <= m <= |validators| && Decision(net, validators, threshold, index, n).Some?
    ensures Decision(net, validators, threshold, index, m) == Decision(net, validators, threshold, index, n)
    decreases m
  {
    if n < m {
      DecisionStays(net, validators, threshold, index, n, m - 1);
    }
  }

  // ----- In terms of the stores and of recovery alone -----

  /** The validator's store has `signed` at the index, and it carries that index. */
  ghost predicate Stores(net: Network, validator: H256, index: nat, signed: SignedCheckpoint) {
    var address := ToAddress(validator);
    && address in net.syncers && index in net.syncers[address].checkpoints
    && net.syncers[address].checkpoints[index] == signed && signed.value.checkpoint.index == index
  }

  /** And the signature is the validator's. */
  ghost predicate Signs(net: Network, validator: H256, index: nat, signed: SignedCheckpoint) {
    && Stores(net, validator, index, signed)
    && net.recover(signed).Some? && ToWord(net.recover(signed).value) == validator
  }

  ghost predicate SignsRoot(net: Network, validator: H256, index: nat, root: H256) {
    exists signed :: Signs(net, validator, index, signed) && signed.value.checkpoint.root == root
  }

  /** It has one of which no signer can be recovered. */
  ghost predicate Unrecoverable(net: Network, validator: H256, index: nat) {
    exists signed :: Stores(net, validator, index, signed) && net.recover(signed).None?
  }

  /** What is accepted, and what fails: a signature by someone else is skipped, and does no harm. */
  lemma ExaminedExactly(net: Network, validator: H256, index: nat)
    ensures forall signed :: Examine(net, validator, index) == Accepted(signed) <==> Signs(net, validator, index, signed)
    ensures Examine(net, validator, index).RecoveryFailed? <==> Unrecoverable(net, validator, index)
    ensures forall root :: Backs(net, validator, index, root) <==> SignsRoot(net, validator, index, root)
  {
    var verdict := Examine(net, validator, index);
    if verdict.Accepted? {
      assert Signs(net, validator, index, verdict.signed);
    }
    if verdict.RecoveryFailed? {
      assert Stores(net, validator, index, net.syncers[ToAddress(validator)].checkpoints[index]);
    }
  }

  /** An address survives as a word, and a word is an address exactly if its upper bytes are zero. */
  lemma AddressRoundTrip(address: Address, word: H256)
    requires 0 <= word
    ensures address < ADDRESS_SPACE ==> ToAddress(ToWord(address)) == address
    ensures ToWord(ToAddress(word)) == word <==> word < ADDRESS_SPACE
  {
  }

  /** The places among the first `n` whose validators sign `root`. */
  ghost function Signers(net: Network, validators: seq<H256>, index: nat, n: nat, root: H256): set<nat>
    requires n <= |validators|
  {
    set p: nat | p < n && SignsRoot(net, validators[p], index, root)
  }

  lemma {:induction false} GroupCounts(net: Network, validators: seq<H256>, index: nat, n: nat, root: H256)
    requires n <= |validators|
    ensures |Group(net, validators, index, n, root)| == |Signers(net, validators, index, n, root)|
  {
    if n > 0 {
      GroupCounts(net, validators, index, n - 1, root);
      ExaminedExactly(net, validators[n - 1], index);
      SignersGrow(net, validators, index, n - 1, root);
    }
  }

  lemma SignersGrow(net: Network, validators: seq<H256>, index: nat, n: nat, root: H256)
    requires n < |validators|
    ensures |Signers(net, validators, index, n + 1, root)|
            == |Signers(net, validators, index, n, root)| + if SignsRoot(net, validators[n], index, root) then 1 else 0
  {
    var before, after := Signers(net, validators, index, n, root), Signers(net, validators, index, n + 1, root);
    var added: set<nat> := if SignsRoot(net, validators[n], index, root) then {n} else {};
    forall p: nat
      ensures p in after <==> p in before + added
    {
    }
    assert after == before + added && before !! added;
  }

  // ----- When there is a decision, and which -----

  /** A threshold of zero is met by the first signature. */
  function Needed(threshold: nat): nat {
    if threshold == 0 then 1 else threshold
  }

  ghost predicate TooFew(net: Network, validators: seq<H256>, threshold: nat, index: nat, n: nat, root: H256)
    requires n <= |validators|
  {
    |Signers(net, validators, index, n, root)| < Needed(threshold)
  }

  /** Among the first `n`, nothing is unrecoverable, and no root has enough signers. */
  ghost predicate Unsettled(net: Network, validators: seq<H256>, threshold: nat, index: nat, n: nat)
    requires n <= |validators|
  {
    && (forall i :: 0 <= i < n ==> !Unrecoverable(net, validators[i], index))
    && (forall root :: TooFew(net, validators, threshold, index, n, root))
  }

  /** The validator at `n` is the one that completes the signers of `root`. */
  ghost predicate Completes(net: Network, validators: seq<H256>, threshold: nat, index: nat, n: nat, root: H256)
    requires n < |validators|
  {
    && Unsettled(net, validators, threshold, index, n)
    && SignsRoot(net, validators[n], index, root)
    && |Signers(net, validators, index, n + 1, root)| == Needed(threshold)
  }

  /** All that the first `n` sign over `root` is one value. */
  ghost predicate Agree(net: Network, validators: seq<H256>, index: nat, n: nat, root: H256)
    requires n <= |validators|
  {
    exists value :: AllSign(net, validators, index, n, root, value)
  }

  ghost predicate AllSign(
    net: Network, validators: seq<H256>, index: nat, n: nat, root: H256, value: CheckpointWithMessageId
  )
    requires n <= |validators|
  {
    forall p: nat, signed :: p < n && Signs(net, validators[p], index, signed) ==>
      signed.value.checkpoint.root == root ==> signed.value == value
  }

  lemma OneSigned(net: Network, validator: H256, index: nat, signed: SignedCheckpoint)
    requires Signs(net, validator, index, signed)
    ensures forall root :: SignsRoot(net, validator, index, root) <==> root == signed.value.checkpoint.root
    ensures !Unrecoverable(net, validator, index)
  {
  }

  /** What the validator at `n` does to an open question. */
  lemma SettledAt(net: Network, validators: seq<H256>, threshold: nat, index: nat, n: nat)
    requires n < |validators| && Unsettled(net, validators, threshold, index, n)
    requires Decision(net, validators, threshold, index, n) == None
    ensures Decision(net, validators, threshold, index, n + 1) == None
            <==> Unsettled(net, validators, threshold, index, n + 1)
    ensures Unrecoverable(net, validators[n], index) ==>
              Decision(net, validators, threshold, index, n + 1) == Some(RecoveryError)
    ensures forall root :: Completes(net, validators, threshold, index, n, root) ==>
              Decision(net, validators, threshold, index, n + 1)
              == Some(AsFetchResult(Combine(Group(net, validators, index, n + 1, root))))
    ensures Decision(net, validators, threshold, index, n + 1).Some? && !Unrecoverable(net, validators[n], index) ==>
              exists root :: Completes(net, validators, threshold, index, n, root)
  {
    ExaminedExactly(net, validators[n], index);
    var verdict := Examine(net, validators[n], index);
    if verdict.Accepted? {
      SettledByOne(net, validators, threshold, index, n, verdict.signed);
    } else if verdict.Skipped? {
      StaysUnsettled(net, validators, threshold, index, n, 0);
    }
  }

  lemma SettledByOne(
    net: Network, validators: seq<H256>, threshold: nat, index: nat, n: nat, signed: SignedCheckpoint
  )
    requires n < |validators| && Unsettled(net, validators, threshold, index, n)
    requires Decision(net, validators, threshold, index, n) == None
    requires Examine(net, validators[n], index) == Accepted(signed)
    ensures var root, next := signed.value.checkpoint.root, Decision(net, validators, threshold, index, n + 1);
            && (next == None <==> Unsettled(net, validators, threshold, index, n + 1))
            && (next.Some? <==> Completes(net, validators, threshold, index, n, root))
            && (next.Some? ==> next.value == AsFetchResult(Combine(Group(net, validators, index, n + 1, root))))
    ensures forall root :: Completes(net, validators, threshold, index, n, root) ==> root == signed.value.checkpoint.root
  {
    var root := signed.value.checkpoint.root;
    ExaminedExactly(net, validators[n], index);
    OneSigned(net, validators[n], index, signed);
    SignersGrow(net, validators, index, n, root);
    GroupCounts(net, validators, index, n + 1, root);
    assert TooFew(net, validators, threshold, index, n, root);
    if TooFew(net, validators, threshold, index, n + 1, root) {
      StaysUnsettled(net, validators, threshold, index, n, root);
    }
  }

  lemma StaysUnsettled(net: Network, validators: seq<H256>, threshold: nat, index: nat, n: nat, root: H256)
    requires n < |validators| && Unsettled(net, validators, threshold, index, n)
    requires !Unrecoverable(net, validators[n], index)
    requires forall other :: SignsRoot(net, validators[n], index, other) ==> other == root
    requires SignsRoot(net, validators[n], index, root) ==> TooFew(net, validators, threshold, index, n + 1, root)
    ensures Unsettled(net, validators, threshold, index, n + 1)
  {
    var next := n + 1;
    forall other
      ensures TooFew(net, validators, threshold, index, next, other)
    {
      assert TooFew(net, validators, threshold, index, n, other);
      SignersGrow(net, validators, index, n, other);
    }
  }

  /** Nothing is decided by the first `n` exactly if the question is open among them. */
  lemma {:induction false} UndecidedExactly(net: Network, validators: seq<H256>, threshold: nat, index: nat, n: nat)
    requires n <= |validators|
    ensures Decision(net, validators, threshold, index, n) == None <==> Unsettled(net, validators, threshold, index, n)
  {
    if n > 0 {
      UndecidedExactly(net, validators, threshold, index, n - 1);
      if Unsettled(net, validators, threshold, index, n - 1) {
        SettledAt(net, validators, threshold, index, n - 1);
      } else {
        SettledStays(net, validators, threshold, index, n - 1);
      }
    }
  }

  lemma SettledStays(net: Network, validators: seq<H256>, threshold: nat, index: nat, n: nat)
    requires n < |validators| && !Unsettled(net, validators, threshold, index, n)
    ensures !Unsettled(net, validators, threshold, index, n + 1)
  {
    if root :| !TooFew(net, validators, threshold, index, n, root) {
      SignersGrow(net, validators, index, n, root);
      assert !TooFew(net, validators, threshold, index, n + 1, root);
    }
  }

  /** The validator at which a decision falls. */
  lemma {:induction false} DecidedAt(net: Network, validators: seq<H256>, threshold: nat, index: nat, n: nat)
    returns (k: nat)
    requires n <= |validators| && Decision(net, validators, threshold, index, n).Some?
    ensures k < n && Unsettled(net, validators, threshold, index, k)
    ensures Decision(net, validators, threshold, index, k) == None
    ensures Decision(net, validators, threshold, index, k + 1) == Decision(net, validators, threshold, index, n)
  {
    UndecidedExactly(net, validators, threshold, index, n - 1);
    if Decision(net, validators, threshold, index, n - 1) == None {
      k := n - 1;
    } else {
      k := DecidedAt(net, validators, threshold, index, n - 1);
    }
  }

  /** Recovery fails for the whole fetch exactly if some validator's checkpoint cannot be recovered, and
      nothing is settled by the validators before it. */
  lemma RecoveryErrorExactly(net: Network, validators: seq<H256>, threshold: nat, index: nat)
    ensures Fetch(net, validators, threshold, index) == RecoveryError <==>
            exists n :: 0 <= n < |validators| && Unrecoverable(net, validators[n], index)
                        && Unsettled(net, validators, threshold, index, n)
  {
    if Fetch(net, validators, threshold, index) == RecoveryError {
      var k := DecidedAt(net, validators, threshold, index, |validators|);
      SettledAt(net, validators, threshold, index, k);
    }
    if n :| 0 <= n < |validators| && Unrecoverable(net, validators[n], index)
            && Unsettled(net, validators, threshold, index, n) {
      UndecidedExactly(net, validators, threshold, index, n);
      SettledAt(net, validators, threshold, index, n);
      DecisionStays(net, validators, threshold, index, n + 1, |validators|);
    }
  }

  /** There is no quorum exactly if nothing is settled by all of them. */
  lemma NoQuorumExactly(net: Network, validators: seq<H256>, threshold: nat, index: nat)
    ensures Fetch(net, validators, threshold, index) == NoQuorum <==>
            Unsettled(net, validators, threshold, index, |validators|)
  {
    UndecidedExactly(net, validators, threshold, index, |validators|);
    if Decision(net, validators, threshold, index, |validators|).Some? {
      var k := DecidedAt(net, validators, threshold, index, |validators|);
      SettledAt(net, validators, threshold, index, k);
    }
  }

  /** A quorum is fetched exactly if some validator completes the signers of a root, and all they sign over
      it is one value; if it is not, they are inconsistent. */
  lemma FetchedExactly(net: Network, validators: seq<H256>, threshold: nat, index: nat)
    ensures Fetch(net, validators, threshold, index).Fetched? <==>
            exists n, root :: 0 <= n < |validators| && Completes(net, validators, threshold, index, n, root)
                              && Agree(net, validators, index, n + 1, root)
    ensures Fetch(net, validators, threshold, index) == Inconsistent <==>
            exists n, root :: 0 <= n < |validators| && Completes(net, validators, threshold, index, n, root)
                              && !Agree(net, validators, index, n + 1, root)
  {
    if Fetch(net, validators, threshold, index).Fetched? || Fetch(net, validators, threshold, index) == Inconsistent {
      var k, root := CompletedAt(net, validators, threshold, index);
      CompletedIs(net, validators, threshold, index, k, root);
    }
    forall n, root | 0 <= n < |validators| && Completes(net, validators, threshold, index, n, root)
      ensures var r := Fetch(net, validators, threshold, index);
              if Agree(net, validators, index, n + 1, root) then r.Fetched? else r == Inconsistent
    {
      CompletedIs(net, validators, threshold, index, n, root);
    }
  }

  /** The validator that completes the signers of the root fetched. */
  lemma CompletedAt(net: Network, validators: seq<H256>, threshold: nat, index: nat) returns (n: nat, root: H256)
    requires Fetch(net, validators, threshold, index).Fetched? || Fetch(net, validators, threshold, index) == Inconsistent
    ensures n < |validators| && Completes(net, validators, threshold, index, n, root)
  {
    n := DecidedAt(net, validators, threshold, index, |validators|);
    SettledAt(net, validators, threshold, index, n);
    root :| Completes(net, validators, threshold, index, n, root);
  }

  lemma CompletedIs(net: Network, validators: seq<H256>, threshold: nat, index: nat, n: nat, root: H256)
    requires n < |validators| && Completes(net, validators, threshold, index, n, root)
    ensures var r, group := Fetch(net, validators, threshold, index), Group(net, validators, index, n + 1, root);
            && r == AsFetchResult(Combine(group)) && |group| == Needed(threshold)
            && if Agree(net, validators, index, n + 1, root) then r.Fetched? else r == Inconsistent
  {
    UndecidedExactly(net, validators, threshold, index, n);
    SettledAt(net, validators, threshold, index, n);
    DecisionStays(net, validators, threshold, index, n + 1, |validators|);
    GroupCounts(net, validators, index, n + 1, root);
    CombinedIfAgreed(net, validators, index, n + 1, root);
  }

  lemma CombinedIfAgreed(net: Network, validators: seq<H256>, index: nat, n: nat, root: H256)
    requires n <= |validators| && Group(net, validators, index, n, root) != []
    ensures Combine(Group(net, validators, index, n, root)).Combined? <==> Agree(net, validators, index, n, root)
  {
    var group := Group(net, validators, index, n, root);
    if value :| AllSign(net, validators, index, n, root, value) {
      forall c | c in group
        ensures c.value == value
      {
        var p := GroupMember(net, validators, index, n, root, c);
      }
      assert group[0] in group;
    }
    if Combine(group).Combined? {
      forall p: nat, signed |
        p < n && Signs(net, validators[p], index, signed) && signed.value.checkpoint.root == root
        ensures signed.value == group[0].value
      {
        SignerInGroup(net, validators, index, n, root, p, signed);
      }
      assert AllSign(net, validators, index, n, root, group[0].value);
    }
  }

  lemma {:induction false} GroupMember(
    net: Network, validators: seq<H256>, index: nat, n: nat, root: H256, c: SignedCheckpoint
  ) returns (p: nat)
    requires n <= |validators| && c in Group(net, validators, index, n, root)
    ensures p < n && Signs(net, validators[p], index, c) && c.value.checkpoint.root == root
  {
    ExaminedExactly(net, validators[n - 1], index);
    if c in Group(net, validators, index, n - 1, root) {
      p := GroupMember(net, validators, index, n - 1, root, c);
    } else {
      p := n - 1;
    }
  }

  lemma {:induction false} SignerInGroup(
    net: Network, validators: seq<H256>, index: nat, n: nat, root: H256, p: nat, c: SignedCheckpoint
  )
    requires p < n <= |validators| && Signs(net, validators[p], index, c) && c.value.checkpoint.root == root
    ensures c in Group(net, validators, index, n, root)
  {
    ExaminedExactly(net, validators[n - 1], index);
    if p < n - 1 {
      SignerInGroup(net, validators, index, n - 1, root, p, c);
    }
  }

  /** Completeness: if all that is stored at the index can be recovered, and what is signed over one root is
      one value, then a quorum is fetched exactly if some root has enough signers, whatever else the stores
      hold; and if none has, the answer is that there is no quorum. */
  lemma FetchFindsQuorum(net: Network, validators: seq<H256>, threshold: nat, index: nat)
    requires forall i :: 0 <= i < |validators| ==> !Unrecoverable(net, validators[i], index)
    requires forall root :: Agree(net, validators, index, |validators|, root)
    ensures Fetch(net, validators, threshold, index).Fetched? <==>
            exists root :: !TooFew(net, validators, threshold, index, |validators|, root)
    ensures Fetch(net, validators, threshold, index).Fetched? || Fetch(net, validators, threshold, index).NoQuorum?
  {
    NoQuorumExactly(net, validators, threshold, index);
    RecoveryErrorExactly(net, validators, threshold, index);
    if !Fetch(net, validators, threshold, index).NoQuorum? {
      var n, root := CompletedAt(net, validators, threshold, index);
      AgreeBefore(net, validators, index, n + 1, root);
      CompletedIs(net, validators, threshold, index, n, root);
    }
  }

  lemma AgreeBefore(net: Network, validators: seq<H256>, index: nat, n: nat, root: H256)
    requires n <= |validators| && Agree(net, validators, index, |validators|, root)
    ensures Agree(net, validators, index, n, root)
  {
    var value :| AllSign(net, validators, index, |validators|, root, value);
    assert AllSign(net, validators, index, n, root, value);
  }

  // ----- What a fetched quorum is -----

  ghost predicate Increasing(ps: seq<nat>) {
    forall i, j :: 0 <= i < j < |ps| ==> ps[i] < ps[j]
  }

  /** The positions prove the quorum: they increase, and the validator at each signed the checkpoint at
      the index asked for, with the listed signature. */
  ghost predicate Quorum(net: Network, validators: seq<H256>, index: nat, m: MultisigSignedCheckpoint, ps: seq<nat>) {
    && Increasing(ps) && |ps| == |m.signatures| && m.checkpoint.checkpoint.index == index
    && forall k :: 0 <= k < |ps| ==>
         && ps[k] < |validators|
         && Signs(net, validators[ps[k]], index, SignedCheckpoint(m.checkpoint, m.signatures[k]))
  }

  /** Where in the list the members of a group stand: at the places of the signers, in order. */
  lemma {:induction false} GroupStandsAt(net: Network, validators: seq<H256>, index: nat, n: nat, root: H256)
    returns (ps: seq<nat>)
    requires n <= |validators|
    ensures Increasing(ps) && |ps| == |Group(net, validators, index, n, root)|
    ensures forall k :: 0 <= k < |ps| ==>
              ps[k] < n && Signs(net, validators[ps[k]], index, Group(net, validators, index, n, root)[k])
  {
    ps := [];
    if n > 0 {
      ps := GroupStandsAt(net, validators, index, n - 1, root);
      ExaminedExactly(net, validators[n - 1], index);
      if Backs(net, validators[n - 1], index, root) {
        ps := ps + [n - 1];
      }
    }
  }

  /** Soundness: a fetched multisig has exactly the needed number of signatures, in list order, each
      recovering to the validator at its position, all over one value at the index asked for. */
  lemma FetchedIsQuorum(
    net: Network, validators: seq<H256>, threshold: nat, index: nat, m: MultisigSignedCheckpoint
  ) returns (ps: seq<nat>)
    requires Fetch(net, validators, threshold, index) == Fetched(m)
    ensures Quorum(net, validators, index, m, ps) && |m.signatures| == Needed(threshold)
  {
    var n, root := CompletedAt(net, validators, threshold, index);
    CompletedIs(net, validators, threshold, index, n, root);
    ps := CombinedGroupIsQuorum(net, validators, index, n + 1, root, m);
  }

  lemma CombinedGroupIsQuorum(
    net: Network, validators: seq<H256>, index: nat, n: nat, root: H256, m: MultisigSignedCheckpoint
  ) returns (ps: seq<nat>)
    requires n <= |validators| && Combine(Group(net, validators, index, n, root)) == Combined(m)
    ensures Quorum(net, validators, index, m, ps) && |m.signatures| == |Group(net, validators, index, n, root)|
  {
    ps := GroupStandsAt(net, validators, index, n, root);
    var group := Group(net, validators, index, n, root);
    forall k | 0 <= k < |ps|
      ensures group[k] == SignedCheckpoint(m.checkpoint, m.signatures[k])
    {
      assert group[k] in group;
    }
    assert group[0] == SignedCheckpoint(m.checkpoint, m.signatures[0]);
  }
}

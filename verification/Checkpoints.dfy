/** Checkpoints, the multi-signed form, and the store that a validator publishes them to. */
module Checkpoints {
  import opened Wrappers
  import opened Hashing

  type Signature = int

  datatype Checkpoint = Checkpoint(hook: H256, domain: nat, root: H256, index: nat)
  datatype CheckpointWithMessageId = CheckpointWithMessageId(checkpoint: Checkpoint, messageId: H256)
  datatype SignedCheckpoint = SignedCheckpoint(value: CheckpointWithMessageId, signature: Signature)
  datatype MultisigSignedCheckpoint =
    MultisigSignedCheckpoint(checkpoint: CheckpointWithMessageId, signatures: seq<Signature>)

  datatype MultisigResult = Combined(multisig: MultisigSignedCheckpoint) | InconsistentCheckpoints | EmptySignatures

  function Signatures(signed: seq<SignedCheckpoint>): seq<Signature> {
    seq(|signed|, i requires 0 <= i < |signed| => signed[i].signature)
  }

  /** Values that do not agree are refused, whichever two they are; if all agree, the multisig has the value
      and each signature where its checkpoint stood. */
  lemma CombinesExactly(signed: seq<SignedCheckpoint>)
    ensures Combine(signed) == EmptySignatures <==> |signed| == 0
    ensures Combine(signed) == InconsistentCheckpoints <==>
            exists i, j :: 0 <= i < |signed| && 0 <= j < |signed| && signed[i].value != signed[j].value
    ensures Combine(signed).Combined? ==>
              var m := Combine(signed).multisig;
              |m.signatures| == |signed|
              && forall i :: 0 <= i < |signed| ==> signed[i] == SignedCheckpoint(m.checkpoint, m.signatures[i])
  {
    if signed != [] {
      if c :| c in signed && c.value != signed[0].value {
        var i :| 0 <= i < |signed| && signed[i] == c;
        assert signed[i].value != signed[0].value;
      } else {
        forall i | 0 <= i < |signed|
          ensures signed[i].value == signed[0].value
        {
          assert signed[i] in signed;
        }
      }
    }
  }

  /** `MultisigSignedCheckpoint::try_from`. */
  function Combine(signed: seq<SignedCheckpoint>): MultisigResult {
    if signed == [] then
      EmptySignatures
    else if exists c :: c in signed && c.value != signed[0].value then
      InconsistentCheckpoints
    else
      Combined(MultisigSignedCheckpoint(signed[0].value, Signatures(signed)))
  }

  /** The latest index after an update with `index`: an absent index counts as zero. */
  function LatestAfter(latest: Option<nat>, index: nat): Option<nat> {
    if index > (latest.GetOr(0)) then Some(index) else latest
  }

  /** After a sequence of updates, each finished before the next. */
  function LatestAfterAll(latest: Option<nat>, indices: seq<nat>): Option<nat> {
    if indices == [] then latest
    else LatestAfter(LatestAfterAll(latest, indices[..|indices| - 1]), indices[|indices| - 1])
  }

  /** The latest index is the maximum of all updates and of what it was, in whatever order they came;
      except that index 0 is never recorded where there is none. */
  lemma {:induction false} LatestIsMaximum(latest: Option<nat>, indices: seq<nat>)
    ensures var r := LatestAfterAll(latest, indices);
            && (r.None? <==> latest.None? && forall i :: 0 <= i < |indices| ==> indices[i] == 0)
            && (forall i :: 0 <= i < |indices| ==> indices[i] <= r.GetOr(0)) && latest.GetOr(0) <= r.GetOr(0)
            && (r.Some? ==> r == latest || exists i :: 0 <= i < |indices| && indices[i] == r.value)
    decreases |indices|
  {
    if indices != [] {
      var before, last := indices[..|indices| - 1], indices[|indices| - 1];
      LatestIsMaximum(latest, before);
      var r := LatestAfterAll(latest, before);
      if r.Some? && r != latest {
        var i :| 0 <= i < |before| && before[i] == r.value;
        assert indices[i] == r.value;
      }
      assert forall i :: 0 <= i < |before| ==> before[i] == indices[i];
      assert indices[|indices| - 1] == last;
    }
  }

  class CheckpointStorage {
    var checkpoints: map<nat, SignedCheckpoint>
    var latest: Option<nat>

    constructor ()
      ensures checkpoints == map[] && latest == None
    {
      checkpoints, latest := map[], None;
    }

    method FetchCheckpoint(index: nat) returns (existing: Option<SignedCheckpoint>)
      ensures existing == if index in checkpoints then Some(checkpoints[index]) else None
    {
      existing := if index in checkpoints then Some(checkpoints[index]) else None;
    }

    method WriteCheckpoint(signed: SignedCheckpoint)
      modifies this`checkpoints
      ensures checkpoints == old(checkpoints)[signed.value.checkpoint.index := signed]
    {
      checkpoints := checkpoints[signed.value.checkpoint.index := signed];
    }

    method UpdateLatestIndex(index: nat)
      modifies this`latest
      ensures latest == LatestAfter(old(latest), index)
    {
      var curr := latest.GetOr(0);
      if index > curr {
        latest := Some(index);
      }
    }
  }
}

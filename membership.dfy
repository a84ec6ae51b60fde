/**
 * Auto Scaling membership: the parsed ids (duplicates included) are sent to
 * `describe_auto_scaling_instances` in slices of at most 50; every entry of a
 * reply is written into `instance_asg_map` as id -> group name. An entry
 * lacking a field raises part-way through the reply, so the entries before it
 * stay written and the ones after it are skipped; a call that fails writes
 * nothing; either way the later chunks still run.
 */
module Membership {
  import opened Common
  import opened PyDict
  import opened Batches

  /** The largest number of ids `describe_auto_scaling_instances` is sent at once. */
  const ASG_BATCH_SIZE: nat := 50

  /** One element of `AutoScalingInstances`: its `InstanceId` and `AutoScalingGroupName`, None when absent. */
  datatype AsgEntry = AsgEntry(instanceId: Option<string>, groupName: Option<string>)

  /** The outcome of one describe call: it raised, or it returned these entries (none when the list is absent). */
  datatype AsgReply = AsgCallFailed | AsgInstances(entries: seq<AsgEntry>)

  /** The dict writes made by the loop over a reply's entries, which stops at the first entry lacking a field. */
  function EntryWrites(es: seq<AsgEntry>): seq<(string, string)>
    decreases |es|
  {
    if es == [] then []
    else
      match (es[0].instanceId, es[0].groupName)
      case (Some(id), Some(group)) => [(id, group)] + EntryWrites(es[1..])
      case _ => []
  }

  /** The dict writes made for one chunk's reply. */
  function AsgWrites(reply: AsgReply): seq<(string, string)> {
    match reply
    case AsgCallFailed => []
    case AsgInstances(es) => EntryWrites(es)
  }

  /** The writes for a chunk, given the describe call. */
  function AsgChunkWrites(describe: seq<string> -> AsgReply): seq<string> -> seq<(string, string)> {
    batchIds => AsgWrites(describe(batchIds))
  }

  /** `instance_asg_map` once every chunk of the parsed ids has been described. */
  function InstanceAsgMap(rawIds: seq<string>, describe: seq<string> -> AsgReply): Dict<string> {
    FoldChunks(Empty(), Chunks(rawIds, ASG_BATCH_SIZE), AsgChunkWrites(describe))
  }

  /**
   * A reply contributes a prefix of its entries: the writes are the leading
   * well-formed entries, and the first entry not written (if any) lacks a field.
   */
  lemma {:induction false} EntryWritesPrefix(es: seq<AsgEntry>)
    ensures |EntryWrites(es)| <= |es|
    ensures forall i :: 0 <= i < |EntryWrites(es)| ==>
              es[i] == AsgEntry(Some(EntryWrites(es)[i].0), Some(EntryWrites(es)[i].1))
    ensures |EntryWrites(es)| < |es| ==>
              es[|EntryWrites(es)|].instanceId.None? || es[|EntryWrites(es)|].groupName.None?
    decreases |es|
  {
    if es != [] && es[0].instanceId.Some? && es[0].groupName.Some? {
      EntryWritesPrefix(es[1..]);
      var ws := EntryWrites(es);
      forall i | 0 <= i < |ws|
        ensures es[i] == AsgEntry(Some(ws[i].0), Some(ws[i].1))
      {
        if i > 0 {
          assert ws[i] == EntryWrites(es[1..])[i - 1];
        }
      }
    }
  }

  /**
   * The loop over one reply's entries: `instance_asg_map[iid] = asg_name` for
   * each, until an entry lacking a field raises.
   */
  method MergeEntries(instanceAsgMap: Dict<string>, entries: seq<AsgEntry>) returns (merged: Dict<string>)
    requires instanceAsgMap.Valid()
    ensures merged == PutAll(instanceAsgMap, EntryWrites(entries))
    ensures merged.Valid()
  {
    ghost var ws := EntryWrites(entries);
    EntryWritesPrefix(entries);
    merged := instanceAsgMap;
    var j := 0;
    while j < |entries|
      invariant 0 <= j <= |ws|
      invariant merged == PutAll(instanceAsgMap, ws[..j])
      invariant merged.Valid()
    {
      var entry := entries[j];
      if entry.instanceId.None? || entry.groupName.None? {
        // KeyError: the rest of this reply is skipped, what was written stays
        break;
      }
      PutAllAppend(instanceAsgMap, ws[..j], [ws[j]]);
      assert ws[..j + 1] == ws[..j] + [ws[j]];
      merged := merged.Put(entry.instanceId.value, entry.groupName.value);
      j := j + 1;
    }
    assert ws[..j] == ws;
  }

  /** The ASG loop of the handler: chunks of 50, describe each, merge the reply. */
  method ResolveMembership(rawIds: seq<string>, describe: seq<string> -> AsgReply)
    returns (instanceAsgMap: Dict<string>, calls: seq<seq<string>>)
    ensures calls == Chunks(rawIds, ASG_BATCH_SIZE)
    ensures instanceAsgMap == InstanceAsgMap(rawIds, describe)
    ensures instanceAsgMap.Valid()
  {
    instanceAsgMap := Empty();
    calls := [];
    var i := 0;
    assert rawIds[Min(i, |rawIds|)..] == rawIds;
    while i < |rawIds|
      invariant 0 <= i
      invariant calls + Chunks(rawIds[Min(i, |rawIds|)..], ASG_BATCH_SIZE) == Chunks(rawIds, ASG_BATCH_SIZE)
      invariant FoldChunks(instanceAsgMap, Chunks(rawIds[Min(i, |rawIds|)..], ASG_BATCH_SIZE), AsgChunkWrites(describe))
                == InstanceAsgMap(rawIds, describe)
      invariant instanceAsgMap.Valid()
      decreases |rawIds| - i
    {
      ChunksFrom(rawIds, ASG_BATCH_SIZE, i);
      var batchIds := rawIds[i..Min(i + ASG_BATCH_SIZE, |rawIds|)];
      calls := calls + [batchIds];
      var reply := describe(batchIds);
      match reply {
        case AsgCallFailed =>
          // the failure is logged; the chunk writes nothing
        case AsgInstances(entries) =>
          instanceAsgMap := MergeEntries(instanceAsgMap, entries);
      }
      i := i + ASG_BATCH_SIZE;
    }
    assert rawIds[Min(i, |rawIds|)..] == [];
  }

  /**
   * `instance_asg_map` has a key for exactly the ids that the reply to some
   * chunk wrote, and lists its keys once each.
   */
  lemma MembershipKeys(rawIds: seq<string>, describe: seq<string> -> AsgReply, k: string)
    ensures InstanceAsgMap(rawIds, describe).Valid()
    ensures k in InstanceAsgMap(rawIds, describe).entries <==>
              exists c :: 0 <= c < |Chunks(rawIds, ASG_BATCH_SIZE)| &&
                Written(AsgWrites(describe(Chunks(rawIds, ASG_BATCH_SIZE)[c])), k)
  {
    var cs := Chunks(rawIds, ASG_BATCH_SIZE);
    var writes := AsgChunkWrites(describe);
    var m := InstanceAsgMap(rawIds, describe);
    assert m == FoldChunks(Empty(), cs, writes);
    FoldChunksKeys(Empty(), cs, writes, k);
    if k in m.entries {
      var c :| 0 <= c < |cs| && Written(writes(cs[c]), k);
      assert writes(cs[c]) == AsgWrites(describe(cs[c]));
      assert 0 <= c < |cs| && Written(AsgWrites(describe(cs[c])), k);
      assert exists c :: 0 <= c < |cs| && Written(AsgWrites(describe(cs[c])), k);
      assert exists c :: 0 <= c < |Chunks(rawIds, ASG_BATCH_SIZE)| && Written(AsgWrites(describe(Chunks(rawIds, ASG_BATCH_SIZE)[c])), k);
    } else {
      forall c | 0 <= c < |cs|
        ensures !Written(AsgWrites(describe(cs[c])), k)
      {
        assert writes(cs[c]) == AsgWrites(describe(cs[c]));
      }
    }
  }

  /** The group kept for an id is one that the reply to some chunk gave for it. */
  lemma MembershipValues(rawIds: seq<string>, describe: seq<string> -> AsgReply, k: string)
    requires k in InstanceAsgMap(rawIds, describe).entries
    ensures exists c, i :: 0 <= c < |Chunks(rawIds, ASG_BATCH_SIZE)| &&
              0 <= i < |AsgWrites(describe(Chunks(rawIds, ASG_BATCH_SIZE)[c]))| &&
              AsgWrites(describe(Chunks(rawIds, ASG_BATCH_SIZE)[c]))[i] == (k, InstanceAsgMap(rawIds, describe).entries[k])
  {
    var cs := Chunks(rawIds, ASG_BATCH_SIZE);
    var writes := AsgChunkWrites(describe);
    var v := InstanceAsgMap(rawIds, describe).entries[k];
    FoldChunksValues(Empty(), cs, writes, k);
    var c, i :| 0 <= c < |cs| && 0 <= i < |writes(cs[c])| && writes(cs[c])[i] == (k, v);
    assert writes(cs[c]) == AsgWrites(describe(cs[c]));
  }
}

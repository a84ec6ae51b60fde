/**
 * EC2 metadata: the keys of `instance_asg_map` are sent to `describe_instances`
 * in slices of at most 100. Every instance of every reservation of a reply is
 * turned into a metadata record under its id; an instance whose fields cannot
 * be read is logged and skipped alone, and a call that fails (ids not found,
 * another client error, any other exception) writes nothing and does not stop
 * the later chunks.
 */
module Metadata {
  import opened Common
  import opened PyDict
  import opened Batches

  /** The largest number of ids `describe_instances` is sent at once. */
  const EC2_BATCH_SIZE: nat := 100

  /** One element of an instance's `Tags`: its `Key` and `Value`, None when absent. */
  datatype Tag = Tag(key: Option<string>, value: Option<string>)

  /**
   * The fields the handler reads from one element of `Instances`; None when
   * absent, `tags` empty when the instance has no `Tags`, `availabilityZone`
   * None when `Placement` or its `AvailabilityZone` is absent.
   */
  datatype Ec2Instance = Ec2Instance(
    instanceId: Option<string>,
    instanceType: Option<string>,
    privateIp: Option<string>,
    publicIp: Option<string>,
    tags: seq<Tag>,
    availabilityZone: Option<string>)

  /** One element of `Reservations` (no `Instances` is the empty list). */
  datatype Reservation = Reservation(instances: seq<Ec2Instance>)

  /** How a describe call failed; each is only logged differently. */
  datatype Ec2ErrorKind = InstanceIdNotFound | OtherClientError | OtherException

  /** The outcome of one describe call (no `Reservations` is the empty list). */
  datatype Ec2Reply = Ec2Failed(kind: Ec2ErrorKind) | Ec2Reservations(reservations: seq<Reservation>)

  /** The record stored in `instance_meta_map` for one instance. */
  datatype InstanceMeta = InstanceMeta(
    instanceType: Option<string>,
    privateIp: Option<string>,
    publicIp: Option<string>,
    instanceName: Option<string>,
    availabilityZone: string)

  /** Why the fields of one instance could not be read (the KeyError raised). */
  datatype ExtractError = MissingInstanceId | TagMissingKey | TagMissingValue | MissingAvailabilityZone

  /**
   * `next((tag["Value"] for tag in tags if tag["Key"] == "Name"), None)`: the
   * tags are examined in order until the first one keyed "Name"; a tag without
   * `Key` before it, or that tag without `Value`, raises.
   */
  function NameTag(tags: seq<Tag>): Result<Option<string>, ExtractError>
    decreases |tags|
  {
    if tags == [] then Ok(None)
    else
      match tags[0].key
      case None => Err(TagMissingKey)
      case Some(key) =>
        if key == "Name" then
          match tags[0].value
          case None => Err(TagMissingValue)
          case Some(v) => Ok(Some(v))
        else NameTag(tags[1..])
  }

  /** Every tag before position `i` has a key, and none of them is "Name". */
  predicate KeyedNotNameBefore(tags: seq<Tag>, i: nat)
    requires i <= |tags|
  {
    forall j :: 0 <= j < i ==> tags[j].key.Some? && tags[j].key.value != "Name"
  }

  /** The name is the `Value` of the first tag keyed "Name". */
  lemma {:induction false} NameTagFound(tags: seq<Tag>, v: string)
    ensures NameTag(tags) == Ok(Some(v)) <==>
              exists i :: 0 <= i < |tags| && KeyedNotNameBefore(tags, i) && tags[i] == Tag(Some("Name"), Some(v))
    decreases |tags|
  {
    if tags != [] {
      var rest := tags[1..];
      if tags[0].key.Some? && tags[0].key.value != "Name" {
        NameTagFound(rest, v);
        if exists i :: 0 <= i < |rest| && KeyedNotNameBefore(rest, i) && rest[i] == Tag(Some("Name"), Some(v)) {
          var i :| 0 <= i < |rest| && KeyedNotNameBefore(rest, i) && rest[i] == Tag(Some("Name"), Some(v));
          assert KeyedNotNameBefore(tags, i + 1);
        }
        if exists i :: 0 <= i < |tags| && KeyedNotNameBefore(tags, i) && tags[i] == Tag(Some("Name"), Some(v)) {
          var i :| 0 <= i < |tags| && KeyedNotNameBefore(tags, i) && tags[i] == Tag(Some("Name"), Some(v));
          assert KeyedNotNameBefore(rest, i - 1);
        }
      } else if exists i :: 0 <= i < |tags| && KeyedNotNameBefore(tags, i) && tags[i] == Tag(Some("Name"), Some(v)) {
        var i :| 0 <= i < |tags| && KeyedNotNameBefore(tags, i) && tags[i] == Tag(Some("Name"), Some(v));
        assert i == 0;
      }
    }
  }

  /** The name is None exactly when every tag has a key and none is "Name". */
  lemma {:induction false} NameTagAbsent(tags: seq<Tag>)
    ensures NameTag(tags) == Ok(None) <==> KeyedNotNameBefore(tags, |tags|)
    decreases |tags|
  {
    if tags != [] {
      var rest := tags[1..];
      if tags[0].key.Some? && tags[0].key.value != "Name" {
        NameTagAbsent(rest);
        if KeyedNotNameBefore(rest, |rest|) {
          assert KeyedNotNameBefore(tags, |tags|);
        }
        if KeyedNotNameBefore(tags, |tags|) {
          assert KeyedNotNameBefore(rest, |rest|);
        }
      } else {
        assert !KeyedNotNameBefore(tags, |tags|);
      }
    }
  }

  /** The body of the per-instance `try`: the id and the record written for it, or the KeyError raised. */
  function ExtractMetadata(inst: Ec2Instance): (r: Result<(string, InstanceMeta), ExtractError>)
    ensures r.Ok? <==> inst.instanceId.Some? && NameTag(inst.tags).Ok? && inst.availabilityZone.Some?
    ensures r.Ok? ==> r.value.0 == inst.instanceId.value
    ensures r.Ok? ==> r.value.1.instanceName == NameTag(inst.tags).value
    ensures r.Ok? ==> r.value.1.availabilityZone == inst.availabilityZone.value
    ensures r.Ok? ==> r.value.1.instanceType == inst.instanceType && r.value.1.privateIp == inst.privateIp &&
                      r.value.1.publicIp == inst.publicIp
  {
    match inst.instanceId
    case None => Err(MissingInstanceId)
    case Some(iid) =>
      match NameTag(inst.tags)
      case Err(e) => Err(e)
      case Ok(nameTag) =>
        match inst.availabilityZone
        case None => Err(MissingAvailabilityZone)
        case Some(zone) => Ok((iid, InstanceMeta(inst.instanceType, inst.privateIp, inst.publicIp, nameTag, zone)))
  }

  /** The dict writes for a list of instances: one per instance whose fields can be read. */
  function InstanceWrites(insts: seq<Ec2Instance>): seq<(string, InstanceMeta)>
    decreases |insts|
  {
    if insts == [] then []
    else
      match ExtractMetadata(insts[0])
      case Ok(w) => [w] + InstanceWrites(insts[1..])
      case Err(_) => InstanceWrites(insts[1..])
  }

  /** The dict writes for the reservations of a reply, in order. */
  function ReservationWrites(rs: seq<Reservation>): seq<(string, InstanceMeta)>
    decreases |rs|
  {
    if rs == [] then [] else InstanceWrites(rs[0].instances) + ReservationWrites(rs[1..])
  }

  /** The dict writes for one chunk's reply. */
  function Ec2Writes(reply: Ec2Reply): seq<(string, InstanceMeta)> {
    match reply
    case Ec2Failed(_) => []
    case Ec2Reservations(rs) => ReservationWrites(rs)
  }

  /** The writes for a chunk, given the describe call. */
  function Ec2ChunkWrites(describe: seq<string> -> Ec2Reply): seq<string> -> seq<(string, InstanceMeta)> {
    batchIds => Ec2Writes(describe(batchIds))
  }

  /** `instance_meta_map` once every chunk of the valid ids has been described. */
  function InstanceMetaMap(validIds: seq<string>, describe: seq<string> -> Ec2Reply): Dict<InstanceMeta> {
    FoldChunks(Empty(), Chunks(validIds, EC2_BATCH_SIZE), Ec2ChunkWrites(describe))
  }

  /** A write is made for an instance iff its fields can be read: a failure skips that instance only. */
  lemma {:induction false} InstanceWritesSkip(insts: seq<Ec2Instance>, w: (string, InstanceMeta))
    ensures w in InstanceWrites(insts) <==> exists i :: 0 <= i < |insts| && ExtractMetadata(insts[i]) == Ok(w)
    decreases |insts|
  {
    if insts != [] {
      InstanceWritesSkip(insts[1..], w);
      if exists i :: 0 <= i < |insts| && ExtractMetadata(insts[i]) == Ok(w) {
        var i :| 0 <= i < |insts| && ExtractMetadata(insts[i]) == Ok(w);
        if i > 0 {
          assert insts[1..][i - 1] == insts[i];
        }
      }
      if w in InstanceWrites(insts[1..]) {
        var i :| 0 <= i < |insts[1..]| && ExtractMetadata(insts[1..][i]) == Ok(w);
        assert ExtractMetadata(insts[i + 1]) == Ok(w);
      }
    }
  }

  /** The reply's instance at (`r`, `i`) reads as the write `w`. */
  predicate ExtractedAt(rs: seq<Reservation>, r: int, i: int, w: (string, InstanceMeta)) {
    0 <= r < |rs| && 0 <= i < |rs[r].instances| && ExtractMetadata(rs[r].instances[i]) == Ok(w)
  }

  /** The writes for a reply are exactly the readable instances of all its reservations. */
  lemma {:induction false} ReservationWritesFrom(rs: seq<Reservation>, w: (string, InstanceMeta))
    ensures w in ReservationWrites(rs) <==> exists r, i :: ExtractedAt(rs, r, i, w)
    decreases |rs|
  {
    if rs != [] {
      ReservationWritesFrom(rs[1..], w);
      InstanceWritesSkip(rs[0].instances, w);
      if exists r, i :: ExtractedAt(rs, r, i, w) {
        var r, i :| ExtractedAt(rs, r, i, w);
        if r > 0 {
          assert ExtractedAt(rs[1..], r - 1, i, w);
        }
      }
      if exists r, i :: ExtractedAt(rs[1..], r, i, w) {
        var r, i :| ExtractedAt(rs[1..], r, i, w);
        assert ExtractedAt(rs, r + 1, i, w);
      }
      if w in InstanceWrites(rs[0].instances) {
        var i :| 0 <= i < |rs[0].instances| && ExtractMetadata(rs[0].instances[i]) == Ok(w);
        assert ExtractedAt(rs, 0, i, w);
      }
    }
  }

  /** The loop over the instances of one reservation, each in its own `try`. */
  method MergeInstances(instanceMetaMap: Dict<InstanceMeta>, instances: seq<Ec2Instance>) returns (merged: Dict<InstanceMeta>)
    requires instanceMetaMap.Valid()
    ensures merged == PutAll(instanceMetaMap, InstanceWrites(instances))
    ensures merged.Valid()
  {
    merged := instanceMetaMap;
    for j := 0 to |instances|
      invariant PutAll(merged, InstanceWrites(instances[j..])) == PutAll(instanceMetaMap, InstanceWrites(instances))
      invariant merged.Valid()
    {
      assert instances[j..][1..] == instances[j + 1..];
      match ExtractMetadata(instances[j]) {
        case Ok(w) =>
          merged := merged.Put(w.0, w.1);
        case Err(_) =>
          // logged; only this instance is skipped
      }
    }
  }

  /** The loops over the reservations of one reply. */
  method MergeReservations(instanceMetaMap: Dict<InstanceMeta>, reservations: seq<Reservation>) returns (merged: Dict<InstanceMeta>)
    requires instanceMetaMap.Valid()
    ensures merged == PutAll(instanceMetaMap, ReservationWrites(reservations))
    ensures merged.Valid()
  {
    merged := instanceMetaMap;
    for r := 0 to |reservations|
      invariant PutAll(merged, ReservationWrites(reservations[r..])) == PutAll(instanceMetaMap, ReservationWrites(reservations))
      invariant merged.Valid()
    {
      assert reservations[r..][1..] == reservations[r + 1..];
      PutAllAppend(merged, InstanceWrites(reservations[r].instances), ReservationWrites(reservations[r + 1..]));
      merged := MergeInstances(merged, reservations[r].instances);
    }
  }

  /** The EC2 loop of the handler: chunks of 100, describe each, merge the reply. */
  method ResolveMetadata(validIds: seq<string>, describe: seq<string> -> Ec2Reply)
    returns (instanceMetaMap: Dict<InstanceMeta>, calls: seq<seq<string>>)
    ensures calls == Chunks(validIds, EC2_BATCH_SIZE)
    ensures instanceMetaMap == InstanceMetaMap(validIds, describe)
    ensures instanceMetaMap.Valid()
  {
    instanceMetaMap := Empty();
    calls := [];
    var i := 0;
    assert validIds[Min(i, |validIds|)..] == validIds;
    while i < |validIds|
      invariant 0 <= i
      invariant calls + Chunks(validIds[Min(i, |validIds|)..], EC2_BATCH_SIZE) == Chunks(validIds, EC2_BATCH_SIZE)
      invariant FoldChunks(instanceMetaMap, Chunks(validIds[Min(i, |validIds|)..], EC2_BATCH_SIZE), Ec2ChunkWrites(describe))
                == InstanceMetaMap(validIds, describe)
      invariant instanceMetaMap.Valid()
      decreases |validIds| - i
    {
      ChunksFrom(validIds, EC2_BATCH_SIZE, i);
      var batchIds := validIds[i..Min(i + EC2_BATCH_SIZE, |validIds|)];
      calls := calls + [batchIds];
      var reply := describe(batchIds);
      match reply {
        case Ec2Failed(_) =>
          // "not found" and the other failures are only logged differently
        case Ec2Reservations(reservations) =>
          instanceMetaMap := MergeReservations(instanceMetaMap, reservations);
      }
      i := i + EC2_BATCH_SIZE;
    }
    assert validIds[Min(i, |validIds|)..] == [];
  }

  /** The reply to one chunk holds a readable instance with id `k`. */
  predicate Described(reply: Ec2Reply, k: string) {
    reply.Ec2Reservations? &&
    exists r, i :: 0 <= r < |reply.reservations| && 0 <= i < |reply.reservations[r].instances| &&
      ExtractMetadata(reply.reservations[r].instances[i]).Ok? &&
      ExtractMetadata(reply.reservations[r].instances[i]).value.0 == k
  }

  lemma WrittenIffDescribed(reply: Ec2Reply, k: string)
    ensures Written(Ec2Writes(reply), k) <==> Described(reply, k)
  {
    if reply.Ec2Reservations? {
      var rs := reply.reservations;
      var ws := ReservationWrites(rs);
      if Written(ws, k) {
        var j :| 0 <= j < |ws| && ws[j].0 == k;
        ReservationWritesFrom(rs, ws[j]);
        var r, i :| ExtractedAt(rs, r, i, ws[j]);
      }
      if Described(reply, k) {
        var r, i :| 0 <= r < |rs| && 0 <= i < |rs[r].instances| &&
          ExtractMetadata(rs[r].instances[i]).Ok? && ExtractMetadata(rs[r].instances[i]).value.0 == k;
        var w := ExtractMetadata(rs[r].instances[i]).value;
        assert ExtractedAt(rs, r, i, w);
        ReservationWritesFrom(rs, w);
        var j :| 0 <= j < |ws| && ws[j] == w;
      }
    }
  }

  /**
   * `instance_meta_map` has a key for exactly the ids of readable instances in
   * the successful replies to the chunks, and lists its keys once each.
   */
  lemma MetadataKeys(validIds: seq<string>, describe: seq<string> -> Ec2Reply, k: string)
    ensures InstanceMetaMap(validIds, describe).Valid()
    ensures k in InstanceMetaMap(validIds, describe).entries <==>
              exists c :: 0 <= c < |Chunks(validIds, EC2_BATCH_SIZE)| &&
                Described(describe(Chunks(validIds, EC2_BATCH_SIZE)[c]), k)
  {
    var cs := Chunks(validIds, EC2_BATCH_SIZE);
    var writes := Ec2ChunkWrites(describe);
    var m := InstanceMetaMap(validIds, describe);
    assert m == FoldChunks(Empty(), cs, writes);
    FoldChunksKeys(Empty(), cs, writes, k);
    if k in m.entries {
      var c :| 0 <= c < |cs| && Written(writes(cs[c]), k);
      assert writes(cs[c]) == Ec2Writes(describe(cs[c]));
      WrittenIffDescribed(describe(cs[c]), k);
      assert exists c :: 0 <= c < |cs| && Described(describe(cs[c]), k);
      assert exists c :: 0 <= c < |Chunks(validIds, EC2_BATCH_SIZE)| && Described(describe(Chunks(validIds, EC2_BATCH_SIZE)[c]), k);
    } else {
      forall c | 0 <= c < |cs|
        ensures !Described(describe(cs[c]), k)
      {
        assert writes(cs[c]) == Ec2Writes(describe(cs[c]));
        WrittenIffDescribed(describe(cs[c]), k);
      }
    }
  }

  /** The record kept for an id is the one read from some instance with that id in a reply. */
  lemma MetadataValues(validIds: seq<string>, describe: seq<string> -> Ec2Reply, k: string)
    requires k in InstanceMetaMap(validIds, describe).entries
    ensures exists c, r, i :: 0 <= c < |Chunks(validIds, EC2_BATCH_SIZE)| &&
              describe(Chunks(validIds, EC2_BATCH_SIZE)[c]).Ec2Reservations? &&
              ExtractedAt(describe(Chunks(validIds, EC2_BATCH_SIZE)[c]).reservations, r, i,
                          (k, InstanceMetaMap(validIds, describe).entries[k]))
  {
    var cs := Chunks(validIds, EC2_BATCH_SIZE);
    var writes := Ec2ChunkWrites(describe);
    var w := (k, InstanceMetaMap(validIds, describe).entries[k]);
    FoldChunksValues(Empty(), cs, writes, k);
    var c, j :| 0 <= c < |cs| && 0 <= j < |writes(cs[c])| && writes(cs[c])[j] == w;
    assert writes(cs[c]) == Ec2Writes(describe(cs[c]));
    var rs := describe(cs[c]).reservations;
    ReservationWritesFrom(rs, w);
    var r, i :| ExtractedAt(rs, r, i, w);
  }
}

/**
 * The document join: one document for each key of `instance_asg_map`, in the
 * map's key order. The comment above the loop promises documents only for
 * instances that have both a group and metadata, but the loop reads
 * `instance_meta_map[instance_id]` for every key, so an instance without
 * metadata raises KeyError and no document is built at all.
 */
module Documents {
  import opened Common
  import opened Metadata

  /** The dict built for one instance and pushed to the index. */
  datatype Document = Document(
    timestamp: Option<string>,
    instanceId: string,
    asgName: string,
    region: string,
    instanceType: Option<string>,
    privateIp: Option<string>,
    publicIp: Option<string>,
    instanceName: Option<string>,
    availabilityZone: string,
    ingestedAt: string)

  /** The KeyError raised by `instance_meta_map[instance_id]`. */
  datatype JoinError = MissingMetadata(instanceId: string)

  /**
   * `doc` is the document for instance `id`: its interruption time (if any),
   * its group, the region, its metadata fields and the ingestion time.
   */
  ghost predicate DocumentFor(doc: Document, id: string, interruptionTimes: map<string, string>,
                              instanceAsgMap: map<string, string>, instanceMetaMap: map<string, InstanceMeta>,
                              region: string, ingestedAt: string)
  {
    && id in instanceAsgMap && id in instanceMetaMap
    && doc.instanceId == id
    && doc.timestamp == Get(interruptionTimes, id)
    && doc.asgName == instanceAsgMap[id]
    && doc.region == region
    && doc.instanceType == instanceMetaMap[id].instanceType
    && doc.privateIp == instanceMetaMap[id].privateIp
    && doc.publicIp == instanceMetaMap[id].publicIp
    && doc.instanceName == instanceMetaMap[id].instanceName
    && doc.availabilityZone == instanceMetaMap[id].availabilityZone
    && doc.ingestedAt == ingestedAt
  }

  /**
   * The document loop of the handler. `clock(k)` is the k-th reading of the
   * wall clock, taken as the k-th document is completed. It builds one
   * document per id, in order, when every id has metadata; otherwise it
   * raises KeyError for the first id without, and yields no documents.
   */
  method BuildDocuments(validIds: seq<string>, interruptionTimes: map<string, string>,
                        instanceAsgMap: map<string, string>, instanceMetaMap: map<string, InstanceMeta>,
                        region: string, clock: nat -> string)
    returns (r: Result<seq<Document>, JoinError>)
    requires forall id :: id in validIds ==> id in instanceAsgMap
    ensures r.Ok? <==> forall id :: id in validIds ==> id in instanceMetaMap
    ensures r.Ok? ==> |r.value| == |validIds|
    ensures r.Ok? ==> forall k :: 0 <= k < |validIds| ==>
              DocumentFor(r.value[k], validIds[k], interruptionTimes, instanceAsgMap, instanceMetaMap, region, clock(k))
    ensures r.Err? ==>
              exists k :: 0 <= k < |validIds| && validIds[k] == r.error.instanceId &&
                validIds[k] !in instanceMetaMap && forall j :: 0 <= j < k ==> validIds[j] in instanceMetaMap
  {
    var documents: seq<Document> := [];
    for k := 0 to |validIds|
      invariant |documents| == k
      invariant forall j :: 0 <= j < k ==> validIds[j] in instanceMetaMap
      invariant forall j :: 0 <= j < k ==>
                  DocumentFor(documents[j], validIds[j], interruptionTimes, instanceAsgMap, instanceMetaMap, region, clock(j))
    {
      var instanceId := validIds[k];
      if instanceId !in instanceMetaMap {
        return Err(MissingMetadata(instanceId));
      }
      var meta := instanceMetaMap[instanceId];
      var document := Document(
        Get(interruptionTimes, instanceId),
        instanceId,
        instanceAsgMap[instanceId],
        region,
        meta.instanceType,
        meta.privateIp,
        meta.publicIp,
        meta.instanceName,
        meta.availabilityZone,
        clock(k));
      documents := documents + [document];
    }
    return Ok(documents);
  }
}

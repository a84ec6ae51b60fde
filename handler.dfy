/**
 * The Lambda entry point: parse the queue records, find each instance's Auto
 * Scaling group, fetch the instances' EC2 metadata, join the two into one
 * document per instance, and bulk-index the documents. Every path that does
 * not raise returns status 200, including a push that lost documents.
 */
module Handler {
  import opened Common
  import opened PyDict
  import opened Batches
  import opened Records
  import opened Membership
  import opened Metadata
  import opened Documents
  import opened BulkIndex

  /** The body returned when no record yields an instance id. */
  const NO_IDS_BODY: string := "No valid instance IDs found."

  /** The exception that escapes the handler. */
  datatype HandlerError =
    | JoinFailed(joinError: JoinError)     // KeyError from the document join
    | PushFailed(pushError: PushError)     // KeyError or IndexError from the bulk push

  /** The handler's return value, or the exception it raises. */
  datatype HandlerResult = Returned(statusCode: int, body: Option<string>) | Exception(error: HandlerError)

  /** `valid_instance_ids`: the keys of `instance_asg_map`, in insertion order. */
  function ValidIds(records: seq<RawRecord>, describeAsg: seq<string> -> AsgReply): seq<string> {
    InstanceAsgMap(ParsedIds(records), describeAsg).order
  }

  /** `instance_meta_map` after the EC2 lookups. */
  function MetaMap(records: seq<RawRecord>, describeAsg: seq<string> -> AsgReply,
                   describeEc2: seq<string> -> Ec2Reply): map<string, InstanceMeta> {
    InstanceMetaMap(ValidIds(records, describeAsg), describeEc2).entries
  }

  /** Every valid id has metadata, so the join cannot raise. */
  predicate AllDescribed(records: seq<RawRecord>, describeAsg: seq<string> -> AsgReply,
                         describeEc2: seq<string> -> Ec2Reply) {
    forall id :: id in ValidIds(records, describeAsg) ==> id in MetaMap(records, describeAsg, describeEc2)
  }

  /**
   * `lambda_handler(event, context)`. `describeAsg` and `describeEc2` answer
   * the two describe calls, `clock(k)` is the wall clock as the k-th document
   * is built, `enc` is `json.dumps` on a document and `respond` answers a
   * bulk POST. Besides the result it returns the batches sent to each
   * describe call, the documents built and the push's events.
   */
  method LambdaHandler(records: seq<RawRecord>, region: string,
                       describeAsg: seq<string> -> AsgReply, describeEc2: seq<string> -> Ec2Reply,
                       clock: nat -> string, enc: Document -> string, respond: (nat, string) -> BulkReply)
    returns (result: HandlerResult, asgCalls: seq<seq<string>>, ec2Calls: seq<seq<string>>,
             documents: seq<Document>, pushTrace: seq<Event>)
    // no parsable record: nothing is looked up
    ensures ParsedIds(records) == [] ==>
              result == Returned(200, Some(NO_IDS_BODY)) && asgCalls == [] && ec2Calls == [] && pushTrace == []
    ensures ParsedIds(records) != [] ==> asgCalls == Chunks(ParsedIds(records), ASG_BATCH_SIZE)
    // no instance in a group: no EC2 lookup, no push
    ensures ParsedIds(records) != [] && ValidIds(records, describeAsg) == [] ==>
              result == Returned(200, None) && ec2Calls == [] && pushTrace == []
    ensures ValidIds(records, describeAsg) != [] ==> ec2Calls == Chunks(ValidIds(records, describeAsg), EC2_BATCH_SIZE)
    // an instance without metadata: KeyError for the first such id, nothing pushed
    ensures ValidIds(records, describeAsg) != [] && !AllDescribed(records, describeAsg, describeEc2) ==>
              && pushTrace == []
              && result.Exception? && result.error.JoinFailed?
              && exists k :: 0 <= k < |ValidIds(records, describeAsg)| &&
                   ValidIds(records, describeAsg)[k] == result.error.joinError.instanceId &&
                   ValidIds(records, describeAsg)[k] !in MetaMap(records, describeAsg, describeEc2) &&
                   forall j :: 0 <= j < k ==> ValidIds(records, describeAsg)[j] in MetaMap(records, describeAsg, describeEc2)
    // otherwise one document per valid id, all pushed; status 200 unless the push raised
    ensures ValidIds(records, describeAsg) != [] && AllDescribed(records, describeAsg, describeEc2) ==>
              && |documents| == |ValidIds(records, describeAsg)|
              && (forall k :: 0 <= k < |documents| ==>
                    DocumentFor(documents[k], ValidIds(records, describeAsg)[k], ParsedTimes(records),
                                InstanceAsgMap(ParsedIds(records), describeAsg).entries,
                                MetaMap(records, describeAsg, describeEc2), region, clock(k)))
              && var run := Attempts(documents, 1, MAX_RETRIES, enc, respond);
                 && pushTrace == run.trace
                 && result == (if run.outcome.Raised? then Exception(PushFailed(run.outcome.error)) else Returned(200, None))
  {
    asgCalls, ec2Calls, documents, pushTrace := [], [], [], [];
    var rawInstanceIds, interruptionTimes := ParseRecords(records);
    if rawInstanceIds == [] {
      return Returned(200, Some(NO_IDS_BODY)), asgCalls, ec2Calls, documents, pushTrace;
    }

    var instanceAsgMap;
    instanceAsgMap, asgCalls := ResolveMembership(rawInstanceIds, describeAsg);
    var validInstanceIds := instanceAsgMap.order;
    if validInstanceIds == [] {
      return Returned(200, None), asgCalls, ec2Calls, documents, pushTrace;
    }

    var instanceMetaMap;
    instanceMetaMap, ec2Calls := ResolveMetadata(validInstanceIds, describeEc2);
    var joined := BuildDocuments(validInstanceIds, interruptionTimes, instanceAsgMap.entries,
                                 instanceMetaMap.entries, region, clock);
    if joined.Err? {
      return Exception(JoinFailed(joined.error)), asgCalls, ec2Calls, documents, pushTrace;
    }
    documents := joined.value;

    var outcome := Indexed;
    if documents != [] {
      outcome, pushTrace := BulkPush(documents, MAX_RETRIES, enc, respond);
    }
    if outcome.Raised? {
      return Exception(PushFailed(outcome.error)), asgCalls, ec2Calls, documents, pushTrace;
    }
    // an exhausted push has only reported its loss
    return Returned(200, None), asgCalls, ec2Calls, documents, pushTrace;
  }
}

/**
 * Record parsing: each queue record's body is JSON holding the interrupted
 * instance's id at `detail.instance-id` and the event time at `time`. A record
 * lacking either is logged and skipped; the others contribute their id, in
 * record order and with duplicates kept, and their time, later records
 * overwriting earlier ones for the same id.
 */
module Records {
  import opened Common

  /** What the handler reads from one decoded body: `body["detail"]["instance-id"]` and `body["time"]`. */
  datatype Body = Body(instanceId: Option<string>, time: Option<string>)

  /** One queue record; `body` is None when the record has no body or the body is not JSON. */
  datatype RawRecord = RawRecord(body: Option<Body>)

  /** A successfully parsed notification. */
  datatype Notice = Notice(instanceId: string, time: string)

  /** The parse of one record, or None when any step of it raised. */
  function ParseRecord(r: RawRecord): (n: Option<Notice>)
    ensures n.Some? <==> r.body.Some? && r.body.value.instanceId.Some? && r.body.value.time.Some?
    ensures n.Some? ==> n.value == Notice(r.body.value.instanceId.value, r.body.value.time.value)
  {
    match r.body
    case None => None
    case Some(b) =>
      match (b.instanceId, b.time)
      case (Some(id), Some(t)) => Some(Notice(id, t))
      case _ => None
  }

  /** `raw_instance_ids` after the parse loop has seen the records `rs`. */
  function ParsedIds(rs: seq<RawRecord>): seq<string>
    decreases |rs|
  {
    if rs == [] then []
    else
      var last := rs[|rs| - 1];
      ParsedIds(rs[..|rs| - 1]) + (if ParseRecord(last).Some? then [ParseRecord(last).value.instanceId] else [])
  }

  /** `interruption_times` after the parse loop has seen the records `rs`. */
  function ParsedTimes(rs: seq<RawRecord>): map<string, string>
    decreases |rs|
  {
    if rs == [] then map[]
    else
      var last := rs[|rs| - 1];
      var m := ParsedTimes(rs[..|rs| - 1]);
      if ParseRecord(last).Some? then m[ParseRecord(last).value.instanceId := ParseRecord(last).value.time] else m
  }

  /** The parse loop of the handler. */
  method ParseRecords(records: seq<RawRecord>) returns (rawInstanceIds: seq<string>, interruptionTimes: map<string, string>)
    ensures rawInstanceIds == ParsedIds(records)
    ensures interruptionTimes == ParsedTimes(records)
    ensures |rawInstanceIds| <= |records|
  {
    rawInstanceIds := [];
    interruptionTimes := map[];
    for i := 0 to |records|
      invariant rawInstanceIds == ParsedIds(records[..i])
      invariant interruptionTimes == ParsedTimes(records[..i])
      invariant |rawInstanceIds| <= i
    {
      assert records[..i + 1][..i] == records[..i];
      var record := records[i];
      if record.body.Some? && record.body.value.instanceId.Some? && record.body.value.time.Some? {
        var instanceId := record.body.value.instanceId.value;
        var interruptionTime := record.body.value.time.value;
        rawInstanceIds := rawInstanceIds + [instanceId];
        interruptionTimes := interruptionTimes[instanceId := interruptionTime];
      }
      // otherwise the record is logged as unparseable and skipped
    }
    assert records[..|records|] == records;
  }

  /** Parsing a batch is parsing its parts in order: record order is kept and nothing is de-duplicated. */
  lemma {:induction false} ParsedIdsAppend(a: seq<RawRecord>, b: seq<RawRecord>)
    ensures ParsedIds(a + b) == ParsedIds(a) + ParsedIds(b)
    decreases |b|
  {
    if b == [] {
      assert a + b == a;
    } else {
      var b' := b[..|b| - 1];
      assert (a + b)[..|a + b| - 1] == a + b';
      ParsedIdsAppend(a, b');
    }
  }

  /** The positions of the records that fail to parse. */
  function Malformed(rs: seq<RawRecord>): set<nat> {
    set i: nat | i < |rs| && ParseRecord(rs[i]).None?
  }

  /** One id per well-formed record: the count is the batch size less the malformed records. */
  lemma {:induction false} ParsedIdsCount(rs: seq<RawRecord>)
    ensures |ParsedIds(rs)| == |rs| - |Malformed(rs)|
    decreases |rs|
  {
    if rs != [] {
      var n := |rs| - 1;
      ParsedIdsCount(rs[..n]);
      if ParseRecord(rs[n]).None? {
        assert Malformed(rs) == Malformed(rs[..n]) + {n};
      } else {
        assert Malformed(rs) == Malformed(rs[..n]);
      }
    }
  }

  /** An id is listed iff some record parses to it. */
  lemma {:induction false} ParsedIdsMember(rs: seq<RawRecord>, id: string)
    ensures id in ParsedIds(rs) <==>
              exists i :: 0 <= i < |rs| && ParseRecord(rs[i]).Some? && ParseRecord(rs[i]).value.instanceId == id
    decreases |rs|
  {
    if rs != [] {
      var n := |rs| - 1;
      ParsedIdsMember(rs[..n], id);
      if exists i :: 0 <= i < |rs| && ParseRecord(rs[i]).Some? && ParseRecord(rs[i]).value.instanceId == id {
        var i :| 0 <= i < |rs| && ParseRecord(rs[i]).Some? && ParseRecord(rs[i]).value.instanceId == id;
        if i < n {
          assert rs[..n][i] == rs[i];
        }
      }
    }
  }

  /** `interruption_times` has a key for exactly the listed ids. */
  lemma {:induction false} ParsedTimesKeys(rs: seq<RawRecord>, id: string)
    ensures id in ParsedTimes(rs) <==> id in ParsedIds(rs)
    decreases |rs|
  {
    if rs != [] {
      ParsedTimesKeys(rs[..|rs| - 1], id);
    }
  }

  /** The time kept for an id is that of the last record parsed for it. */
  lemma {:induction false} ParsedTimesLastWins(rs: seq<RawRecord>, i: nat)
    requires i < |rs| && ParseRecord(rs[i]).Some?
    requires forall j :: i < j < |rs| && ParseRecord(rs[j]).Some? ==>
               ParseRecord(rs[j]).value.instanceId != ParseRecord(rs[i]).value.instanceId
    ensures ParseRecord(rs[i]).value.instanceId in ParsedTimes(rs)
    ensures ParsedTimes(rs)[ParseRecord(rs[i]).value.instanceId] == ParseRecord(rs[i]).value.time
    decreases |rs|
  {
    var n := |rs| - 1;
    if i < n {
      assert rs[..n][i] == rs[i];
      forall j | i < j < n && ParseRecord(rs[..n][j]).Some?
        ensures ParseRecord(rs[..n][j]).value.instanceId != ParseRecord(rs[..n][i]).value.instanceId
      {
        assert rs[..n][j] == rs[j];
      }
      ParsedTimesLastWins(rs[..n], i);
    }
  }
}

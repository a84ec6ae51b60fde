# Spot interruption insights: the processing Lambda, in Dafny

This project models `src/process-spot-interruption-notices.py`, the Lambda that
turns a batch of EC2 Spot interruption notices into documents in an OpenSearch
index. The handler works in four stages:

1. It parses each queue record. The instance id is read from `detail.instance-id` and the time from `time`. A malformed record is skipped.
2. It looks up the Auto Scaling group of every parsed id, in calls of at most 50 ids.
3. It fetches EC2 metadata for the ids that have a group, in calls of at most 100 ids.
4. It joins each instance's group and metadata into one document. It then bulk-indexes the documents, and after a partial failure it retries the documents whose response items carried an error, matched by position.

Each loop of the source is a Dafny `method` with loop invariants, proved
against a specification function of its inputs. Properties of those functions
are then proved as lemmas:

| file | module | models |
|---|---|---|
| `common.dfy` | `Common` | `Option`, `Result`, `dict.get` |
| `pydict.dfy` | `PyDict` | a Python `dict` with string keys: insertion-ordered keys, `d[k] = v`, a run of writes (`PutAll`) |
| `batches.dfy` | `Batches` | `s[i:i+n] for i in range(0, len(s), n)` (`Chunks`), and folding each chunk's writes into a dict |
| `records.dfy` | `Records` | the record-parsing loop |
| `membership.dfy` | `Membership` | the Auto Scaling loop, building `instance_asg_map` |
| `metadata.dfy` | `Metadata` | the EC2 loop, building `instance_meta_map`, and the `Name` tag lookup |
| `documents.dfy` | `Documents` | the document join |
| `bulk.dfy` | `BulkIndex` | `bulk_push_to_opensearch`: the NDJSON body, the positional failed-document scan and the retry loop |
| `handler.dfy` | `Handler` | `lambda_handler` end to end |

Calls the model cannot see are function-typed parameters. A different function
gives a different environment.

- `describe: seq<string> -> AsgReply` is the Auto Scaling describe call. It answers one chunk with entries or a failure.
- `describe: seq<string> -> Ec2Reply` is the EC2 describe call. It answers one chunk with reservations or one of the three failures the code tells apart.
- `clock: nat -> string` is `datetime.now(timezone.utc).isoformat()`, read while the k-th document is built.
- `enc: Document -> string` is `json.dumps` of a document.
- `respond: (nat, string) -> BulkReply` is the bulk endpoint. It receives the attempt number and the request body. It answers with a transport failure, or with the response's `errors` flag and, for each item, whether `index.error` is set (`None` when `items` is absent).

`time.sleep` and the loss message do not wait or print. They are events in the
push's trace, next to each POST.

Two behaviours of the code are easy to misread; the model follows the code:

- **The join raises.** The comment above the join (`src/process-spot-interruption-notices.py:172`) says documents are built only for instances that have both a group and metadata. The code, however, reads `instance_meta_map[instance_id]` for every valid id (`:179`). So one instance without metadata, for example one the EC2 call reported as not found, raises `KeyError`, and nothing is indexed. `Documents.BuildDocuments` and `Handler.LambdaHandler` return that error.
- **`errors` set but no item erring.** Such a response is neither a success nor a retry of failed documents. Control falls out of the `if failed_docs:` block without `break` or `continue` (`:78-83`), so the next attempt re-POSTs the same body without sleeping. If every attempt ends this way, the `for … else` reports the whole list as lost. `BulkIndex.Step` models this, and `BulkIndex.ErrorsWithoutItemsLoseBatch` proves the loss.
- **A malformed Auto Scaling entry.** It raises part-way through a reply, so the entries before it stay in `instance_asg_map` (`Membership.EntryWritesPrefix`).
- **No de-duplication.** Parsed ids are never de-duplicated before the lookup (`Records.ParsedIdsAppend`).

## Model

| member | source | states |
|---|---|---|
| Common.Get | src/process-spot-interruption-notices.py:175 | `dict.get`: Some exactly when the key is present, holding its value |
| PyDict.Dict.Put | src/process-spot-interruption-notices.py:131 | `d[k] = v`: the mapping gets `k := v`, the existing key order is kept as a prefix, `k` is listed, and keys stay distinct |
| PyDict.Empty | src/process-spot-interruption-notices.py:122 | `{}` is a well-formed dict with no keys |
| PyDict.PutAllValid | src/process-spot-interruption-notices.py:128-131 | a run of writes keeps the keys distinct and only appends to the key order |
| PyDict.PutAllKeys | src/process-spot-interruption-notices.py:128-131 | after a run of writes, a key is present iff it was before or some write was to it |
| PyDict.PutAllLastWins | src/process-spot-interruption-notices.py:131 | the value kept for a key is that of the last write to it |
| PyDict.PutAllUntouched | src/process-spot-interruption-notices.py:131 | a key no write touches keeps its value |
| PyDict.PutAllAppend | src/process-spot-interruption-notices.py:124-134 | writing `a` then `b` is writing `a + b` |
| PyDict.PutAllValueFrom | src/process-spot-interruption-notices.py:131 | a value after a run of writes is the old one or the value of some write |
| Batches.ChunksConcat | src/process-spot-interruption-notices.py:124-125 | the chunks, concatenated in order, are the original list |
| Batches.ChunksSizes | src/process-spot-interruption-notices.py:124-125 | each chunk is non-empty and no longer than the batch size |
| Batches.ChunksCount | src/process-spot-interruption-notices.py:124 | the number of chunks is ceil(N / size): none for an empty list |
| Batches.ChunksFrom | src/process-spot-interruption-notices.py:124-125 | from offset `i`, the next chunk is `s[i:i+size]` clipped at the end, followed by the chunks after it |
| Batches.FoldChunksKeys | src/process-spot-interruption-notices.py:124-134 | after folding the chunks' writes, a key is present iff it was before or some chunk wrote it; keys stay distinct |
| Batches.FoldChunksValues | src/process-spot-interruption-notices.py:124-134 | each value after the fold is an old one or one written by some chunk |
| Records.ParseRecord | src/process-spot-interruption-notices.py:105-112 | a record parses iff it has a body with both the instance id and the time, and yields exactly those |
| Records.ParseRecords | src/process-spot-interruption-notices.py:101-112 | the loop builds `raw_instance_ids` and `interruption_times` as specified, with no more ids than records |
| Records.ParsedIdsAppend | src/process-spot-interruption-notices.py:104-110 | parsing keeps record order and does not de-duplicate: the ids of `a + b` are those of `a` then those of `b` |
| Records.ParsedIdsCount | src/process-spot-interruption-notices.py:104-112 | one id per well-formed record: the count is the number of records less the malformed ones, none of which aborts the loop |
| Records.ParsedIdsMember | src/process-spot-interruption-notices.py:107-109 | an id is listed iff some record parses to it |
| Records.ParsedTimesKeys | src/process-spot-interruption-notices.py:109-110 | `interruption_times` has a key for exactly the listed ids |
| Records.ParsedTimesLastWins | src/process-spot-interruption-notices.py:110 | the time kept for an id is that of the last record parsed for it |
| Membership.EntryWritesPrefix | src/process-spot-interruption-notices.py:128-133 | a reply contributes a prefix of its entries, and the first entry left out lacks a field |
| Membership.MergeEntries | src/process-spot-interruption-notices.py:128-131 | the entry loop writes exactly that prefix into `instance_asg_map` |
| Membership.ResolveMembership | src/process-spot-interruption-notices.py:122-134 | one describe call per chunk of at most 50 parsed ids, in order; a failed call writes nothing and later chunks still run |
| Membership.MembershipKeys | src/process-spot-interruption-notices.py:128-137 | `instance_asg_map` (so `valid_instance_ids`) holds, once each, exactly the ids some chunk's reply wrote |
| Membership.MembershipValues | src/process-spot-interruption-notices.py:129-131 | the group kept for an id is one that some reply gave for it |
| Metadata.NameTagFound | src/process-spot-interruption-notices.py:154 | the name is `v` iff the first tag keyed "Name" has value `v` and every tag before it has a key |
| Metadata.NameTagAbsent | src/process-spot-interruption-notices.py:154 | the name is None iff every tag has a key and none is "Name" |
| Metadata.ExtractMetadata | src/process-spot-interruption-notices.py:153-161 | an instance can be read iff it has an id and a zone, and its tags yield a name or none; the record carries that id, name and zone, and the instance's type, private and public addresses as given |
| Metadata.InstanceWritesSkip | src/process-spot-interruption-notices.py:151-163 | a write is made for an instance iff it can be read, so a failure skips that instance only |
| Metadata.ReservationWritesFrom | src/process-spot-interruption-notices.py:150-163 | a reply's writes are exactly its readable instances, across all its reservations |
| Metadata.MergeInstances | src/process-spot-interruption-notices.py:151-163 | the instance loop writes exactly the readable instances into `instance_meta_map` |
| Metadata.MergeReservations | src/process-spot-interruption-notices.py:150-163 | the reservation loop writes the readable instances of every reservation, in order |
| Metadata.ResolveMetadata | src/process-spot-interruption-notices.py:145-170 | one describe call per chunk of at most 100 valid ids, in order; a failed call of any kind writes nothing and later chunks still run |
| Metadata.WrittenIffDescribed | src/process-spot-interruption-notices.py:149-170 | a chunk writes an id iff its reply holds a readable instance with that id |
| Metadata.MetadataKeys | src/process-spot-interruption-notices.py:145-170 | `instance_meta_map` holds, once each, exactly the ids of readable instances in the chunks' successful replies |
| Metadata.MetadataValues | src/process-spot-interruption-notices.py:155-161 | the record kept for an id was read from an instance with that id in some reply |
| Documents.BuildDocuments | src/process-spot-interruption-notices.py:172-182 | one document per valid id, in order, carrying that id's time, group, the region, its metadata and the k-th clock reading, iff every valid id has metadata; otherwise KeyError for the first id without |
| BulkIndex.PayloadIsLines | src/process-spot-interruption-notices.py:62 | the body is the action line and the document line, per document, each newline-terminated |
| BulkIndex.SplitJoin | src/process-spot-interruption-notices.py:62 | newline-terminated lines without newlines split back into those lines |
| BulkIndex.PayloadLinesAt | src/process-spot-interruption-notices.py:62 | the body has 2n lines: line 2k is the action line and line 2k+1 the k-th document |
| BulkIndex.PayloadLayout | src/process-spot-interruption-notices.py:62 | when no encoded document holds a newline, splitting the body gives 2n lines alternating the action line and `enc(docs[k])` |
| BulkIndex.ErrorPositionsSpec | src/process-spot-interruption-notices.py:73-74 | the error positions are strictly ascending and are exactly the erring items |
| BulkIndex.FailedDocsPositional | src/process-spot-interruption-notices.py:71-76 | the scan succeeds iff no erring item lies past the documents; the retry list is then the documents at the error positions, unchanged and in order |
| BulkIndex.FailedDocsRaises | src/process-spot-interruption-notices.py:76 | a failing scan raises IndexError for the first erring item past the documents |
| BulkIndex.FailedDocsPrefixErr | src/process-spot-interruption-notices.py:73-76 | once the scan of a prefix has raised, the whole scan raises the same error |
| BulkIndex.FailedDocsBound | src/process-spot-interruption-notices.py:72-76 | the retry list is no longer than the documents or the items |
| BulkIndex.NoErringItem | src/process-spot-interruption-notices.py:73-78 | with no item marked as erring the retry list is empty |
| BulkIndex.CollectFailed | src/process-spot-interruption-notices.py:72-76 | the item loop computes the retry list, or raises as the scan does |
| BulkIndex.Attempt | src/process-spot-interruption-notices.py:65-91 | one loop iteration: POST, then break, raise, switch to the failed documents after a sleep, resend after a sleep, or resend at once |
| BulkIndex.BulkPush | src/process-spot-interruption-notices.py:58-94 | the push's outcome and its POST/sleep/loss trace are those of the attempt-by-attempt specification, from attempt 1 |
| BulkIndex.PostsAppend | src/process-spot-interruption-notices.py:64-66 | the POSTs of two traces laid end to end are the POSTs of each, in order |
| BulkIndex.StepEvents | src/process-spot-interruption-notices.py:66-91 | an attempt is its POST followed by at most one sleep of `attempt` seconds, present exactly when the reply calls for it; it ends the push exactly when the reply is clean or raises, and otherwise goes on with the next working list |
| BulkIndex.PostsNumbered | src/process-spot-interruption-notices.py:64-66 | at most `max_retries` POSTs, numbered 1, 2, …; each sends the body of its own batch, and the first sends the list given |
| BulkIndex.RetryBatches | src/process-spot-interruption-notices.py:71-91 | each later POST is the retry the previous response calls for: the same batch after a transport failure or an errors flag with no erring item, else the erring documents |
| BulkIndex.SleepsFollowPosts | src/process-spot-interruption-notices.py:82-91 | no sleep comes before the first POST; each sleep follows a POST and lasts as many seconds as its attempt number |
| BulkIndex.SleepsIncrease | src/process-spot-interruption-notices.py:82-91 | the sleeps last between 1 and `max_retries` seconds and grow strictly |
| BulkIndex.LossOnce | src/process-spot-interruption-notices.py:93-94 | the loss is reported once, last, exactly when the attempts ran out, with the outcome's count; that count is at most the original size, and zero only for an empty list |
| BulkIndex.LossIsLastWorkingList | src/process-spot-interruption-notices.py:78-94 | the count reported lost is the size of the working list the last POST's reply left: its erring documents if any, else the same batch (the list given, if nothing was POSTed) |
| BulkIndex.SleepIffCalled | src/process-spot-interruption-notices.py:78-91 | a POST is followed by `Sleep(attempt)` exactly when its request failed or its response named erring documents |
| BulkIndex.CleanReplyIndexes | src/process-spot-interruption-notices.py:84-87 | a response without errors is the last event and ends the push as indexed, and an indexed push reports no loss |
| BulkIndex.OutcomeCause | src/process-spot-interruption-notices.py:64-94 | the push ends on a clean response to its last POST, on a raising response to it, or after all `max_retries` POSTs |
| BulkIndex.ErrorsWithoutItemsLoseBatch | src/process-spot-interruption-notices.py:71-83 | if every response sets `errors` but marks no item, the same batch is re-sent without sleeping and all of it is reported lost |
| Handler.LambdaHandler | src/process-spot-interruption-notices.py:99-189 | no parsed id: 200 with the "no valid ids" body and no lookup; ASG calls are the chunks of 50 of the parsed ids; no grouped id: 200 and no EC2 call; EC2 calls are the chunks of 100 of the valid ids; a missing metadata record raises KeyError before any push; otherwise one document per valid id is pushed, and the result is 200 unless the push raised, even when documents were lost |

## Left out

- The module-level configuration (`src/process-spot-interruption-notices.py:17-39`) is not modelled. This covers the environment variables, the boto3 clients and session, and AWS4Auth signing, all of which are foreign I/O. The region is a parameter.
- The Auto Scaling, EC2 and HTTP calls are not modelled. They are the oracle parameters described above. `raise_for_status` and a body that is not JSON fold into the transport failure, as in current `requests`, where the JSON decode error is a `RequestException`.
- `json.loads`, `json.dumps` and the JSON shapes are not modelled beyond the fields the code reads. A record's body is already decoded into the two fields read from it. Values of a non-string type, such as a numeric instance id or an `items` element that is not a dict, are outside the model.
- `event["Records"]` missing, and the `context` argument, are not modelled: the handler receives the list of records.
- `datetime.now` is the `clock` parameter. `time.sleep` and the loss message are trace events. Other `print` logging is left out.
- The commented-out first version of `bulk_push_to_opensearch` (`:41-54`) is not modelled. It is a string literal and never runs.
- The `asg_names` set (`:123`, `:132`) is not modelled. It is written and never read.
- Truthiness of `errors` and of `index.error` is not modelled: both are booleans.
- `BulkIndex.PayloadLayout` assumes that `json.dumps` of a document contains no newline. The standard encoder escapes newlines, but the model does not derive this.
- `BulkIndex.BulkPush` models the loop on values: rebinding `documents` and `payload` does not change the caller's list, so there is no aliasing to capture.

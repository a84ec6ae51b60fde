/**
 * The bulk indexer: the working list of documents is written as one bulk
 * request, an action line and a document line per document, and POSTed up to
 * `max_retries` times. A transport failure resends the same request after
 * sleeping `attempt` seconds; a response without errors ends the push; a
 * response with errors makes the documents whose response item carries an
 * error, taken by position, the new working list, after the same sleep. A
 * response with errors in which no item carries one changes nothing and the
 * next attempt resends the same request at once. When the attempts run out
 * the number of documents in the working list is reported lost, once.
 */
module BulkIndex {
  import opened Common
  import opened Documents

  /** `json.dumps({"index": {}})`, the action line before each document. */
  const ACTION_LINE: string := "{\"index\": {}}"

  /** The default `max_retries`, which the handler uses. */
  const MAX_RETRIES: int := 3

  /** The request body for a working list: `"".join(action + "\n" + json.dumps(doc) + "\n" for doc in docs)`. */
  function Payload(docs: seq<Document>, enc: Document -> string): string
    decreases |docs|
  {
    if docs == [] then "" else ACTION_LINE + "\n" + enc(docs[0]) + "\n" + Payload(docs[1..], enc)
  }

  /** The lines of the request body: the action line and the document line, per document. */
  function PayloadLines(docs: seq<Document>, enc: Document -> string): seq<string>
    decreases |docs|
  {
    if docs == [] then [] else [ACTION_LINE, enc(docs[0])] + PayloadLines(docs[1..], enc)
  }

  /** Newline-terminated lines laid end to end. */
  function JoinLines(lines: seq<string>): string
    decreases |lines|
  {
    if lines == [] then "" else lines[0] + "\n" + JoinLines(lines[1..])
  }

  /** The length of the first line of `s`: the position of its first newline, or `|s|`. */
  function LineEnd(s: string): (i: nat)
    ensures i <= |s|
    decreases |s|
  {
    if s == [] || s[0] == '\n' then 0 else 1 + LineEnd(s[1..])
  }

  /** Splits a text into its lines, as a reader of the bulk body does. */
  function SplitLines(s: string): seq<string>
    decreases |s|
  {
    if s == [] then []
    else
      var i := LineEnd(s);
      [s[..i]] + (if i < |s| then SplitLines(s[i + 1..]) else [])
  }

  lemma {:induction false} PayloadIsLines(docs: seq<Document>, enc: Document -> string)
    ensures Payload(docs, enc) == JoinLines(PayloadLines(docs, enc))
    decreases |docs|
  {
    if docs != [] {
      PayloadIsLines(docs[1..], enc);
      var lines := PayloadLines(docs, enc);
      assert lines[1..][1..] == PayloadLines(docs[1..], enc);
    }
  }

  lemma {:induction false} LineEndOf(line: string, rest: string)
    requires '\n' !in line
    ensures LineEnd(line + "\n" + rest) == |line|
    decreases |line|
  {
    if line != [] {
      assert (line + "\n" + rest)[1..] == line[1..] + "\n" + rest;
      LineEndOf(line[1..], rest);
    }
  }

  /** Splitting newline-terminated lines that hold no newline gives the lines back. */
  lemma {:induction false} SplitJoin(lines: seq<string>)
    requires forall k :: 0 <= k < |lines| ==> '\n' !in lines[k]
    ensures SplitLines(JoinLines(lines)) == lines
    decreases |lines|
  {
    if lines != [] {
      var s := JoinLines(lines);
      var rest := JoinLines(lines[1..]);
      LineEndOf(lines[0], rest);
      assert s == lines[0] + "\n" + rest;
      assert s[..|lines[0]|] == lines[0];
      assert s[|lines[0]| + 1..] == rest;
      SplitJoin(lines[1..]);
    }
  }

  lemma {:induction false} PayloadLinesAt(docs: seq<Document>, enc: Document -> string)
    ensures |PayloadLines(docs, enc)| == 2 * |docs|
    ensures forall k :: 0 <= k < |docs| ==>
              PayloadLines(docs, enc)[2 * k] == ACTION_LINE && PayloadLines(docs, enc)[2 * k + 1] == enc(docs[k])
    decreases |docs|
  {
    if docs != [] {
      PayloadLinesAt(docs[1..], enc);
      var lines := PayloadLines(docs, enc);
      forall k | 0 < k < |docs|
        ensures lines[2 * k] == ACTION_LINE && lines[2 * k + 1] == enc(docs[k])
      {
        assert lines[2 * k] == PayloadLines(docs[1..], enc)[2 * (k - 1)];
        assert lines[2 * k + 1] == PayloadLines(docs[1..], enc)[2 * (k - 1) + 1];
      }
    }
  }

  /**
   * When no encoded document holds a newline, the body is 2n newline-terminated
   * lines: line 2k is the action line and line 2k + 1 is the k-th document.
   */
  lemma PayloadLayout(docs: seq<Document>, enc: Document -> string)
    requires forall k :: 0 <= k < |docs| ==> '\n' !in enc(docs[k])
    ensures Payload(docs, enc) == JoinLines(SplitLines(Payload(docs, enc)))
    ensures |SplitLines(Payload(docs, enc))| == 2 * |docs|
    ensures forall k :: 0 <= k < |docs| ==>
              SplitLines(Payload(docs, enc))[2 * k] == ACTION_LINE &&
              SplitLines(Payload(docs, enc))[2 * k + 1] == enc(docs[k])
  {
    var lines := PayloadLines(docs, enc);
    PayloadIsLines(docs, enc);
    PayloadLinesAt(docs, enc);
    forall j | 0 <= j < |lines|
      ensures '\n' !in lines[j]
    {
      assert '\n' !in ACTION_LINE by {
        assert ACTION_LINE == ['{', '"', 'i', 'n', 'd', 'e', 'x', '"', ':', ' ', '{', '}', '}'];
      }
      if j % 2 == 1 {
        assert lines[2 * (j / 2) + 1] == enc(docs[j / 2]);
      } else {
        assert lines[2 * (j / 2)] == ACTION_LINE;
      }
    }
    SplitJoin(lines);
  }

  /** The exceptions the push does not catch. */
  datatype PushError =
    | ItemsMissing                          // `bulk_response["items"]` raised KeyError
    | DocumentIndexOutOfRange(idx: nat)     // `documents[idx]` raised IndexError

  /**
   * The documents whose response item carries an error, by position: item
   * `idx` selects `docs[idx]`; an erring item past the end of `docs` raises.
   */
  function FailedDocs(docs: seq<Document>, itemFailed: seq<bool>): Result<seq<Document>, PushError>
    decreases |itemFailed|
  {
    if itemFailed == [] then Ok([])
    else
      var idx := |itemFailed| - 1;
      match FailedDocs(docs, itemFailed[..idx])
      case Err(e) => Err(e)
      case Ok(failed) =>
        if !itemFailed[idx] then Ok(failed)
        else if idx < |docs| then Ok(failed + [docs[idx]])
        else Err(DocumentIndexOutOfRange(idx))
  }

  /** The positions of the erring items, in ascending order. */
  function ErrorPositions(itemFailed: seq<bool>): seq<nat>
    decreases |itemFailed|
  {
    if itemFailed == [] then []
    else
      var idx := |itemFailed| - 1;
      ErrorPositions(itemFailed[..idx]) + (if itemFailed[idx] then [idx] else [])
  }

  /** The error positions are strictly ascending and are exactly the erring items. */
  lemma {:induction false} ErrorPositionsSpec(itemFailed: seq<bool>)
    ensures forall i, j :: 0 <= i < j < |ErrorPositions(itemFailed)| ==>
              ErrorPositions(itemFailed)[i] < ErrorPositions(itemFailed)[j]
    ensures forall idx :: 0 <= idx < |itemFailed| ==> (idx in ErrorPositions(itemFailed) <==> itemFailed[idx])
    ensures forall k :: 0 <= k < |ErrorPositions(itemFailed)| ==> ErrorPositions(itemFailed)[k] < |itemFailed|
    decreases |itemFailed|
  {
    if itemFailed != [] {
      var n := |itemFailed| - 1;
      ErrorPositionsSpec(itemFailed[..n]);
      forall idx | 0 <= idx < n
        ensures itemFailed[..n][idx] == itemFailed[idx]
      {
      }
    }
  }

  /**
   * When no erring item lies past the documents, the retry list is exactly
   * the documents at the error positions, in ascending order, unchanged.
   */
  lemma {:induction false} FailedDocsPositional(docs: seq<Document>, itemFailed: seq<bool>)
    ensures FailedDocs(docs, itemFailed).Ok? <==> forall idx :: 0 <= idx < |itemFailed| && itemFailed[idx] ==> idx < |docs|
    ensures FailedDocs(docs, itemFailed).Ok? ==>
              var p := ErrorPositions(itemFailed);
              && |FailedDocs(docs, itemFailed).value| == |p|
              && forall k :: 0 <= k < |p| ==> p[k] < |docs| && FailedDocs(docs, itemFailed).value[k] == docs[p[k]]
    decreases |itemFailed|
  {
    if itemFailed != [] {
      var n := |itemFailed| - 1;
      FailedDocsPositional(docs, itemFailed[..n]);
      forall idx | 0 <= idx < n
        ensures itemFailed[..n][idx] == itemFailed[idx]
      {
      }
    }
  }

  /** An IndexError names the first erring item past the documents. */
  lemma {:induction false} FailedDocsRaises(docs: seq<Document>, itemFailed: seq<bool>)
    requires FailedDocs(docs, itemFailed).Err?
    ensures FailedDocs(docs, itemFailed).error.DocumentIndexOutOfRange?
    ensures var idx := FailedDocs(docs, itemFailed).error.idx;
            && |docs| <= idx < |itemFailed| && itemFailed[idx]
            && forall j :: |docs| <= j < idx ==> !itemFailed[j]
    decreases |itemFailed|
  {
    var n := |itemFailed| - 1;
    if FailedDocs(docs, itemFailed[..n]).Err? {
      FailedDocsRaises(docs, itemFailed[..n]);
    } else {
      FailedDocsPositional(docs, itemFailed[..n]);
      forall j | |docs| <= j < n
        ensures !itemFailed[j]
      {
        assert itemFailed[..n][j] == itemFailed[j];
      }
    }
  }

  /** The loop over the response items: collect the documents at erring positions. */
  method CollectFailed(documents: seq<Document>, itemFailed: seq<bool>) returns (r: Result<seq<Document>, PushError>)
    ensures r == FailedDocs(documents, itemFailed)
  {
    var failedDocs: seq<Document> := [];
    for idx := 0 to |itemFailed|
      invariant FailedDocs(documents, itemFailed[..idx]) == Ok(failedDocs)
    {
      assert itemFailed[..idx + 1][..idx] == itemFailed[..idx];
      if itemFailed[idx] {
        if idx >= |documents| {
          assert FailedDocs(documents, itemFailed[..idx + 1]).Err?;
          FailedDocsPrefixErr(documents, itemFailed, idx + 1);
          return Err(DocumentIndexOutOfRange(idx));
        }
        failedDocs := failedDocs + [documents[idx]];
      }
    }
    assert itemFailed[..|itemFailed|] == itemFailed;
    return Ok(failedDocs);
  }

  /** Once the scan of a prefix has raised, the scan of the whole list raises the same error. */
  lemma {:induction false} FailedDocsPrefixErr(docs: seq<Document>, itemFailed: seq<bool>, n: nat)
    requires n <= |itemFailed| && FailedDocs(docs, itemFailed[..n]).Err?
    ensures FailedDocs(docs, itemFailed) == FailedDocs(docs, itemFailed[..n])
    decreases |itemFailed| - n
  {
    if n < |itemFailed| {
      assert itemFailed[..n + 1][..n] == itemFailed[..n];
      FailedDocsPrefixErr(docs, itemFailed, n + 1);
    } else {
      assert itemFailed[..n] == itemFailed;
    }
  }

  /**
   * The outcome of one POST: the request failed (a connection error, a
   * timeout, an HTTP error status, or a body that is not JSON), or the parsed
   * response with its `errors` flag and, if present, for each of its `items`
   * whether `index.error` is set.
   */
  datatype BulkReply = TransportError | BulkResponse(errors: bool, items: Option<seq<bool>>)

  /** What the push does, in order: POST a working list's body, sleep, report the loss. */
  datatype Event =
    | Post(attempt: nat, batch: seq<Document>, payload: string)
    | Sleep(seconds: nat)
    | LossReported(count: nat)

  /** How the push ends: a clean response, the attempts exhausted with documents lost, or an uncaught exception. */
  datatype PushOutcome = Indexed | Exhausted(lost: nat) | Raised(error: PushError)

  datatype PushRun = PushRun(outcome: PushOutcome, trace: seq<Event>)

  function Prepend(events: seq<Event>, run: PushRun): PushRun {
    PushRun(run.outcome, events + run.trace)
  }

  /** What one attempt leads to: the push ends, or it goes on with the next working list. */
  datatype StepResult =
    | Stop(outcome: PushOutcome, events: seq<Event>)
    | Retry(events: seq<Event>, next: seq<Document>)

  /** One attempt: the POST of `payload`, the endpoint's `reply`, and what follows from it. */
  function Step(docs: seq<Document>, attempt: nat, payload: string, reply: BulkReply): StepResult {
    var post := Post(attempt, docs, payload);
    match reply
    case TransportError => Retry([post, Sleep(attempt)], docs)
    case BulkResponse(errors, items) =>
      if !errors then Stop(Indexed, [post])
      else
        match items
        case None => Stop(Raised(ItemsMissing), [post])
        case Some(itemFailed) =>
          match FailedDocs(docs, itemFailed)
          case Err(e) => Stop(Raised(e), [post])
          case Ok(failed) =>
            if failed != [] then Retry([post, Sleep(attempt)], failed)
            else Retry([post], docs)
  }

  /**
   * The push from attempt `attempt` on, with working list `docs`; the
   * endpoint's answer to a POST is `respond(attempt, payload)`.
   */
  function Attempts(docs: seq<Document>, attempt: nat, maxRetries: int,
                    enc: Document -> string, respond: (nat, string) -> BulkReply): PushRun
    decreases maxRetries - attempt + 1
  {
    if attempt > maxRetries then PushRun(Exhausted(|docs|), [LossReported(|docs|)])
    else
      var payload := Payload(docs, enc);
      match Step(docs, attempt, payload, respond(attempt, payload))
      case Stop(outcome, events) => PushRun(outcome, events)
      case Retry(events, next) => Prepend(events, Attempts(next, attempt + 1, maxRetries, enc, respond))
  }

  /**
   * The body of the retry loop: POST, then read the response. It follows
   * `Step` branch for branch; it is a method of its own so that the proof of
   * `BulkPush` reasons about one attempt through its contract alone.
   */
  method Attempt(docs: seq<Document>, attempt: nat, payload: string, reply: BulkReply) returns (step: StepResult)
    ensures step == Step(docs, attempt, payload, reply)
  {
    var post := Post(attempt, docs, payload);
    match reply {
      case TransportError =>
        // the request failed: the same request is sent again after sleeping
        return Retry([post, Sleep(attempt)], docs);
      case BulkResponse(errors, items) =>
        if !errors {
          return Stop(Indexed, [post]);
        }
        if items.None? {
          return Stop(Raised(ItemsMissing), [post]);
        }
        var failed := CollectFailed(docs, items.value);
        if failed.Err? {
          return Stop(Raised(failed.error), [post]);
        }
        if failed.value != [] {
          return Retry([post, Sleep(attempt)], failed.value);
        }
        // no item carries an error: the next attempt sends the same request, without sleeping
        return Retry([post], docs);
    }
  }

  /** `bulk_push_to_opensearch(documents, max_retries)`. */
  method BulkPush(documents: seq<Document>, maxRetries: int, enc: Document -> string, respond: (nat, string) -> BulkReply)
    returns (outcome: PushOutcome, trace: seq<Event>)
    ensures PushRun(outcome, trace) == Attempts(documents, 1, maxRetries, enc, respond)
  {
    var docs := documents;
    var payload := Payload(docs, enc);
    trace := [];
    var attempt: nat := 1;
    ghost var goal := Attempts(documents, 1, maxRetries, enc, respond);
    while attempt <= maxRetries
      invariant attempt >= 1
      invariant payload == Payload(docs, enc)
      invariant Prepend(trace, Attempts(docs, attempt, maxRetries, enc, respond)) == goal
      decreases maxRetries - attempt + 1
    {
      var reply := respond(attempt, payload);
      var step := Attempt(docs, attempt, payload, reply);
      if step.Stop? {
        return step.outcome, trace + step.events;
      }
      ghost var rest := Attempts(step.next, attempt + 1, maxRetries, enc, respond);
      assert trace + (step.events + rest.trace) == (trace + step.events) + rest.trace;
      trace := trace + step.events;
      if step.next != docs {
        docs := step.next;
        payload := Payload(docs, enc);
      }
      attempt := attempt + 1;
    }
    return Exhausted(|docs|), trace + [LossReported(|docs|)];
  }

  /** The POSTs of a trace, in order. */
  function Posts(trace: seq<Event>): seq<Event>
    decreases |trace|
  {
    if trace == [] then [] else (if trace[0].Post? then [trace[0]] else []) + Posts(trace[1..])
  }

  lemma {:induction false} PostsAppend(a: seq<Event>, b: seq<Event>)
    ensures Posts(a + b) == Posts(a) + Posts(b)
    decreases |a|
  {
    if a == [] {
      assert a + b == b;
    } else {
      assert (a + b)[1..] == a[1..] + b;
      PostsAppend(a[1..], b);
    }
  }

  /** The request body of a POST is that of the batch it sends. */
  predicate PostOf(e: Event, enc: Document -> string) {
    e.Post? && e.payload == Payload(e.batch, enc)
  }

  /** The reply to a POST of `docs` calls for a sleep: the request failed, or some documents erred. */
  predicate SleepCalled(docs: seq<Document>, reply: BulkReply) {
    || reply.TransportError?
    || (&& reply.BulkResponse? && reply.errors && reply.items.Some?
        && FailedDocs(docs, reply.items.value).Ok? && FailedDocs(docs, reply.items.value).value != [])
  }

  /** The working list after a POST of `docs` that did not end the push: the erring documents if any, else `docs`. */
  function NextBatch(docs: seq<Document>, reply: BulkReply): seq<Document> {
    if && reply.BulkResponse? && reply.errors && reply.items.Some?
       && FailedDocs(docs, reply.items.value).Ok? && FailedDocs(docs, reply.items.value).value != []
    then FailedDocs(docs, reply.items.value).value
    else docs
  }

  /**
   * An attempt contributes its POST, followed by a sleep exactly when the
   * reply calls for one; it ends the push exactly when the reply is clean or
   * raises, and otherwise goes on with the next working list.
   */
  lemma StepEvents(docs: seq<Document>, attempt: nat, payload: string, reply: BulkReply)
    ensures var st := Step(docs, attempt, payload, reply);
            && Posts(st.events) == [Post(attempt, docs, payload)]
            && |st.events| > 0 && st.events[0] == Post(attempt, docs, payload)
            && (st.Stop? ==> st.events == [Post(attempt, docs, payload)])
            && (st.Retry? ==> st.events == [Post(attempt, docs, payload)] || st.events == [Post(attempt, docs, payload), Sleep(attempt)])
            && (st.events == [Post(attempt, docs, payload), Sleep(attempt)] <==> SleepCalled(docs, reply))
            && (st.Stop? <==> reply.BulkResponse? && (!reply.errors || reply.items.None? || FailedDocs(docs, reply.items.value).Err?))
            && (st.Retry? ==> st.next == NextBatch(docs, reply))
  {
    var st := Step(docs, attempt, payload, reply);
    var post := Post(attempt, docs, payload);
    assert st.events == [post] || st.events == [post, Sleep(attempt)];
    assert Posts([Sleep(attempt)]) == [];
  }

  /**
   * The POSTs are numbered from `attempt` on, one per attempt, so there are at
   * most `max_retries` of them; each sends the body of its batch, and the
   * first sends the list the push was given.
   */
  lemma {:induction false} PostsNumbered(docs: seq<Document>, attempt: nat, maxRetries: int,
                                         enc: Document -> string, respond: (nat, string) -> BulkReply)
    ensures |Posts(Attempts(docs, attempt, maxRetries, enc, respond).trace)| <=
              (if attempt <= maxRetries then maxRetries - attempt + 1 else 0)
    ensures attempt <= maxRetries ==>
              |Posts(Attempts(docs, attempt, maxRetries, enc, respond).trace)| > 0 &&
              Posts(Attempts(docs, attempt, maxRetries, enc, respond).trace)[0].batch == docs
    ensures var ps := Posts(Attempts(docs, attempt, maxRetries, enc, respond).trace);
            forall k :: 0 <= k < |ps| ==> PostOf(ps[k], enc) && ps[k].attempt == attempt + k
    decreases maxRetries - attempt + 1
  {
    var run := Attempts(docs, attempt, maxRetries, enc, respond);
    if attempt > maxRetries {
      assert Posts(run.trace) == [];
    } else {
      var payload := Payload(docs, enc);
      var post := Post(attempt, docs, payload);
      var st := Step(docs, attempt, payload, respond(attempt, payload));
      StepEvents(docs, attempt, payload, respond(attempt, payload));
      if st.Stop? {
        assert run.trace == st.events;
      } else {
        var rest := Attempts(st.next, attempt + 1, maxRetries, enc, respond);
        assert run.trace == st.events + rest.trace;
        PostsNumbered(st.next, attempt + 1, maxRetries, enc, respond);
        PostsAppend(st.events, rest.trace);
        var ps := Posts(run.trace);
        assert ps == [post] + Posts(rest.trace);
        forall k | 0 < k < |ps|
          ensures PostOf(ps[k], enc) && ps[k].attempt == attempt + k
        {
          assert ps[k] == Posts(rest.trace)[k - 1];
        }
      }
    }
  }

  /**
   * How one POST leads to the next: after a transport failure, or a response
   * with errors but no erring item, the same batch is sent again; otherwise the
   * next batch is the documents whose items erred.
   */
  predicate RetryStep(p: Event, q: Event, respond: (nat, string) -> BulkReply)
    requires p.Post? && q.Post?
  {
    var reply := respond(p.attempt, p.payload);
    || (reply.TransportError? && q.batch == p.batch)
    || (&& reply.BulkResponse? && reply.errors && reply.items.Some?
        && FailedDocs(p.batch, reply.items.value).Ok?
        && q.batch == (if FailedDocs(p.batch, reply.items.value).value == [] then p.batch
                       else FailedDocs(p.batch, reply.items.value).value))
  }

  /** The `k`-th POST of `ps` is the retry the one before it calls for. */
  predicate RetryAt(ps: seq<Event>, k: nat, respond: (nat, string) -> BulkReply)
    requires 0 < k < |ps|
  {
    ps[k - 1].Post? && ps[k].Post? && RetryStep(ps[k - 1], ps[k], respond)
  }

  /** Every POST after the first is the retry its predecessor calls for. */
  lemma {:induction false} RetryBatches(docs: seq<Document>, attempt: nat, maxRetries: int,
                                        enc: Document -> string, respond: (nat, string) -> BulkReply)
    ensures var ps := Posts(Attempts(docs, attempt, maxRetries, enc, respond).trace);
            forall k :: 0 < k < |ps| ==> RetryAt(ps, k, respond)
    decreases maxRetries - attempt + 1
  {
    var run := Attempts(docs, attempt, maxRetries, enc, respond);
    if attempt > maxRetries {
      assert Posts(run.trace) == [];
    } else {
      var payload := Payload(docs, enc);
      var post := Post(attempt, docs, payload);
      var st := Step(docs, attempt, payload, respond(attempt, payload));
      StepEvents(docs, attempt, payload, respond(attempt, payload));
      if st.Stop? {
        assert run.trace == st.events;
      } else {
        var rest := Attempts(st.next, attempt + 1, maxRetries, enc, respond);
        assert run.trace == st.events + rest.trace;
        RetryBatches(st.next, attempt + 1, maxRetries, enc, respond);
        PostsNumbered(st.next, attempt + 1, maxRetries, enc, respond);
        PostsAppend(st.events, rest.trace);
        var ps := Posts(run.trace);
        var rs := Posts(rest.trace);
        assert ps == [post] + rs;
        forall k | 0 < k < |ps|
          ensures RetryAt(ps, k, respond)
        {
          if k == 1 {
            assert ps[1] == rs[0];
            assert rs[0].batch == st.next;
          } else {
            assert ps[k - 1] == rs[k - 2] && ps[k] == rs[k - 1];
            assert RetryAt(rs, k - 1, respond);
          }
        }
      }
    }
  }

  /** Event `i` of `t` is a sleep that follows a POST, for as many seconds as that POST's attempt number. */
  predicate SleepAfterPost(t: seq<Event>, i: nat)
    requires i < |t| && t[i].Sleep?
  {
    i > 0 && t[i - 1].Post? && t[i].seconds == t[i - 1].attempt
  }

  /** The trace opens with a POST (or, with no attempts at all, the loss report) and every sleep follows a POST. */
  lemma {:induction false} SleepsFollowPosts(docs: seq<Document>, attempt: nat, maxRetries: int,
                                             enc: Document -> string, respond: (nat, string) -> BulkReply)
    ensures var t := Attempts(docs, attempt, maxRetries, enc, respond).trace;
            && |t| > 0
            && (attempt <= maxRetries ==> t[0].Post? && t[0].attempt == attempt)
            && (attempt > maxRetries ==> t == [LossReported(|docs|)])
            && forall i :: 0 <= i < |t| && t[i].Sleep? ==> SleepAfterPost(t, i)
    decreases maxRetries - attempt + 1
  {
    var run := Attempts(docs, attempt, maxRetries, enc, respond);
    if attempt <= maxRetries {
      var payload := Payload(docs, enc);
      var st := Step(docs, attempt, payload, respond(attempt, payload));
      StepEvents(docs, attempt, payload, respond(attempt, payload));
      if st.Retry? {
        var rest := Attempts(st.next, attempt + 1, maxRetries, enc, respond);
        assert run.trace == st.events + rest.trace;
        SleepsFollowPosts(st.next, attempt + 1, maxRetries, enc, respond);
        var t := run.trace;
        var e := |st.events|;
        forall i | 0 <= i < |t| && t[i].Sleep?
          ensures SleepAfterPost(t, i)
        {
          if i >= e {
            assert t[i] == rest.trace[i - e];
            assert SleepAfterPost(rest.trace, i - e);
            assert t[i - 1] == rest.trace[i - e - 1];
          }
        }
      }
    }
  }

  /** Every sleep of `t` lasts from `lo` to `hi` seconds. */
  predicate SleepsWithin(t: seq<Event>, lo: int, hi: int) {
    forall i :: 0 <= i < |t| && t[i].Sleep? ==> lo <= t[i].seconds <= hi
  }

  /** Each sleep of `t` is longer than the ones before it. */
  predicate SleepsAscending(t: seq<Event>) {
    forall i, j :: 0 <= i < j < |t| && t[i].Sleep? && t[j].Sleep? ==> t[i].seconds < t[j].seconds
  }

  /** The sleeps last `attempt` to `max_retries` seconds and grow strictly along the trace. */
  lemma {:induction false} SleepsIncrease(docs: seq<Document>, attempt: nat, maxRetries: int,
                                          enc: Document -> string, respond: (nat, string) -> BulkReply)
    ensures SleepsWithin(Attempts(docs, attempt, maxRetries, enc, respond).trace, attempt, maxRetries)
    ensures SleepsAscending(Attempts(docs, attempt, maxRetries, enc, respond).trace)
    decreases maxRetries - attempt + 1
  {
    var run := Attempts(docs, attempt, maxRetries, enc, respond);
    if attempt <= maxRetries {
      var payload := Payload(docs, enc);
      var st := Step(docs, attempt, payload, respond(attempt, payload));
      StepEvents(docs, attempt, payload, respond(attempt, payload));
      if st.Retry? {
        var rest := Attempts(st.next, attempt + 1, maxRetries, enc, respond);
        assert run.trace == st.events + rest.trace;
        SleepsIncrease(st.next, attempt + 1, maxRetries, enc, respond);
        var t := run.trace;
        var e := |st.events|;
        forall i | 0 <= i < |t| && t[i].Sleep?
          ensures attempt <= t[i].seconds <= maxRetries
        {
          if i >= e {
            assert t[i] == rest.trace[i - e];
          } else {
            assert t[i] == st.events[i];
          }
        }
        forall i, j | 0 <= i < j < |t| && t[i].Sleep? && t[j].Sleep?
          ensures t[i].seconds < t[j].seconds
        {
          if i >= e {
            assert t[i] == rest.trace[i - e] && t[j] == rest.trace[j - e];
          } else {
            assert t[i] == st.events[i];
            assert i == 1 && e == 2;
            assert t[j] == rest.trace[j - e];
          }
        }
      }
    }
  }

  /** A retry list is never longer than the list it came from, nor than the list of items. */
  lemma {:induction false} FailedDocsBound(docs: seq<Document>, itemFailed: seq<bool>)
    requires FailedDocs(docs, itemFailed).Ok?
    ensures |FailedDocs(docs, itemFailed).value| <= |docs|
    ensures |FailedDocs(docs, itemFailed).value| <= |itemFailed|
    decreases |itemFailed|
  {
    if itemFailed != [] {
      FailedDocsBound(docs, itemFailed[..|itemFailed| - 1]);
    }
  }

  /**
   * The loss is reported once, as the last event, exactly when the attempts
   * ran out; the count is the size of the last working list, at most the
   * size of the list the push was given and zero only when that list is empty.
   */
  lemma {:induction false} LossOnce(docs: seq<Document>, attempt: nat, maxRetries: int,
                                    enc: Document -> string, respond: (nat, string) -> BulkReply)
    ensures var run := Attempts(docs, attempt, maxRetries, enc, respond);
            && |run.trace| > 0
            && (forall i :: 0 <= i < |run.trace| - 1 ==> !run.trace[i].LossReported?)
            && (run.outcome.Exhausted? <==> run.trace[|run.trace| - 1].LossReported?)
            && (run.outcome.Exhausted? ==>
                  && run.trace[|run.trace| - 1] == LossReported(run.outcome.lost)
                  && run.outcome.lost <= |docs|
                  && (run.outcome.lost == 0 <==> docs == []))
    decreases maxRetries - attempt + 1
  {
    var run := Attempts(docs, attempt, maxRetries, enc, respond);
    if attempt <= maxRetries {
      var payload := Payload(docs, enc);
      var reply := respond(attempt, payload);
      var st := Step(docs, attempt, payload, reply);
      StepEvents(docs, attempt, payload, reply);
      if st.Retry? {
        var rest := Attempts(st.next, attempt + 1, maxRetries, enc, respond);
        assert run.trace == st.events + rest.trace;
        LossOnce(st.next, attempt + 1, maxRetries, enc, respond);
        assert run.trace[|run.trace| - 1] == rest.trace[|rest.trace| - 1];
        forall i | 0 <= i < |run.trace| - 1
          ensures !run.trace[i].LossReported?
        {
          if i >= |st.events| {
            assert run.trace[i] == rest.trace[i - |st.events|];
          }
        }
        if st.next != docs {
          assert reply.BulkResponse? && reply.items.Some?;
          FailedDocsBound(docs, reply.items.value);
        }
      }
    }
  }

  /**
   * Why the push ended: a clean response to its last POST; a response with
   * errors whose items are missing or point past the batch; or every attempt
   * was used.
   */
  lemma {:induction false} OutcomeCause(docs: seq<Document>, attempt: nat, maxRetries: int,
                                        enc: Document -> string, respond: (nat, string) -> BulkReply)
    ensures var run := Attempts(docs, attempt, maxRetries, enc, respond);
            var last := run.trace[|run.trace| - 1];
            && |run.trace| > 0
            && (!run.outcome.Exhausted? ==> last.Post?)
            && (run.outcome == Indexed ==>
                  var reply := respond(last.attempt, last.payload);
                  reply.BulkResponse? && !reply.errors)
            && (run.outcome == Raised(ItemsMissing) ==>
                  respond(last.attempt, last.payload) == BulkResponse(true, None))
            && (run.outcome.Raised? && run.outcome.error.DocumentIndexOutOfRange? ==>
                  var reply := respond(last.attempt, last.payload);
                  && reply.BulkResponse? && reply.errors && reply.items.Some?
                  && FailedDocs(last.batch, reply.items.value) == Err(run.outcome.error))
            && (run.outcome.Exhausted? ==>
                  |Posts(run.trace)| == (if attempt <= maxRetries then maxRetries - attempt + 1 else 0))
    decreases maxRetries - attempt + 1
  {
    var run := Attempts(docs, attempt, maxRetries, enc, respond);
    if attempt > maxRetries {
      assert Posts(run.trace) == [];
    } else {
      var payload := Payload(docs, enc);
      var reply := respond(attempt, payload);
      var st := Step(docs, attempt, payload, reply);
      StepEvents(docs, attempt, payload, reply);
      if reply.BulkResponse? && reply.items.Some? && FailedDocs(docs, reply.items.value).Err? {
        FailedDocsRaises(docs, reply.items.value);
      }
      if st.Retry? {
        var rest := Attempts(st.next, attempt + 1, maxRetries, enc, respond);
        assert run.trace == st.events + rest.trace;
        OutcomeCause(st.next, attempt + 1, maxRetries, enc, respond);
        assert run.trace[|run.trace| - 1] == rest.trace[|rest.trace| - 1];
        PostsAppend(st.events, rest.trace);
      }
    }
  }

  /**
   * A response that reports errors but marks no item as erring changes
   * nothing: every remaining attempt re-sends the same batch at once, with no
   * sleep, and the whole batch is reported lost.
   */
  lemma {:induction false} ErrorsWithoutItemsLoseBatch(docs: seq<Document>, attempt: nat, maxRetries: int,
                                                       enc: Document -> string, respond: (nat, string) -> BulkReply)
    requires forall a: nat :: attempt <= a <= maxRetries ==>
               && respond(a, Payload(docs, enc)).BulkResponse?
               && respond(a, Payload(docs, enc)).errors
               && respond(a, Payload(docs, enc)).items.Some?
               && forall j :: 0 <= j < |respond(a, Payload(docs, enc)).items.value| ==>
                    !respond(a, Payload(docs, enc)).items.value[j]
    ensures Attempts(docs, attempt, maxRetries, enc, respond).outcome == Exhausted(|docs|)
    ensures forall e :: e in Attempts(docs, attempt, maxRetries, enc, respond).trace ==>
              !e.Sleep? && (e.Post? ==> e.batch == docs)
    decreases maxRetries - attempt + 1
  {
    if attempt <= maxRetries {
      var payload := Payload(docs, enc);
      var reply := respond(attempt, payload);
      NoErringItem(docs, reply.items.value);
      var post := Post(attempt, docs, payload);
      assert Step(docs, attempt, payload, reply) == Retry([post], docs);
      var rest := Attempts(docs, attempt + 1, maxRetries, enc, respond);
      assert Attempts(docs, attempt, maxRetries, enc, respond) == Prepend([post], rest);
      ErrorsWithoutItemsLoseBatch(docs, attempt + 1, maxRetries, enc, respond);
    }
  }

  /** With no item marked as erring, the retry list is empty. */
  lemma {:induction false} NoErringItem(docs: seq<Document>, itemFailed: seq<bool>)
    requires forall j :: 0 <= j < |itemFailed| ==> !itemFailed[j]
    ensures FailedDocs(docs, itemFailed) == Ok([])
    decreases |itemFailed|
  {
    if itemFailed != [] {
      var n := |itemFailed| - 1;
      assert forall j :: 0 <= j < n ==> itemFailed[..n][j] == itemFailed[j];
      NoErringItem(docs, itemFailed[..n]);
    }
  }

  /** The reply to a POST in `t` at `i` calls for a sleep exactly when a sleep of its attempt number follows it. */
  predicate SleepFollows(t: seq<Event>, i: nat, respond: (nat, string) -> BulkReply)
    requires i < |t| && t[i].Post?
  {
    (i + 1 < |t| && t[i + 1] == Sleep(t[i].attempt)) <==> SleepCalled(t[i].batch, respond(t[i].attempt, t[i].payload))
  }

  predicate AllSleepsFollow(t: seq<Event>, respond: (nat, string) -> BulkReply) {
    forall i :: 0 <= i < |t| && t[i].Post? ==> SleepFollows(t, i, respond)
  }

  /**
   * A POST is followed by `Sleep(attempt)` exactly when its request failed or
   * its response named erring documents; after any other reply the next
   * event is not a sleep.
   */
  lemma {:induction false} SleepIffCalled(docs: seq<Document>, attempt: nat, maxRetries: int,
                                          enc: Document -> string, respond: (nat, string) -> BulkReply)
    ensures AllSleepsFollow(Attempts(docs, attempt, maxRetries, enc, respond).trace, respond)
    decreases maxRetries - attempt + 1
  {
    var t := Attempts(docs, attempt, maxRetries, enc, respond).trace;
    if attempt <= maxRetries {
      var payload := Payload(docs, enc);
      var reply := respond(attempt, payload);
      var st := Step(docs, attempt, payload, reply);
      StepEvents(docs, attempt, payload, reply);
      if st.Stop? {
        assert t == st.events;
      } else {
        var rest := Attempts(st.next, attempt + 1, maxRetries, enc, respond).trace;
        assert t == st.events + rest;
        SleepIffCalled(st.next, attempt + 1, maxRetries, enc, respond);
        SleepsFollowPosts(st.next, attempt + 1, maxRetries, enc, respond);
        var e := |st.events|;
        forall i | 0 <= i < |t| && t[i].Post?
          ensures SleepFollows(t, i, respond)
        {
          if i >= e {
            assert t[i] == rest[i - e];
            assert SleepFollows(rest, i - e, respond);
            if i + 1 < |t| {
              assert t[i + 1] == rest[i - e + 1];
            }
          } else if i == 0 && e == 1 {
            assert t[1] == rest[0];
          }
        }
      }
    }
  }

  /** The POST at `i` of `t` was answered without errors. */
  predicate CleanAt(t: seq<Event>, i: nat, respond: (nat, string) -> BulkReply)
    requires i < |t|
  {
    t[i].Post? && respond(t[i].attempt, t[i].payload).BulkResponse? && !respond(t[i].attempt, t[i].payload).errors
  }

  /** A clean reply is the last event and ends the push as indexed. */
  predicate CleanEnds(run: PushRun, respond: (nat, string) -> BulkReply) {
    forall i :: 0 <= i < |run.trace| && CleanAt(run.trace, i, respond) ==> i == |run.trace| - 1 && run.outcome == Indexed
  }

  predicate NoLossReport(t: seq<Event>) {
    forall j :: 0 <= j < |t| ==> !t[j].LossReported?
  }

  /**
   * A response without errors breaks out of the loop: that POST is the last
   * event, the push ends as indexed, and an indexed push reports no loss.
   */
  lemma {:induction false} CleanReplyIndexes(docs: seq<Document>, attempt: nat, maxRetries: int,
                                             enc: Document -> string, respond: (nat, string) -> BulkReply)
    ensures CleanEnds(Attempts(docs, attempt, maxRetries, enc, respond), respond)
    ensures Attempts(docs, attempt, maxRetries, enc, respond).outcome == Indexed ==>
              NoLossReport(Attempts(docs, attempt, maxRetries, enc, respond).trace)
    decreases maxRetries - attempt + 1
  {
    var run := Attempts(docs, attempt, maxRetries, enc, respond);
    var t := run.trace;
    if attempt <= maxRetries {
      var payload := Payload(docs, enc);
      var reply := respond(attempt, payload);
      var st := Step(docs, attempt, payload, reply);
      StepEvents(docs, attempt, payload, reply);
      if st.Stop? {
        assert t == st.events;
      } else {
        var rest := Attempts(st.next, attempt + 1, maxRetries, enc, respond);
        assert t == st.events + rest.trace;
        CleanReplyIndexes(st.next, attempt + 1, maxRetries, enc, respond);
        var e := |st.events|;
        forall i | 0 <= i < |t| && CleanAt(t, i, respond)
          ensures i == |t| - 1 && run.outcome == Indexed
        {
          if i >= e {
            assert t[i] == rest.trace[i - e];
            assert CleanAt(rest.trace, i - e, respond);
          }
        }
        if run.outcome == Indexed {
          forall j | 0 <= j < |t|
            ensures !t[j].LossReported?
          {
            if j >= e {
              assert t[j] == rest.trace[j - e];
            } else {
              assert t[j] == st.events[j];
            }
          }
        }
      }
    }
  }

  /**
   * When the attempts run out, the count reported lost is the size of the
   * working list the last POST's reply left: its erring documents, or the
   * same batch (the list given, if nothing was POSTed).
   */
  predicate LossIsWorkingList(run: PushRun, docs: seq<Document>, respond: (nat, string) -> BulkReply) {
    run.outcome.Exhausted? ==>
      var ps := Posts(run.trace);
      if ps == [] then run.outcome.lost == |docs|
      else
        var last := ps[|ps| - 1];
        last.Post? && run.outcome.lost == |NextBatch(last.batch, respond(last.attempt, last.payload))|
  }

  lemma {:induction false} LossIsLastWorkingList(docs: seq<Document>, attempt: nat, maxRetries: int,
                                                 enc: Document -> string, respond: (nat, string) -> BulkReply)
    ensures LossIsWorkingList(Attempts(docs, attempt, maxRetries, enc, respond), docs, respond)
    decreases maxRetries - attempt + 1
  {
    var run := Attempts(docs, attempt, maxRetries, enc, respond);
    if attempt > maxRetries {
      assert Posts(run.trace) == [];
    } else {
      var payload := Payload(docs, enc);
      var reply := respond(attempt, payload);
      var post := Post(attempt, docs, payload);
      var st := Step(docs, attempt, payload, reply);
      StepEvents(docs, attempt, payload, reply);
      if st.Retry? {
        var rest := Attempts(st.next, attempt + 1, maxRetries, enc, respond);
        assert run.trace == st.events + rest.trace;
        LossIsLastWorkingList(st.next, attempt + 1, maxRetries, enc, respond);
        PostsAppend(st.events, rest.trace);
        var ps := Posts(run.trace);
        var rs := Posts(rest.trace);
        assert ps == [post] + rs;
        if rs != [] {
          assert ps[|ps| - 1] == rs[|rs| - 1];
        }
      }
    }
  }
}

/** Values shared by every stage of one pruning run: the error a rejected
    promise carries, the HTTP requests the client issues, the cluster's
    answers, and the trace of observable events (credential resolution,
    requests sent, log lines). */
module Types {

  datatype Option<+T> = None | Some(value: T)

  /** The reason a promise of the run was rejected. The run never looks
      inside an error; it only passes it on to the entrypoint. */
  datatype Error =
    | Rejected(message: string)   // credential chain, transport, non-2xx status
    | MissingMetadata              // the cluster-state reply has no `metadata` object to read `indices` from

  datatype Result<+T> = Success(value: T) | Failure(err: Error)

  datatype Credentials = Credentials(accessKeyId: string, secretAccessKey: string, sessionToken: Option<string>)

  datatype Method = GET | DELETE

  /** A request as the client is asked to send it: a method and a path
      relative to the configured Elasticsearch base URL. */
  datatype Request = Request(verb: Method, path: string)

  const MetadataRequest: Request := Request(GET, "/_cluster/state/metadata")

  /** The request that deletes one index. */
  function DeleteRequest(index: string): Request {
    Request(DELETE, "/" + index)
  }

  /** What the cluster answers to one DELETE: `acknowledged` truthy, a
      body whose `acknowledged` is false or absent (a JSON object without
      it, or a body that is not JSON and is kept as a string), or a
      rejected call. */
  datatype Reply = Ack | NoAck | Fail(err: Error)

  datatype LogLine =
    | RegionNotSet
    | UrlNotSet
    | Deleting(index: string)
    | Acknowledged(index: string)
    | NotAcknowledged(index: string)
    | DeleteFailed(index: string, err: Error)
    | Fatal(err: Error)
  {
    /** True of the line that reports how one DELETE ended. */
    predicate IsVerdict() {
      Acknowledged? || NotAcknowledged? || DeleteFailed?
    }
  }

  datatype Event = ResolveCredentials | Send(req: Request) | Log(line: LogLine)

  /** How a pruning run ends: with the list of index names it processed, or
      with the error that rejected it. */
  datatype Outcome = Ok(names: seq<string>) | Err(err: Error)

  /** The requests a trace sends, in order. */
  function Sent(trace: seq<Event>): (reqs: seq<Request>)
    ensures |reqs| <= |trace|
    ensures forall r :: r in reqs <==> Send(r) in trace
  {
    if trace == [] then []
    else (if trace[0].Send? then [trace[0].req] else []) + Sent(trace[1..])
  }

  lemma {:induction false} SentAppend(a: seq<Event>, b: seq<Event>)
    ensures Sent(a + b) == Sent(a) + Sent(b)
  {
    if a == [] {
      assert a + b == b;
    } else {
      assert (a + b)[1..] == a[1..] + b;
      SentAppend(a[1..], b);
    }
  }

  /** True when the trace neither consults the credential chain nor sends
      a request. */
  predicate NoNetwork(trace: seq<Event>) {
    forall i :: 0 <= i < |trace| ==> trace[i].Log?
  }
}

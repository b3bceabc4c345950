/** One pruning run: resolve credentials, fetch the cluster metadata, keep
    the index names the filter accepts, delete them one at a time, and
    resolve with the selected names (or reject with the first error). */
module Pruner {
  import opened Types
  import opened Selection
  import opened Deletion

  /** The part of the `GET /_cluster/state/metadata` reply the run reads:
      the body may lack the `metadata` object (a body that is not JSON is
      kept as a string, which lacks it too), and the object may lack its
      `indices` map (whose key order is the given sequence). */
  datatype ClusterState = NoMetadata | Metadata(indices: Option<seq<string>>)

  /** What the outside world answers during one run: the credential
      chain, the metadata fetch, and the i-th DELETE's reply at position i. */
  datatype World = World(
    credentials: Result<Credentials>,
    clusterState: Result<ClusterState>,
    deleteReplies: seq<Reply>)

  /** The index names of a cluster-state reply. Reading `indices` of a
      missing `metadata` object throws; a missing `indices` map is an
      empty one to the selection. */
  function IndexNames(cs: ClusterState): (r: Result<seq<string>>)
    ensures r.Failure? <==> cs.NoMetadata?
    ensures r.Success? && cs.indices.Some? ==> r.value == cs.indices.value
    ensures r.Success? && cs.indices.None? ==> r.value == []
  {
    match cs
    case NoMetadata => Failure(MissingMetadata)
    case Metadata(None) => Success([])
    case Metadata(Some(names)) => Success(names)
  }

  /** The names the run would delete, when it gets as far as selecting. */
  function Targets(world: World, accept: string -> bool): Option<seq<string>> {
    if world.credentials.Success? && world.clusterState.Success? && IndexNames(world.clusterState.value).Success?
    then Some(Select(IndexNames(world.clusterState.value).value, accept))
    else None
  }

  /** The reply oracle answers every DELETE the run could send. */
  predicate Covers(world: World, accept: string -> bool) {
    Targets(world, accept).Some? ==> |Targets(world, accept).value| <= |world.deleteReplies|
  }

  datatype Run = Run(trace: seq<Event>, outcome: Outcome)

  /** The run's promise chain with the network replaced by `world`. */
  function Prune(world: World, accept: string -> bool): (run: Run)
    requires Covers(world, accept)
    ensures Targets(world, accept).None? ==> run.outcome.Err? && Sent(run.trace) <= [MetadataRequest]
    ensures world.credentials.Failure? ==> run.outcome == Err(world.credentials.err)
    ensures world.credentials.Success? && world.clusterState.Failure? ==>
              run.outcome == Err(world.clusterState.err)
    ensures world.credentials.Success? && world.clusterState == Success(NoMetadata) ==>
              run.outcome == Err(MissingMetadata)
    ensures Targets(world, accept).Some? ==>
              var targets := Targets(world, accept).value;
              var f := FirstFailure(world.deleteReplies[..|targets|]);
              run.outcome == (if f == |targets| then Ok(targets) else Err(world.deleteReplies[f].err))
    ensures run.outcome.Ok? ==> run.outcome.names == Targets(world, accept).value
    ensures |run.trace| > 0 && run.trace[0] == ResolveCredentials
  {
    match world.credentials
    case Failure(e) => Run([ResolveCredentials], Err(e))
    case Success(_) =>
      var fetch := [ResolveCredentials, Send(MetadataRequest)];
      assert Sent(fetch) == [MetadataRequest] by {
        assert fetch[1..][1..] == [];
      }
      match world.clusterState
      case Failure(e) => Run(fetch, Err(e))
      case Success(cs) =>
        match IndexNames(cs)
        case Failure(e) => Run(fetch, Err(e))
        case Success(names) =>
          var targets := Select(names, accept);
          var loop := DeleteAll(targets, world.deleteReplies);
          Run(fetch + loop.trace, if loop.failure.None? then Ok(targets) else Err(loop.failure.value))
  }

  /** The requests of a run: the metadata GET once credentials resolved,
      then the DELETEs of the selected names in selection order, up to and
      including the first that fails. Before credentials resolve nothing is
      sent. */
  lemma PruneSends(world: World, accept: string -> bool)
    requires Covers(world, accept)
    ensures world.credentials.Failure? ==> Sent(Prune(world, accept).trace) == []
    ensures world.credentials.Success? ==> |Sent(Prune(world, accept).trace)| > 0 && Sent(Prune(world, accept).trace)[0] == MetadataRequest
    ensures Targets(world, accept).Some? ==>
              var targets := Targets(world, accept).value;
              Sent(Prune(world, accept).trace) == [MetadataRequest] + DeleteRequests(targets[..Issued(targets, world.deleteReplies)])
  {
    var run := Prune(world, accept);
    if world.credentials.Failure? {
      assert run.trace == [ResolveCredentials];
    } else {
      var fetch := [ResolveCredentials, Send(MetadataRequest)];
      assert Sent(fetch) == [MetadataRequest] by {
        assert fetch[1..][1..] == [];
      }
      if Targets(world, accept).Some? {
        var targets := Targets(world, accept).value;
        var loop := DeleteAll(targets, world.deleteReplies);
        assert run.trace == fetch + loop.trace;
        SentAppend(fetch, loop.trace);
        DeleteAllSends(targets, world.deleteReplies);
      } else {
        assert run.trace == fetch;
      }
    }
  }

  /** No DELETE is ever sent for a name the filter rejects; with the
      entrypoint's filter, `.kibana` is never deleted. */
  lemma PruneOnlyDeletesAccepted(world: World, accept: string -> bool, name: string)
    requires Covers(world, accept)
    requires DeleteRequest(name) in Sent(Prune(world, accept).trace)
    ensures accept(name)
    ensures Targets(world, accept).Some? && name in Targets(world, accept).value
  {
    PruneSends(world, accept);
    if Targets(world, accept).Some? {
      var targets := Targets(world, accept).value;
      var deletes := DeleteRequests(targets[..Issued(targets, world.deleteReplies)]);
      assert DeleteRequest(name) in [MetadataRequest] + deletes;
      assert DeleteRequest(name) in deletes;
      DeletedNamesAreTargets(targets, Issued(targets, world.deleteReplies), name);
    }
  }

  lemma DeletedNamesAreTargets(targets: seq<string>, n: nat, name: string)
    requires n <= |targets|
    requires DeleteRequest(name) in DeleteRequests(targets[..n])
    ensures name in targets
  {
    var deletes := DeleteRequests(targets[..n]);
    var i :| 0 <= i < |deletes| && deletes[i] == DeleteRequest(name);
    DeleteRequestInjective(name, targets[i]);
  }

  lemma DeleteRequestInjective(a: string, b: string)
    requires DeleteRequest(a) == DeleteRequest(b)
    ensures a == b
  {
    assert ("/" + a)[1..] == a;
    assert ("/" + b)[1..] == b;
  }

  /** Deletions never overlap anywhere in a run. */
  lemma PruneIsSerial(world: World, accept: string -> bool)
    requires Covers(world, accept)
    ensures Serial(Prune(world, accept).trace)
    ensures InFlight(Prune(world, accept).trace) == 0
  {
    var run := Prune(world, accept);
    var fetch := [ResolveCredentials, Send(MetadataRequest)];
    QuietIsSerial(fetch);
    assert fetch[..|fetch|] == fetch;
    if world.credentials.Failure? {
      QuietIsSerial(run.trace);
      assert run.trace[..|run.trace|] == run.trace;
    } else if Targets(world, accept).Some? {
      var targets := Targets(world, accept).value;
      var loop := DeleteAll(targets, world.deleteReplies);
      DeleteAllIsSerial(targets, world.deleteReplies);
      SerialAppend(fetch, loop.trace);
      InFlightAppend(fetch, loop.trace);
    }
  }
}

/** The script's top level: check `AWS_REGION`, then `ELASTICSEARCH_URL`,
    run the pruner with the filter that protects `.kibana`, and map the
    result to the process exit status. */
module Entrypoint {
  import opened Types
  import opened Selection
  import opened Deletion
  import opened Pruner

  /** The two environment variables the script reads. */
  datatype Env = Env(awsRegion: Option<string>, elasticsearchUrl: Option<string>)

  /** An environment value passes the script's `if (!value)` check only
      when it is present and not the empty string. */
  predicate IsSet(v: Option<string>) {
    v.Some? && v.value != ""
  }

  predicate Configured(env: Env) {
    IsSet(env.awsRegion) && IsSet(env.elasticsearchUrl)
  }

  const ExitOk: int := 0
  const ExitNoRegion: int := 1
  const ExitNoUrl: int := 2
  const ExitRunFailed: int := 100

  /** How the process ends: what it did, and its exit status. */
  datatype Termination = Termination(trace: seq<Event>, code: int)

  /** The exit status of a finished pruning run. */
  function ExitCode(outcome: Outcome): (code: int)
    ensures code == ExitOk <==> outcome.Ok?
    ensures code == ExitRunFailed <==> outcome.Err?
  {
    match outcome
    case Ok(_) => ExitOk
    case Err(_) => ExitRunFailed
  }

  /** The whole script. A missing region is reported first, even when the
      URL is missing too; neither configuration error touches the network. */
  function Script(env: Env, world: World): (t: Termination)
    requires Configured(env) ==> Covers(world, KeepIndex)
    ensures t.code in {ExitOk, ExitNoRegion, ExitNoUrl, ExitRunFailed}
    ensures t.code == ExitNoRegion <==> !IsSet(env.awsRegion)
    ensures t.code == ExitNoUrl <==> IsSet(env.awsRegion) && !IsSet(env.elasticsearchUrl)
    ensures t.code in {ExitNoRegion, ExitNoUrl} ==> NoNetwork(t.trace)
    ensures Configured(env) ==> (t.code == ExitOk <==> Prune(world, KeepIndex).outcome.Ok?)
    ensures Configured(env) ==> (t.code == ExitRunFailed <==> Prune(world, KeepIndex).outcome.Err?)
    ensures Configured(env) && Prune(world, KeepIndex).outcome.Err? ==>
              |t.trace| > 0 && t.trace[|t.trace| - 1] == Log(Fatal(Prune(world, KeepIndex).outcome.err))
    ensures Configured(env) && Prune(world, KeepIndex).outcome.Ok? ==> t.trace == Prune(world, KeepIndex).trace
  {
    if !IsSet(env.awsRegion) then Termination([Log(RegionNotSet)], ExitNoRegion)
    else if !IsSet(env.elasticsearchUrl) then Termination([Log(UrlNotSet)], ExitNoUrl)
    else
      var run := Prune(world, KeepIndex);
      var report := match run.outcome
        case Ok(_) => []
        case Err(e) => [Log(Fatal(e))];
      Termination(run.trace + report, ExitCode(run.outcome))
  }

  /** The requests the script sends are the pruning run's, and the
      reserved index is never deleted whatever the cluster reports. */
  lemma ScriptSends(env: Env, world: World)
    requires Configured(env) ==> Covers(world, KeepIndex)
    ensures Configured(env) ==> Sent(Script(env, world).trace) == Sent(Prune(world, KeepIndex).trace)
    ensures DeleteRequest(Reserved) !in Sent(Script(env, world).trace)
  {
    var t := Script(env, world);
    if Configured(env) {
      var run := Prune(world, KeepIndex);
      var report := t.trace[|run.trace|..];
      assert t.trace == run.trace + report;
      SentAppend(run.trace, report);
      assert Sent(report) == [] by {
        if report != [] {
          assert report[1..] == [];
        }
      }
      assert Sent(t.trace) == Sent(run.trace);
      if DeleteRequest(Reserved) in Sent(run.trace) {
        PruneOnlyDeletesAccepted(world, KeepIndex, Reserved);
      }
    } else {
      assert |t.trace| == 1 && t.trace[0].Log?;
      assert t.trace[1..] == [];
    }
  }

  /** Every DELETE the script sends has been answered when the process
      exits, and no two were ever in flight together. */
  lemma ScriptIsSerial(env: Env, world: World)
    requires Configured(env) ==> Covers(world, KeepIndex)
    ensures Serial(Script(env, world).trace)
  {
    var t := Script(env, world);
    if Configured(env) {
      var run := Prune(world, KeepIndex);
      var report := t.trace[|run.trace|..];
      assert t.trace == run.trace + report;
      PruneIsSerial(world, KeepIndex);
      QuietIsSerial(report);
      SerialAppend(run.trace, report);
    } else {
      QuietIsSerial(t.trace);
    }
  }

  /** When the filter keeps no index, the run still succeeds: the only
      request is the metadata GET, and the exit status is 0. */
  lemma NothingToDelete(env: Env, world: World)
    requires Configured(env)
    requires Targets(world, KeepIndex) == Some([])
    ensures Script(env, world).code == ExitOk
    ensures Sent(Script(env, world).trace) == [MetadataRequest]
  {
    PruneSends(world, KeepIndex);
    ScriptSends(env, world);
    assert DeleteRequests([]) == [];
    assert world.deleteReplies[..0] == [];
  }

  // ---------------------------------------------------------------------
  // End-to-end scenarios: the reserved index followed by two others (two
  // daily log indices, say), with the first DELETE acknowledged, not
  // acknowledged, or rejected

  function ScenarioWorld(a: string, b: string, replies: seq<Reply>): World {
    World(Success(Credentials("id", "secret", None)), Success(Metadata(Some([Reserved, a, b]))), replies)
  }

  /** The two other indices of a scenario are selected, in order. */
  lemma ScenarioTargets(a: string, b: string, replies: seq<Reply>)
    requires a != Reserved && b != Reserved
    ensures Targets(ScenarioWorld(a, b, replies), KeepIndex) == Some([a, b])
  {
    var names := [Reserved, a, b];
    assert Select([b], KeepIndex) == [b] by {
      assert [b][1..] == [];
    }
    assert Select([a, b], KeepIndex) == [a, b] by {
      assert [a, b][1..] == [b];
    }
    assert Select(names, KeepIndex) == [a, b] by {
      assert names[1..] == [a, b];
    }
  }

  /** A scenario's run succeeds exactly when no DELETE is rejected. */
  lemma ScenarioRun(a: string, b: string, replies: seq<Reply>)
    requires a != Reserved && b != Reserved && |replies| == 2
    ensures Targets(ScenarioWorld(a, b, replies), KeepIndex) == Some([a, b])
    ensures Prune(ScenarioWorld(a, b, replies), KeepIndex).outcome.Ok? <==> FirstFailure(replies) == 2
  {
    ScenarioTargets(a, b, replies);
    assert replies[..2] == replies;
    var f := FirstFailure(replies);
    var run := Prune(ScenarioWorld(a, b, replies), KeepIndex);
    assert run.outcome == (if f == 2 then Ok([a, b]) else Err(replies[f].err));
  }

  /** The script's requests in a scenario are the metadata GET and the
      DELETEs of the first `Issued` of the two other indices. */
  lemma ScenarioSends(env: Env, a: string, b: string, replies: seq<Reply>)
    requires Configured(env) && a != Reserved && b != Reserved && |replies| == 2
    ensures Sent(Script(env, ScenarioWorld(a, b, replies)).trace)
              == [MetadataRequest] + DeleteRequests([a, b][..Issued([a, b], replies)])
    ensures Script(env, ScenarioWorld(a, b, replies)).code == ExitOk <==> FirstFailure(replies) == 2
  {
    var world := ScenarioWorld(a, b, replies);
    ScenarioRun(a, b, replies);
    ScriptSends(env, world);
    PruneSends(world, KeepIndex);
  }

  /** Both DELETEs acknowledged: both are sent in order and the exit status is 0. */
  lemma ScenarioAllAcknowledged(env: Env, a: string, b: string)
    requires Configured(env) && a != Reserved && b != Reserved
    ensures Script(env, ScenarioWorld(a, b, [Ack, Ack])).code == ExitOk
    ensures Sent(Script(env, ScenarioWorld(a, b, [Ack, Ack])).trace)
              == [MetadataRequest, DeleteRequest(a), DeleteRequest(b)]
  {
    var replies := [Ack, Ack];
    assert replies[..2] == replies;
    assert FirstFailure(replies) == 2;
    assert Issued([a, b], replies) == 2;
    assert [a, b][..2] == [a, b];
    assert DeleteRequests([a, b]) == [DeleteRequest(a), DeleteRequest(b)];
    ScenarioSends(env, a, b, replies);
  }

  /** The first DELETE not acknowledged: only a warning, the second is
      still sent and the exit status is 0. */
  lemma ScenarioFirstNotAcknowledged(env: Env, a: string, b: string)
    requires Configured(env) && a != Reserved && b != Reserved
    ensures Script(env, ScenarioWorld(a, b, [NoAck, Ack])).code == ExitOk
    ensures Sent(Script(env, ScenarioWorld(a, b, [NoAck, Ack])).trace)
              == [MetadataRequest, DeleteRequest(a), DeleteRequest(b)]
  {
    var replies := [NoAck, Ack];
    assert replies[..2] == replies;
    assert FirstFailure(replies) == 2;
    assert Issued([a, b], replies) == 2;
    assert [a, b][..2] == [a, b];
    assert DeleteRequests([a, b]) == [DeleteRequest(a), DeleteRequest(b)];
    ScenarioSends(env, a, b, replies);
  }

  /** The first DELETE rejected (a timeout, say): the second is never sent
      and the exit status is 100. */
  lemma ScenarioFirstRejected(env: Env, a: string, b: string, err: Error)
    requires Configured(env) && a != Reserved && b != Reserved
    ensures Script(env, ScenarioWorld(a, b, [Fail(err), Ack])).code == ExitRunFailed
    ensures Sent(Script(env, ScenarioWorld(a, b, [Fail(err), Ack])).trace)
              == [MetadataRequest, DeleteRequest(a)]
  {
    var replies := [Fail(err), Ack];
    assert replies[..2] == replies;
    assert FirstFailure(replies) == 0;
    assert Issued([a, b], replies) == 1;
    assert [a, b][..1] == [a];
    assert DeleteRequests([a]) == [DeleteRequest(a)];
    ScenarioSends(env, a, b, replies);
  }
}

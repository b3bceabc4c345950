/** The deletion loop: the selected indices are deleted one at a time
    (`Promise.map` with `concurrency: 1`). Each DELETE is announced,
    sent, and its answer reported before the next one starts. A reply
    that is not acknowledged is only a warning; a rejected DELETE is
    reported, re-thrown, and no later DELETE is started. */
module Deletion {
  import opened Types

  /** How the answer to one DELETE is reported. */
  function Verdict(index: string, reply: Reply): (line: LogLine)
    ensures line.IsVerdict() && line.index == index
    ensures line.DeleteFailed? <==> reply.Fail?
    ensures line.DeleteFailed? ==> line.err == reply.err
    ensures line.Acknowledged? <==> reply.Ack?
  {
    match reply
    case Ack => Acknowledged(index)
    case NoAck => NotAcknowledged(index)
    case Fail(e) => DeleteFailed(index, e)
  }

  /** The events of one DELETE: the announcement, the request, the report
      of its answer. */
  function Attempt(index: string, reply: Reply): seq<Event> {
    [Log(Deleting(index)), Send(DeleteRequest(index)), Log(Verdict(index, reply))]
  }

  /** The DELETE requests for `names`, in order. */
  function DeleteRequests(names: seq<string>): seq<Request> {
    seq(|names|, i requires 0 <= i < |names| => DeleteRequest(names[i]))
  }

  // ---------------------------------------------------------------------
  // At most one DELETE in flight

  /** How one event changes the number of DELETEs sent but not answered. */
  function Delta(e: Event): int {
    if e.Send? && e.req.verb == DELETE then 1
    else if e.Log? && e.line.IsVerdict() then -1
    else 0
  }

  /** The number of DELETEs sent but not yet answered after `trace`. */
  function InFlight(trace: seq<Event>): int {
    if trace == [] then 0 else InFlight(trace[..|trace| - 1]) + Delta(trace[|trace| - 1])
  }

  /** Deletions never overlap: after every prefix of the trace at most one
      DELETE is outstanding, and no answer is reported for a DELETE that
      was not sent. */
  predicate Serial(trace: seq<Event>) {
    forall j :: 0 <= j <= |trace| ==> 0 <= InFlight(trace[..j]) <= 1
  }

  lemma {:induction false} InFlightAppend(a: seq<Event>, b: seq<Event>)
    ensures InFlight(a + b) == InFlight(a) + InFlight(b)
    decreases |b|
  {
    if b == [] {
      assert a + b == a;
    } else {
      var b' := b[..|b| - 1];
      assert (a + b)[..|a + b| - 1] == a + b';
      InFlightAppend(a, b');
    }
  }

  /** A serial trace that ends with nothing in flight may be followed by
      another serial trace. */
  lemma SerialAppend(a: seq<Event>, b: seq<Event>)
    requires Serial(a) && InFlight(a) == 0
    requires Serial(b)
    ensures Serial(a + b)
  {
    forall j | 0 <= j <= |a + b|
      ensures 0 <= InFlight((a + b)[..j]) <= 1
    {
      if j <= |a| {
        assert (a + b)[..j] == a[..j];
      } else {
        assert (a + b)[..j] == a + b[..j - |a|];
        InFlightAppend(a, b[..j - |a|]);
      }
    }
  }

  /** A trace without DELETEs and without verdicts is trivially serial. */
  lemma {:induction false} QuietIsSerial(trace: seq<Event>)
    requires forall i :: 0 <= i < |trace| ==> Delta(trace[i]) == 0
    ensures forall j :: 0 <= j <= |trace| ==> InFlight(trace[..j]) == 0
    ensures Serial(trace)
    decreases |trace|
  {
    if trace == [] {
      assert trace[..0] == [];
    } else {
      var t' := trace[..|trace| - 1];
      QuietIsSerial(t');
      forall j | 0 <= j <= |trace|
        ensures InFlight(trace[..j]) == 0
      {
        if j < |trace| {
          assert trace[..j] == t'[..j];
        } else {
          assert trace[..j] == trace;
          assert t'[..|t'|] == t';
        }
      }
    }
  }

  lemma AttemptIsSerial(index: string, reply: Reply)
    ensures InFlight(Attempt(index, reply)) == 0
    ensures Serial(Attempt(index, reply))
  {
    var t := Attempt(index, reply);
    assert t[..0] == [];
    assert t[..1][..0] == [];
    assert InFlight(t[..1]) == 0;
    assert t[..2][..1] == t[..1];
    assert InFlight(t[..2]) == 1;
    assert t[..3][..2] == t[..2];
    assert t[..3] == t;
    assert InFlight(t) == 0;
  }

  // ---------------------------------------------------------------------
  // The loop

  /** The position of the first failing reply, or |replies| when none fails. */
  function FirstFailure(replies: seq<Reply>): (k: nat)
    ensures k <= |replies|
    ensures forall i :: 0 <= i < k ==> !replies[i].Fail?
    ensures k < |replies| ==> replies[k].Fail?
  {
    if replies == [] then 0
    else if replies[0].Fail? then 0
    else 1 + FirstFailure(replies[1..])
  }

  /** The first failure is unique: any position with no failure before it
      that is either a failure or the end is the first failure. */
  lemma FirstFailureUnique(replies: seq<Reply>, k: nat)
    requires k <= |replies|
    requires forall i :: 0 <= i < k ==> !replies[i].Fail?
    requires k < |replies| ==> replies[k].Fail?
    ensures FirstFailure(replies) == k
  {
  }

  /** How many DELETEs the loop over `targets` sends: all of them, or up to
      and including the first one that fails. */
  function Issued(targets: seq<string>, replies: seq<Reply>): (n: nat)
    requires |targets| <= |replies|
    ensures n <= |targets|
  {
    var f := FirstFailure(replies[..|targets|]);
    if f < |targets| then f + 1 else |targets|
  }

  /** The loop's trace and, when a DELETE was rejected, the error it re-threw. */
  datatype LoopRun = LoopRun(trace: seq<Event>, failure: Option<Error>)

  /** Deletes `targets` in order; `replies[i]` is the cluster's answer to
      the i-th DELETE. The loop fails exactly when some reply among the
      first |targets| fails, and then with the first such reply's error. */
  function DeleteAll(targets: seq<string>, replies: seq<Reply>): (run: LoopRun)
    requires |targets| <= |replies|
    ensures var f := FirstFailure(replies[..|targets|]);
            run.failure == if f == |targets| then None else Some(replies[f].err)
  {
    if targets == [] then LoopRun([], None)
    else
      var step := Attempt(targets[0], replies[0]);
      assert replies[..|targets|][1..] == replies[1..][..|targets| - 1];
      match replies[0]
      case Fail(e) => LoopRun(step, Some(e))
      case _ =>
        var rest := DeleteAll(targets[1..], replies[1..]);
        LoopRun(step + rest.trace, rest.failure)
  }

  /** `trace` is `n` attempts, one per target in order: the announcement,
      the DELETE of `/name`, and the report of its answer. */
  predicate IsAttempts(trace: seq<Event>, targets: seq<string>, replies: seq<Reply>, n: nat)
    requires n <= |targets| && n <= |replies|
  {
    && |trace| == 3 * n
    && (forall i :: 0 <= i < n ==> trace[3 * i] == Log(Deleting(targets[i])))
    && (forall i :: 0 <= i < n ==> trace[3 * i + 1] == Send(DeleteRequest(targets[i])))
    && (forall i :: 0 <= i < n ==> trace[3 * i + 2] == Log(Verdict(targets[i], replies[i])))
  }

  lemma PrependAttempt(targets: seq<string>, replies: seq<Reply>, rest: seq<Event>, n: nat)
    requires 0 < |targets| && 0 < |replies| && n < |targets| && n < |replies|
    requires IsAttempts(rest, targets[1..], replies[1..], n)
    ensures IsAttempts(Attempt(targets[0], replies[0]) + rest, targets, replies, n + 1)
  {
    var t := Attempt(targets[0], replies[0]) + rest;
    forall i | 1 <= i < n + 1
      ensures t[3 * i] == Log(Deleting(targets[i]))
      ensures t[3 * i + 1] == Send(DeleteRequest(targets[i]))
      ensures t[3 * i + 2] == Log(Verdict(targets[i], replies[i]))
    {
      var k := i - 1;
      assert targets[1..][k] == targets[i] && replies[1..][k] == replies[i];
      assert t[3 * i] == rest[3 * k];
      assert t[3 * i + 1] == rest[3 * k + 1];
      assert t[3 * i + 2] == rest[3 * k + 2];
    }
  }

  /** One step of the loop: the first attempt, then, unless it failed, the
      loop over the remaining targets. */
  lemma DeleteAllStep(targets: seq<string>, replies: seq<Reply>)
    requires 0 < |targets| <= |replies|
    ensures replies[0].Fail? ==>
              && DeleteAll(targets, replies).trace == Attempt(targets[0], replies[0])
              && Issued(targets, replies) == 1
    ensures !replies[0].Fail? ==>
              && DeleteAll(targets, replies).trace == Attempt(targets[0], replies[0]) + DeleteAll(targets[1..], replies[1..]).trace
              && Issued(targets, replies) == Issued(targets[1..], replies[1..]) + 1
  {
    var n := |targets|;
    assert replies[..n][0] == replies[0];
    assert replies[..n][1..] == replies[1..][..n - 1];
    if !replies[0].Fail? {
      assert FirstFailure(replies[..n]) == 1 + FirstFailure(replies[1..][..n - 1]);
    }
  }

  /** The loop's trace is exactly the attempts for the DELETEs issued, in
      target order. */
  lemma {:induction false} DeleteAllTrace(targets: seq<string>, replies: seq<Reply>)
    requires |targets| <= |replies|
    ensures IsAttempts(DeleteAll(targets, replies).trace, targets, replies, Issued(targets, replies))
  {
    if targets != [] {
      DeleteAllStep(targets, replies);
      if replies[0].Fail? {
        PrependAttempt(targets, replies, [], 0);
        assert Attempt(targets[0], replies[0]) + [] == Attempt(targets[0], replies[0]);
      } else {
        DeleteAllTrace(targets[1..], replies[1..]);
        PrependAttempt(targets, replies, DeleteAll(targets[1..], replies[1..]).trace, Issued(targets[1..], replies[1..]));
      }
    }
  }

  lemma SentOfAttempt(index: string, reply: Reply)
    ensures Sent(Attempt(index, reply)) == [DeleteRequest(index)]
  {
    var t := Attempt(index, reply);
    assert t[1..][1..] == t[2..];
    assert t[2..][1..] == [];
    assert Sent(t[2..]) == [];
  }

  lemma DeleteRequestsCons(names: seq<string>, n: nat)
    requires 0 < |names| && n < |names|
    ensures DeleteRequests(names[..n + 1]) == [DeleteRequest(names[0])] + DeleteRequests(names[1..][..n])
  {
    assert names[..n + 1] == [names[0]] + names[1..][..n];
  }

  /** The requests the loop sends are the DELETEs of the issued targets,
      in target order. */
  lemma {:induction false} DeleteAllSends(targets: seq<string>, replies: seq<Reply>)
    requires |targets| <= |replies|
    ensures Sent(DeleteAll(targets, replies).trace) == DeleteRequests(targets[..Issued(targets, replies)])
  {
    if targets != [] {
      DeleteAllStep(targets, replies);
      var step := Attempt(targets[0], replies[0]);
      SentOfAttempt(targets[0], replies[0]);
      DeleteRequestsCons(targets, Issued(targets, replies) - 1);
      if !replies[0].Fail? {
        var t', r' := targets[1..], replies[1..];
        var rest := DeleteAll(t', r').trace;
        DeleteAllSends(t', r');
        SentAppend(step, rest);
      }
    }
  }

  /** Deletions never overlap, and every DELETE sent is answered before the
      loop ends. */
  lemma {:induction false} DeleteAllIsSerial(targets: seq<string>, replies: seq<Reply>)
    requires |targets| <= |replies|
    ensures Serial(DeleteAll(targets, replies).trace)
    ensures InFlight(DeleteAll(targets, replies).trace) == 0
  {
    var run := DeleteAll(targets, replies);
    if targets == [] {
      assert run.trace == [];
      assert run.trace[..0] == [];
    } else {
      var step := Attempt(targets[0], replies[0]);
      AttemptIsSerial(targets[0], replies[0]);
      if !replies[0].Fail? {
        var rest := DeleteAll(targets[1..], replies[1..]);
        DeleteAllIsSerial(targets[1..], replies[1..]);
        SerialAppend(step, rest.trace);
        InFlightAppend(step, rest.trace);
      }
    }
  }

  /** When no reply fails, every target is deleted, in order, and the loop
      succeeds; with no targets nothing is sent at all. */
  lemma AllDeleted(targets: seq<string>, replies: seq<Reply>)
    requires |targets| <= |replies|
    requires forall i :: 0 <= i < |targets| ==> !replies[i].Fail?
    ensures DeleteAll(targets, replies).failure == None
    ensures Sent(DeleteAll(targets, replies).trace) == DeleteRequests(targets)
  {
    FirstFailureUnique(replies[..|targets|], |targets|);
    DeleteAllSends(targets, replies);
    assert targets[..|targets|] == targets;
  }

  /** A failing DELETE ends the loop with its own error, and no later
      DELETE is sent. */
  lemma FailureStopsLoop(targets: seq<string>, replies: seq<Reply>, f: nat)
    requires |targets| <= |replies|
    requires f < |targets| && replies[f].Fail?
    requires forall i :: 0 <= i < f ==> !replies[i].Fail?
    ensures DeleteAll(targets, replies).failure == Some(replies[f].err)
    ensures Sent(DeleteAll(targets, replies).trace) == DeleteRequests(targets[..f + 1])
  {
    FirstFailureUnique(replies[..|targets|], f);
    DeleteAllSends(targets, replies);
  }

  /** A reply that is not acknowledged is only a warning: answering the
      same DELETE with an acknowledgement instead changes neither the
      loop's result nor the DELETEs it sends. */
  lemma NotAcknowledgedOnlyWarns(targets: seq<string>, replies: seq<Reply>, i: nat)
    requires |targets| <= |replies|
    requires i < |replies| && replies[i] == NoAck
    ensures DeleteAll(targets, replies[i := Ack]).failure == DeleteAll(targets, replies).failure
    ensures Sent(DeleteAll(targets, replies[i := Ack]).trace) == Sent(DeleteAll(targets, replies).trace)
  {
    var acked := replies[i := Ack];
    var n := |targets|;
    var f := FirstFailure(replies[..n]);
    assert forall j :: 0 <= j < n ==> (acked[..n][j].Fail? <==> replies[..n][j].Fail?);
    FirstFailureUnique(acked[..n], f);
    if f < n {
      assert acked[f] == replies[f];
    }
    DeleteAllSends(targets, replies);
    DeleteAllSends(targets, acked);
  }
}

/**
 * The AV poll loop as a fold over the sequence of wake-ups it experiences:
 * each wake-up either finds the run flag cleared (the loop exits without
 * querying) or queries the resource manager and notifies only on change.
 */
module AVPoll {
  import opened Types
  import opened DecoderStatus
  import Registry

  /** The end of one wait in the loop: the run flag still set and the status
      the resource manager then reports, or the flag cleared by teardown. */
  datatype WakeUp = Tick(sample: StatusCode) | Stop

  /** What a run of the loop produced: the statuses passed to
      onDecoderStatusChange in order, how many times the resource manager
      was queried, and the loop's lastStatus when the trace ends. */
  datatype PollRun = PollRun(notified: seq<StatusCode>, queries: nat, lastStatus: StatusCode)

  /** The samples the loop takes: those of the wake-ups before the first Stop. */
  function Samples(trace: seq<WakeUp>): (ss: seq<StatusCode>)
    ensures |ss| <= |trace|
    ensures forall i :: 0 <= i < |ss| ==> trace[i] == Tick(ss[i])
    ensures |ss| < |trace| ==> trace[|ss|] == Stop
  {
    if |trace| == 0 then []
    else match trace[0]
      case Stop => []
      case Tick(s) => [s] + Samples(trace[1..])
  }

  /** AVPollThread from a given lastStatus: a cleared run flag ends the loop
      before any query; a sample equal to lastStatus is skipped; a different
      one becomes lastStatus and is notified. */
  function Poll(lastStatus: StatusCode, trace: seq<WakeUp>): (r: PollRun)
    ensures r.queries == |Samples(trace)|
    ensures |r.notified| > 0 ==> r.notified[0] != lastStatus
    ensures forall i :: 0 < i < |r.notified| ==> r.notified[i] != r.notified[i - 1]
    ensures r.lastStatus == if |r.notified| == 0 then lastStatus else r.notified[|r.notified| - 1]
    decreases |trace|
  {
    if |trace| == 0 then PollRun([], 0, lastStatus)
    else match trace[0]
      case Stop => PollRun([], 0, lastStatus)
      case Tick(status) =>
        if status == lastStatus then
          var rest := Poll(lastStatus, trace[1..]);
          PollRun(rest.notified, rest.queries + 1, rest.lastStatus)
        else
          var rest := Poll(status, trace[1..]);
          PollRun([status] + rest.notified, rest.queries + 1, rest.lastStatus)
  }

  /** Only sampled statuses are notified, at most one per sample. */
  lemma {:induction false} PollNotifiesSamples(lastStatus: StatusCode, trace: seq<WakeUp>)
    ensures var r := Poll(lastStatus, trace);
      && |r.notified| <= |Samples(trace)|
      && forall i :: 0 <= i < |r.notified| ==> r.notified[i] in Samples(trace)
    decreases |trace|
  {
    if |trace| > 0 && trace[0].Tick? {
      var status := trace[0].sample;
      assert Samples(trace) == [status] + Samples(trace[1..]);
      PollNotifiesSamples(lastStatus, trace[1..]);
      PollNotifiesSamples(status, trace[1..]);
    }
  }

  /** The thread as started: lastStatus begins at IDLE. */
  function PollThread(trace: seq<WakeUp>): (r: PollRun)
    ensures |r.notified| > 0 ==> r.notified[0] != Idle
    ensures r.queries == |Samples(trace)|
  {
    Poll(Idle, trace)
  }

  /** Independent reference: a sequence with every run of equal adjacent
      elements reduced to one element. */
  function Collapse(xs: seq<StatusCode>): (c: seq<StatusCode>)
    ensures |xs| > 0 ==> |c| > 0 && c[0] == xs[0]
    ensures forall i :: 0 < i < |c| ==> c[i] != c[i - 1]
  {
    if |xs| <= 1 then xs
    else if xs[0] == xs[1] then Collapse(xs[1..])
    else [xs[0]] + Collapse(xs[1..])
  }

  /** The debounce rule in closed form: the notifications are the sampled
      statuses, prefixed by the starting lastStatus, with repeats collapsed
      and that starting value dropped. From IDLE this drops leading IDLE
      samples and collapses every run of equal samples to one notification. */
  lemma {:induction false} PollCollapsesRepeats(lastStatus: StatusCode, trace: seq<WakeUp>)
    ensures Poll(lastStatus, trace).notified == Collapse([lastStatus] + Samples(trace))[1..]
    decreases |trace|
  {
    if |trace| > 0 && trace[0].Tick? {
      var s := trace[0].sample;
      var rest := Samples(trace[1..]);
      assert Samples(trace) == [s] + rest;
      assert ([lastStatus] + Samples(trace))[1..] == [s] + rest;
      PollCollapsesRepeats(s, trace[1..]);
      if s != lastStatus {
        var c := Collapse([s] + rest);
        assert c == [s] + c[1..];
      }
    }
  }

  /** Once the run flag is seen cleared, nothing later in the trace is
      queried or notified. */
  lemma {:induction false} StopEndsPolling(lastStatus: StatusCode, trace: seq<WakeUp>, later: seq<WakeUp>)
    ensures Poll(lastStatus, trace + [Stop] + later) == Poll(lastStatus, trace + [Stop])
    decreases |trace|
  {
    if |trace| == 0 {
      assert ([] + [Stop] + later)[0] == Stop;
      assert ([] + [Stop])[0] == Stop;
    } else {
      assert (trace + [Stop] + later)[0] == trace[0];
      assert (trace + [Stop] + later)[1..] == trace[1..] + [Stop] + later;
      assert (trace + [Stop])[1..] == trace[1..] + [Stop];
      match trace[0]
      case Stop =>
      case Tick(s) =>
        StopEndsPolling(lastStatus, trace[1..], later);
        StopEndsPolling(s, trace[1..], later);
    }
  }

  /** The string payloads for a series of notified statuses. */
  function Payloads(ns: seq<StatusCode>): (ps: seq<string>)
    ensures |ps| == |ns|
    ensures forall i :: 0 <= i < |ns| ==> PayloadStatus(ps[i]) == Some(ns[i])
  {
    seq(|ns|, i requires 0 <= i < |ns| => Payload(ns[i]))
  }

  /** End to end, with a fixed registry: each registered sink receives one
      OnAVDecoderStatusChanged per status transition, in the order the
      transitions were sampled; a sink outside the registry receives none. */
  lemma SinkSeesEachTransition<S>(reg: Registry.Registry<S>, trace: seq<WakeUp>, s: S)
    requires Registry.NoDup(reg.sinks)
    ensures Registry.Received(Registry.Broadcast(reg.sinks, Payloads(PollThread(trace).notified)), s)
      == if s in reg.sinks then Payloads(Collapse([Idle] + Samples(trace))[1..]) else []
  {
    PollCollapsesRepeats(Idle, trace);
    Registry.BroadcastPreservesOrder(reg.sinks, Payloads(PollThread(trace).notified), s);
  }

  /** A sample equal to lastStatus is queried but not notified. */
  lemma TickUnchanged(lastStatus: StatusCode, trace: seq<WakeUp>)
    requires |trace| > 0 && trace[0] == Tick(lastStatus)
    ensures var r := Poll(lastStatus, trace[1..]);
      Poll(lastStatus, trace) == PollRun(r.notified, r.queries + 1, r.lastStatus)
  {
  }

  /** A sample different from lastStatus is notified and becomes the new
      lastStatus. */
  lemma TickChanged(lastStatus: StatusCode, status: StatusCode, trace: seq<WakeUp>)
    requires |trace| > 0 && trace[0] == Tick(status) && status != lastStatus
    ensures var r := Poll(status, trace[1..]);
      Poll(lastStatus, trace) == PollRun([status] + r.notified, r.queries + 1, r.lastStatus)
  {
  }

  /** Three samples equal to lastStatus in a row: three queries, nothing
      notified. */
  lemma ThreeUnchanged(lastStatus: StatusCode, trace: seq<WakeUp>)
    requires |trace| >= 3 && trace[0] == trace[1] == trace[2] == Tick(lastStatus)
    ensures var r := Poll(lastStatus, trace[1..][1..][1..]);
      Poll(lastStatus, trace) == PollRun(r.notified, r.queries + 3, r.lastStatus)
  {
    var t1 := trace[1..];
    var t2 := t1[1..];
    TickUnchanged(lastStatus, t2);
    TickUnchanged(lastStatus, t1);
    TickUnchanged(lastStatus, trace);
  }

  /** From IDLE, a status `a` sampled twice and then a status `b`: two
      notifications, `a` then `b`. */
  lemma TwoChanges(a: StatusCode, b: StatusCode, trace: seq<WakeUp>)
    requires a != Idle && b != a
    requires |trace| == 3 && trace[0] == trace[1] == Tick(a) && trace[2] == Tick(b)
    ensures Poll(Idle, trace) == PollRun([a, b], 3, b)
  {
    var t1 := trace[1..];
    var t2 := t1[1..];
    assert Poll(b, t2[1..]) == PollRun([], 0, b);
    TickChanged(a, b, t2);
    TickUnchanged(a, t1);
    TickChanged(Idle, a, trace);
    assert [a] + ([b] + []) == [a, b];
  }

  /** The poll thread sees IDLE three times, then a status `a` twice, then
      a status `b`: exactly two notifications, `a` then `b` (ACTIVE then
      PAUSED in the usual case). */
  lemma IdleThenTwoChanges(a: StatusCode, b: StatusCode)
    requires a != Idle && b != a
    ensures PollThread([Tick(Idle), Tick(Idle), Tick(Idle), Tick(a), Tick(a), Tick(b)])
      == PollRun([a, b], 6, b)
  {
    var t := [Tick(Idle), Tick(Idle), Tick(Idle), Tick(a), Tick(a), Tick(b)];
    ThreeUnchanged(Idle, t);
    TwoChanges(a, b, t[1..][1..][1..]);
  }
}

/**
 * The `while True` loop of `main`: call `fetch_and_notify_price` with the
 * default retry count, stop when it returns True, otherwise sleep ten
 * seconds and call it again. A ValueError the call raises is not caught by
 * `main`, so it ends the run.
 *
 * The loop runs until the process is stopped from outside; the model is given
 * the network behaviour of the cycles that happen before that, one
 * `nat -> Response` per cycle, and reports StillPolling when they run out.
 */
module Poll {
  import opened Tracker

  /** How the run ends. */
  datatype Ending =
    | Done                           // a call returned True
    | Crashed(kind: ValueErrorKind)  // a ValueError escaped `main`
    | StillPolling                   // stopped from outside while polling

  /** How the run ends, how many cycles it ran, how many ten-second sleeps it made, and every price notified. */
  datatype PollRun = PollRun(ending: Ending, cycles: nat, sleeps: nat, notified: seq<real>)

  /** What the calls of successive cycles would give, each started with retry count 0. */
  ghost function Calls(url: string, desired: real, nets: seq<nat -> Response>): seq<Run>
  {
    seq(|nets|, k requires 0 <= k < |nets| => FetchAndNotify(url, desired, 0, nets[k]))
  }

  /** The loop's decisions over the results of its calls, cycle by cycle. */
  ghost function Settle(runs: seq<Run>): PollRun
    decreases |runs|
  {
    if runs == [] then PollRun(StillPolling, 0, 0, [])
    else
      var r := runs[0];
      match r.outcome
      case ReturnedTrue => PollRun(Done, 1, 0, r.notified)
      case RaisedValueError(k) => PollRun(Crashed(k), 1, 0, r.notified)
      case ReturnedNone =>
        var rest := Settle(runs[1..]);
        PollRun(rest.ending, 1 + rest.cycles, 1 + rest.sleeps, r.notified + rest.notified)
  }

  /** The run, given the network behaviour of each cycle. */
  ghost function RunPoll(url: string, desired: real, nets: seq<nat -> Response>): PollRun
  {
    Settle(Calls(url, desired, nets))
  }

  /** `n` finished cycles that each slept once and notified `notes`, followed by `rest`. */
  ghost function After(n: nat, notes: seq<real>, rest: PollRun): PollRun
  {
    PollRun(rest.ending, n + rest.cycles, n + rest.sleeps, notes + rest.notified)
  }

  lemma CallsAt(url: string, desired: real, nets: seq<nat -> Response>, k: nat)
    requires k < |nets|
    ensures |Calls(url, desired, nets)| == |nets|
    ensures Calls(url, desired, nets)[k] == FetchAndNotify(url, desired, 0, nets[k])
  {
  }

  /** One cycle of the run that starts at cycle `i`. */
  lemma SettleStep(runs: seq<Run>, i: nat)
    requires i < |runs|
    ensures var r := runs[i];
      var rest := Settle(runs[i + 1..]);
      Settle(runs[i..]) ==
        match r.outcome
        case ReturnedTrue => PollRun(Done, 1, 0, r.notified)
        case RaisedValueError(k) => PollRun(Crashed(k), 1, 0, r.notified)
        case ReturnedNone => PollRun(rest.ending, 1 + rest.cycles, 1 + rest.sleeps, r.notified + rest.notified)
  {
    assert runs[i..][0] == runs[i] && runs[i..][1..] == runs[i + 1..];
  }

  /** The run from cycle `i` on, after `i` cycles that notified `notes`, as its cycle `i` decides. */
  lemma SettleAdvance(runs: seq<Run>, i: nat, notes: seq<real>)
    requires i < |runs|
    ensures var r := runs[i];
      (r.outcome == ReturnedTrue ==>
        After(i, notes, Settle(runs[i..])) == PollRun(Done, i + 1, i, notes + r.notified))
      && (r.outcome.RaisedValueError? ==>
        After(i, notes, Settle(runs[i..])) == PollRun(Crashed(r.outcome.kind), i + 1, i, notes + r.notified))
      && (r.outcome == ReturnedNone ==>
        After(i, notes, Settle(runs[i..])) == After(i + 1, notes + r.notified, Settle(runs[i + 1..])))
  {
    SettleStep(runs, i);
    var rest := Settle(runs[i + 1..]);
    assert (notes + runs[i].notified) + rest.notified == notes + (runs[i].notified + rest.notified);
  }

  method PollLoop(url: string, desired: real, nets: seq<nat -> Response>) returns (run: PollRun)
    ensures run == RunPoll(url, desired, nets)
  {
    ghost var calls := Calls(url, desired, nets);
    var i := 0;
    var notified: seq<real> := [];
    assert calls[0..] == calls;
    while i < |nets|
      invariant i <= |nets| == |calls|
      invariant Settle(calls) == After(i, notified, Settle(calls[i..]))
    {
      var r := FetchAndNotify(url, desired, 0, nets[i]);
      CallsAt(url, desired, nets, i);
      SettleAdvance(calls, i, notified);
      if r.outcome == ReturnedTrue {
        return PollRun(Done, i + 1, i, notified + r.notified);
      }
      if r.outcome.RaisedValueError? {
        return PollRun(Crashed(r.outcome.kind), i + 1, i, notified + r.notified);
      }
      notified := notified + r.notified;
      i := i + 1;
    }
    assert calls[i..] == [];
    return PollRun(StillPolling, i, i, notified);
  }

  /**
   * The run stops only on a decisive cycle: every cycle before the last one
   * it ran returned None and was followed by a sleep; it is Done exactly when
   * the last cycle returned True, Crashed when that cycle raised, and
   * StillPolling only when every cycle returned None.
   */
  lemma {:induction false} SettleShape(runs: seq<Run>)
    ensures var p := Settle(runs);
      p.cycles <= |runs|
      && (forall j :: 0 <= j < p.cycles - 1 ==> runs[j].outcome == ReturnedNone)
      && (p.ending == StillPolling ==>
            p.cycles == |runs| && p.sleeps == p.cycles
            && forall j :: 0 <= j < |runs| ==> runs[j].outcome == ReturnedNone)
      && (p.ending == Done ==>
            0 < p.cycles && p.sleeps == p.cycles - 1 && runs[p.cycles - 1].outcome == ReturnedTrue)
      && (p.ending.Crashed? ==>
            0 < p.cycles && p.sleeps == p.cycles - 1
            && runs[p.cycles - 1].outcome == RaisedValueError(p.ending.kind))
    decreases |runs|
  {
    if runs != [] && runs[0].outcome == ReturnedNone {
      SettleShape(runs[1..]);
      forall j | 0 <= j < |runs| - 1
        ensures runs[1..][j] == runs[j + 1]
      {
      }
    }
  }

  /**
   * The loop of `main` in terms of its calls: every cycle but the last one
   * returned None and was followed by a sleep; the run is Done only after a
   * call that returned True, Crashed only after one that raised, and still
   * polling only when every cycle returned None.
   */
  lemma PollShape(url: string, desired: real, nets: seq<nat -> Response>)
    ensures var p := RunPoll(url, desired, nets);
      p.cycles <= |nets|
      && (forall j :: 0 <= j < p.cycles - 1 ==> FetchAndNotify(url, desired, 0, nets[j]).outcome == ReturnedNone)
      && (p.ending == StillPolling ==>
            p.cycles == |nets| && p.sleeps == p.cycles
            && forall j :: 0 <= j < |nets| ==> FetchAndNotify(url, desired, 0, nets[j]).outcome == ReturnedNone)
      && (p.ending == Done ==>
            0 < p.cycles && p.sleeps == p.cycles - 1
            && FetchAndNotify(url, desired, 0, nets[p.cycles - 1]).outcome == ReturnedTrue)
      && (p.ending.Crashed? ==>
            0 < p.cycles && p.sleeps == p.cycles - 1
            && FetchAndNotify(url, desired, 0, nets[p.cycles - 1]).outcome == RaisedValueError(p.ending.kind))
  {
    var calls := Calls(url, desired, nets);
    SettleShape(calls);
    forall j | 0 <= j < |nets|
      ensures calls[j] == FetchAndNotify(url, desired, 0, nets[j])
    {
      CallsAt(url, desired, nets, j);
    }
  }

  /**
   * When every call notifies only for prices at most `desired` and a call
   * that returns True has notified, so does the run, and a run that ends Done
   * has notified.
   */
  lemma {:induction false} SettleNotifies(runs: seq<Run>, desired: real)
    requires forall k :: 0 <= k < |runs| ==> forall x :: x in runs[k].notified ==> x <= desired
    requires forall k :: 0 <= k < |runs| ==> runs[k].outcome == ReturnedTrue ==> runs[k].notified != []
    ensures var p := Settle(runs);
      (forall x :: x in p.notified ==> x <= desired) && (p.ending == Done ==> p.notified != [])
    decreases |runs|
  {
    if runs != [] && runs[0].outcome == ReturnedNone {
      assert forall k :: 0 <= k < |runs| - 1 ==> runs[1..][k] == runs[k + 1];
      SettleNotifies(runs[1..], desired);
    }
  }

  /** Every notification of a run is for a price at most the desired one; a run that ends Done has notified. */
  lemma PollNotifiesOnlyBelowTarget(url: string, desired: real, nets: seq<nat -> Response>)
    ensures var p := RunPoll(url, desired, nets);
      (forall x :: x in p.notified ==> x <= desired) && (p.ending == Done ==> p.notified != [])
  {
    var calls := Calls(url, desired, nets);
    forall k | 0 <= k < |calls|
      ensures (forall x :: x in calls[k].notified ==> x <= desired)
      ensures calls[k].outcome == ReturnedTrue ==> calls[k].notified != []
    {
      NotifiedAtMostOnce(url, desired, 0, nets[k]);
      ReturnsTrueIff(url, desired, 0, nets[k]);
    }
    SettleNotifies(calls, desired);
  }

  /** A run makes at most one notification per cycle it ran when each call makes at most one. */
  lemma {:induction false} SettleCount(runs: seq<Run>)
    requires forall k :: 0 <= k < |runs| ==> |runs[k].notified| <= 1
    ensures |Settle(runs).notified| <= Settle(runs).cycles
    decreases |runs|
  {
    if runs != [] && runs[0].outcome == ReturnedNone {
      assert forall k :: 0 <= k < |runs| - 1 ==> runs[1..][k] == runs[k + 1];
      SettleCount(runs[1..]);
    }
  }

  /** Calls that never notify make a run that never notifies. */
  lemma {:induction false} SettleQuiet(runs: seq<Run>)
    requires forall k :: 0 <= k < |runs| ==> runs[k].notified == []
    ensures Settle(runs).notified == []
    decreases |runs|
  {
    if runs != [] && runs[0].outcome == ReturnedNone {
      assert forall k :: 0 <= k < |runs| - 1 ==> runs[1..][k] == runs[k + 1];
      SettleQuiet(runs[1..]);
    }
  }

  /**
   * When only calls that return True notify, and each at most once, the run
   * notifies at most once in all: the first such call ends it.
   */
  lemma {:induction false} SettleOnce(runs: seq<Run>)
    requires forall k :: 0 <= k < |runs| ==> |runs[k].notified| <= 1
    requires forall k :: 0 <= k < |runs| ==> runs[k].notified != [] ==> runs[k].outcome == ReturnedTrue
    ensures |Settle(runs).notified| <= 1
    decreases |runs|
  {
    if runs != [] && runs[0].outcome == ReturnedNone {
      assert forall k :: 0 <= k < |runs| - 1 ==> runs[1..][k] == runs[k + 1];
      SettleOnce(runs[1..]);
      assert runs[0].notified == [];
    }
  }

  /** A response that is a page whose price reaches the target. */
  ghost predicate ReachesTarget(resp: Response, desired: real)
  {
    resp.Received? && !RaisesHttpError(resp.status) && Judge(resp.page, desired).Reached?
  }

  /**
   * How many notifications a run of the loop makes: at most one per cycle;
   * none when no response a cycle requests is a page that reaches the target;
   * at most one in all when no cycle reaches the target after a 429 retry.
   */
  lemma PollNotificationCount(url: string, desired: real, nets: seq<nat -> Response>)
    ensures var p := RunPoll(url, desired, nets);
      |p.notified| <= p.cycles
      && ((forall k, n: nat :: 0 <= k < |nets| && n <= LastTry(0, nets[k]) ==> !ReachesTarget(nets[k](n), desired))
          ==> p.notified == [])
      && ((forall k :: 0 <= k < |nets| ==>
             LastTry(0, nets[k]) == 0 || !ReachesTarget(nets[k](LastTry(0, nets[k])), desired))
          ==> |p.notified| <= 1)
  {
    var calls := Calls(url, desired, nets);
    forall k | 0 <= k < |calls|
      ensures |calls[k].notified| <= 1
      ensures calls[k].notified != [] ==> ReachesTarget(nets[k](LastTry(0, nets[k])), desired)
      ensures calls[k].notified != [] && LastTry(0, nets[k]) == 0 ==> calls[k].outcome == ReturnedTrue
    {
      CallsAt(url, desired, nets, k);
      NotifiedAtMostOnce(url, desired, 0, nets[k]);
      if Text.Contains(url, Domain) {
        CallShape(url, desired, 0, nets[k]);
      }
    }
    SettleCount(calls);
    if forall k, n: nat :: 0 <= k < |nets| && n <= LastTry(0, nets[k]) ==> !ReachesTarget(nets[k](n), desired) {
      forall k | 0 <= k < |calls| ensures calls[k].notified == [] {
        assert !ReachesTarget(nets[k](LastTry(0, nets[k])), desired);
      }
      SettleQuiet(calls);
    }
    if forall k :: 0 <= k < |nets| ==>
         LastTry(0, nets[k]) == 0 || !ReachesTarget(nets[k](LastTry(0, nets[k])), desired) {
      SettleOnce(calls);
    }
  }

  /** A URL without "amazon.in" ends the run in its first cycle, before any GET. */
  lemma BadDomainEndsRun(url: string, desired: real, nets: seq<nat -> Response>)
    requires !Text.Contains(url, Domain) && |nets| > 0
    ensures RunPoll(url, desired, nets) == PollRun(Crashed(UnsupportedDomain), 1, 0, [])
  {
    assert Calls(url, desired, nets)[0] == FetchAndNotify(url, desired, 0, nets[0]);
  }

  /**
   * One notification per run is not guaranteed: two cycles that each meet a
   * 429 and then a page at 999, against a target of 1000, notify twice and
   * keep polling, because the retried call's True is dropped.
   */
  lemma RepeatedNotifications()
    ensures var net := RateLimitedThen(1, Page999());
      RunPoll("https://www.amazon.in/dp/B0", 1000.0, [net, net])
        == PollRun(StillPolling, 2, 2, [999.0, 999.0])
  {
    var net := RateLimitedThen(1, Page999());
    var url := "https://www.amazon.in/dp/B0";
    RetriedSuccessIsDropped(1, 0);
    var calls := Calls(url, 1000.0, [net, net]);
    CallsAt(url, 1000.0, [net, net], 0);
    CallsAt(url, 1000.0, [net, net], 1);
    SettleStep(calls, 0);
    SettleStep(calls, 1);
    assert calls[0..] == calls && calls[2..] == [];
    assert [999.0] + ([999.0] + []) == [999.0, 999.0];
  }
}

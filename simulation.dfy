/** `simulate_queue`: a discrete-event run of the M/M/c queue.  The random
    draws the service takes from numpy are inputs here: one sequence of
    interarrival gaps and one of service durations, in the order they are
    drawn. */
module Simulation {
  import opened Outcomes

  /** Sum of a sequence of reals. */
  function Sum(s: seq<real>): real
  {
    if |s| == 0 then 0.0 else s[0] + Sum(s[1..])
  }

  /** Every element is at least zero. */
  predicate NonNegative(s: seq<real>)
  {
    forall i :: 0 <= i < |s| ==> s[i] >= 0.0
  }

  // ---------------------------------------------------------------------
  // Arrivals

  /** The arrival times the draws produce once the clock reads t: each draw
      moves the clock on; a time before the horizon is an arrival, and the
      first time at or past it ends the stream (that draw is not an
      arrival).  Running out of draws also ends the stream. */
  function ArrivalsFrom(draws: seq<real>, t: real, horizon: real): seq<real>
    decreases |draws|
  {
    if t >= horizon || |draws| == 0 then []
    else
      var next := t + draws[0];
      if next < horizon then [next] + ArrivalsFrom(draws[1..], next, horizon) else []
  }

  /** The arrival list of a run that starts with the clock at 0. */
  function Arrivals(draws: seq<real>, horizon: real): seq<real>
  {
    ArrivalsFrom(draws, 0.0, horizon)
  }

  /** The arrival loop: draw a gap, advance the clock, keep the time if it
      is still before the horizon, and stop once the clock has reached it. */
  method GenerateArrivals(draws: seq<real>, horizon: real) returns (arrivals: seq<real>)
    ensures arrivals == Arrivals(draws, horizon)
  {
    arrivals := [];
    var t := 0.0;
    var i := 0;
    while t < horizon && i < |draws|
      invariant 0 <= i <= |draws|
      invariant arrivals + ArrivalsFrom(draws[i..], t, horizon) == Arrivals(draws, horizon)
      decreases |draws| - i
    {
      assert draws[i..][1..] == draws[i + 1..];
      t := t + draws[i];
      i := i + 1;
      if t < horizon {
        arrivals := arrivals + [t];
      }
    }
  }

  /** The arrivals are exactly the running clock readings t + d_0 + ... + d_k
      that fall before the horizon, up to the first one that does not: every
      element is such a reading and lies below the horizon, and when the
      stream stops before the draws run out, the next reading has reached
      the horizon. */
  lemma {:induction false} ArrivalsCharacterised(draws: seq<real>, t: real, horizon: real)
    ensures |ArrivalsFrom(draws, t, horizon)| <= |draws|
    ensures forall k :: 0 <= k < |ArrivalsFrom(draws, t, horizon)| ==>
              && ArrivalsFrom(draws, t, horizon)[k] == t + Sum(draws[..k + 1])
              && ArrivalsFrom(draws, t, horizon)[k] < horizon
    ensures t < horizon && |ArrivalsFrom(draws, t, horizon)| < |draws| ==>
              t + Sum(draws[..|ArrivalsFrom(draws, t, horizon)| + 1]) >= horizon
    decreases |draws|
  {
    var r := ArrivalsFrom(draws, t, horizon);
    if t < horizon && |draws| > 0 {
      var next := t + draws[0];
      if next < horizon {
        var rest := draws[1..];
        ArrivalsCharacterised(rest, next, horizon);
        forall k | 0 <= k <= |rest|
          ensures Sum(draws[..k + 1]) == draws[0] + Sum(rest[..k])
        {
          assert draws[..k + 1][1..] == rest[..k];
        }
      } else {
        assert draws[..1][1..] == [];
      }
    }
  }

  /** With positive gaps the arrival times strictly increase, and all of
      them come after the clock reading they start from. */
  lemma {:induction false} ArrivalsIncreasing(draws: seq<real>, t: real, horizon: real)
    requires forall i :: 0 <= i < |draws| ==> draws[i] > 0.0
    ensures forall k :: 0 <= k < |ArrivalsFrom(draws, t, horizon)| ==> ArrivalsFrom(draws, t, horizon)[k] > t
    ensures forall j, k :: 0 <= j < k < |ArrivalsFrom(draws, t, horizon)| ==>
              ArrivalsFrom(draws, t, horizon)[j] < ArrivalsFrom(draws, t, horizon)[k]
    decreases |draws|
  {
    if t < horizon && |draws| > 0 && t + draws[0] < horizon {
      ArrivalsIncreasing(draws[1..], t + draws[0], horizon);
    }
  }

  // ---------------------------------------------------------------------
  // Server assignment

  /** `min(range(c), key=lambda i: busy[i])`: the server free earliest. */
  function EarliestFree(busy: seq<real>): (i: nat)
    requires |busy| > 0
    ensures i < |busy|
  {
    if |busy| == 1 then 0
    else
      var k := EarliestFree(busy[..|busy| - 1]);
      if busy[|busy| - 1] < busy[k] then |busy| - 1 else k
  }

  /** The chosen server has the least busy-until time, and every server
      before it is busy strictly longer: Python's `min` keeps the first of
      equal keys, so ties go to the lowest index. */
  lemma {:induction false} EarliestFreeIsFirstMinimum(busy: seq<real>)
    requires |busy| > 0
    ensures forall j :: 0 <= j < |busy| ==> busy[EarliestFree(busy)] <= busy[j]
    ensures forall j :: 0 <= j < EarliestFree(busy) ==> busy[j] > busy[EarliestFree(busy)]
  {
    if |busy| > 1 {
      var front := busy[..|busy| - 1];
      EarliestFreeIsFirstMinimum(front);
    }
  }

  /** What happens to one customer: the server it goes to, when its
      service starts, how long it waited, and the servers' new busy-until
      times. */
  datatype Dispatch = Dispatch(server: nat, start: real, wait: real, busy: seq<real>)

  /** One pass of the assignment loop for a customer arriving at `arrival`
      whose service lasts `service`. */
  function Assign(busy: seq<real>, arrival: real, service: real): (d: Dispatch)
    requires |busy| > 0
    ensures d.server < |busy| && |d.busy| == |busy|
  {
    var e := EarliestFree(busy);
    var start := if busy[e] > arrival then busy[e] else arrival;
    Dispatch(e, start, start - arrival, busy[e := start + service])
  }

  /** A customer goes to the earliest-free server (lowest index on a tie),
      starts at the later of its arrival and that server's busy-until time,
      so waits no less than 0, and only that server's time changes, to the
      start plus the service duration, which moves no time backwards when
      the duration is not negative. */
  lemma AssignChoosesEarliest(busy: seq<real>, arrival: real, service: real)
    requires |busy| > 0
    ensures var d := Assign(busy, arrival, service);
            && (forall j :: 0 <= j < |busy| ==> busy[d.server] <= busy[j])
            && (forall j :: 0 <= j < d.server ==> busy[j] > busy[d.server])
            && d.start >= arrival && d.start >= busy[d.server]
            && (d.start == arrival || d.start == busy[d.server])
            && d.wait == d.start - arrival && d.wait >= 0.0
            && d.busy[d.server] == d.start + service
            && (forall j :: 0 <= j < |busy| && j != d.server ==> d.busy[j] == busy[j])
            && (service >= 0.0 ==> forall j :: 0 <= j < |busy| ==> busy[j] <= d.busy[j])
  {
    EarliestFreeIsFirstMinimum(busy);
  }

  /** The servers' busy-until times and the waits recorded so far. */
  datatype Schedule = Schedule(busy: seq<real>, waits: seq<real>)

  /** The state after the first k customers have been dispatched onto c
      servers that are all free at time 0. */
  function ScheduleOf(c: nat, arrivals: seq<real>, services: seq<real>, k: nat): (s: Schedule)
    requires c > 0 && k <= |arrivals| && k <= |services|
    ensures |s.busy| == c && |s.waits| == k
  {
    if k == 0 then Schedule(seq(c, _ => 0.0), [])
    else
      var prev := ScheduleOf(c, arrivals, services, k - 1);
      var d := Assign(prev.busy, arrivals[k - 1], services[k - 1]);
      Schedule(d.busy, prev.waits + [d.wait])
  }

  /** The assignment loop over a list of c busy-until times that it
      updates in place. */
  method AssignServers(c: nat, arrivals: seq<real>, services: seq<real>) returns (waits: seq<real>)
    requires c > 0 && |arrivals| <= |services|
    ensures waits == ScheduleOf(c, arrivals, services, |arrivals|).waits
  {
    var busy := new real[c](_ => 0.0);
    assert busy[..] == seq(c, _ => 0.0);
    waits := [];
    var k := 0;
    while k < |arrivals|
      invariant 0 <= k <= |arrivals|
      invariant busy.Length == c
      invariant ScheduleOf(c, arrivals, services, k) == Schedule(busy[..], waits)
    {
      ghost var before, waited := busy[..], waits;
      var e := EarliestFree(busy[..]);
      var start := if busy[e] > arrivals[k] then busy[e] else arrivals[k];
      waits := waits + [start - arrivals[k]];
      busy[e] := start + services[k];
      assert busy[..] == before[e := start + services[k]];
      ScheduleNext(c, arrivals, services, k, before, waited, e, start, busy[..], waits);
      k := k + 1;
    }
  }

  /** One more customer, dispatched from a known state as the loop does it. */
  lemma ScheduleNext(c: nat, arrivals: seq<real>, services: seq<real>, k: nat,
                     busy: seq<real>, waits: seq<real>, e: nat, start: real,
                     busy': seq<real>, waits': seq<real>)
    requires c > 0 && k < |arrivals| && k < |services|
    requires ScheduleOf(c, arrivals, services, k) == Schedule(busy, waits)
    requires e == EarliestFree(busy) && start == (if busy[e] > arrivals[k] then busy[e] else arrivals[k])
    requires busy' == busy[e := start + services[k]] && waits' == waits + [start - arrivals[k]]
    ensures ScheduleOf(c, arrivals, services, k + 1) == Schedule(busy', waits')
  {
  }

  /** Every recorded wait is at least zero, one per customer. */
  lemma {:induction false} WaitsNonNegative(c: nat, arrivals: seq<real>, services: seq<real>, k: nat)
    requires c > 0 && k <= |arrivals| && k <= |services|
    ensures NonNegative(ScheduleOf(c, arrivals, services, k).waits)
  {
    if k > 0 {
      WaitsNonNegative(c, arrivals, services, k - 1);
      var prev := ScheduleOf(c, arrivals, services, k - 1);
      AssignChoosesEarliest(prev.busy, arrivals[k - 1], services[k - 1]);
    }
  }

  /** With durations that are not negative no server's busy-until time
      ever goes down: after k customers every slot is at least what it
      was after j. */
  lemma {:induction false} BusyNeverDecreases(c: nat, arrivals: seq<real>, services: seq<real>, j: nat, k: nat)
    requires c > 0 && j <= k <= |arrivals| && k <= |services|
    requires NonNegative(services)
    ensures forall s :: 0 <= s < c ==>
              ScheduleOf(c, arrivals, services, j).busy[s] <= ScheduleOf(c, arrivals, services, k).busy[s]
    decreases k - j
  {
    if j < k {
      BusyNeverDecreases(c, arrivals, services, j + 1, k);
      var prev := ScheduleOf(c, arrivals, services, j);
      AssignChoosesEarliest(prev.busy, arrivals[j], services[j]);
    }
  }

  /** While fewer customers than servers have come, with arrival times not
      below 0 and positive durations, customer i is sent to server i, the
      servers used so far are busy and the rest still free: the first c
      customers never wait. */
  lemma {:induction false} FirstCustomersServedAtOnce(c: nat, arrivals: seq<real>, services: seq<real>, k: nat)
    requires c > 0 && k <= c && k <= |arrivals| && k <= |services|
    requires NonNegative(arrivals)
    requires forall i :: 0 <= i < |services| ==> services[i] > 0.0
    ensures forall s :: 0 <= s < k ==> ScheduleOf(c, arrivals, services, k).busy[s] > 0.0
    ensures forall s :: k <= s < c ==> ScheduleOf(c, arrivals, services, k).busy[s] == 0.0
    ensures forall i :: 0 <= i < k ==> ScheduleOf(c, arrivals, services, k).waits[i] == 0.0
  {
    if k > 0 {
      var l := k - 1;
      FirstCustomersServedAtOnce(c, arrivals, services, l);
      var prev := ScheduleOf(c, arrivals, services, l);
      var d := Assign(prev.busy, arrivals[l], services[l]);
      AssignChoosesEarliest(prev.busy, arrivals[l], services[l]);
      assert prev.busy[l] == 0.0;
      assert d.server == l;
    }
  }

  // ---------------------------------------------------------------------
  // Summary

  /** `np.mean` of a non-empty list. */
  function Mean(s: seq<real>): real
    requires |s| > 0
  {
    Sum(s) / |s| as real
  }

  /** `np.max` of a non-empty list. */
  function MaxOf(s: seq<real>): (m: real)
    requires |s| > 0
    ensures forall i :: 0 <= i < |s| ==> s[i] <= m
  {
    if |s| == 1 then s[0]
    else
      var rest := MaxOf(s[1..]);
      assert forall i :: 1 <= i < |s| ==> s[i] == s[1..][i - 1];
      if s[0] >= rest then s[0] else rest
  }

  /** The maximum is one of the elements. */
  lemma {:induction false} MaxAttained(s: seq<real>)
    requires |s| > 0
    ensures exists i :: 0 <= i < |s| && s[i] == MaxOf(s)
  {
    if |s| > 1 {
      MaxAttained(s[1..]);
      var i :| 0 <= i < |s| - 1 && s[1..][i] == MaxOf(s[1..]);
      if s[0] < MaxOf(s[1..]) {
        assert s[i + 1] == MaxOf(s);
      } else {
        assert s[0] == MaxOf(s);
      }
    } else {
      assert s[0] == MaxOf(s);
    }
  }

  lemma {:induction false} SumBounds(s: seq<real>, m: real)
    requires forall i :: 0 <= i < |s| ==> 0.0 <= s[i] <= m
    ensures 0.0 <= Sum(s) <= |s| as real * m
  {
    if |s| > 0 {
      SumBounds(s[1..], m);
    }
  }

  /** The mean of waits that are not negative lies between 0 and their maximum. */
  lemma MeanBounds(s: seq<real>)
    requires |s| > 0 && NonNegative(s)
    ensures 0.0 <= Mean(s) <= MaxOf(s)
  {
    SumBounds(s, MaxOf(s));
    QuotientBounds(Sum(s), |s| as real, MaxOf(s));
  }

  lemma QuotientBounds(x: real, n: real, m: real)
    requires n > 0.0 && 0.0 <= x <= n * m
    ensures 0.0 <= x / n <= m
  {
    assert x / n * n == x;
    assert (m - x / n) * n >= 0.0;
  }

  /** The answer of `simulate_queue`. */
  datatype SimulationReport = SimulationReport(
    totalArrivals: nat,
    totalServed: nat,
    avgWaitMinutes: real,
    maxWaitMinutes: real,
    waitTimesSample: seq<real>)

  /** The report built from the arrival count and the waits (in hours),
      with times turned into minutes and the sample cut to ten. */
  function Summarise(arrivals: nat, waits: seq<real>): SimulationReport
  {
    SimulationReport(
      arrivals,
      |waits|,
      if |waits| > 0 then Mean(waits) * 60.0 else 0.0,
      if |waits| > 0 then MaxOf(waits) * 60.0 else 0.0,
      seq(if |waits| < 10 then |waits| else 10, i requires 0 <= i < |waits| => waits[i] * 60.0))
  }

  /** The whole run on the given draws, failing as the source does: a
      zero or negative arrival rate as soon as the first gap is drawn (when
      the horizon is positive), no servers or a zero or negative service
      rate as soon as the first customer is dispatched. */
  function SimulationOf(lam: real, mu: real, c: int, horizon: real,
                        gaps: seq<real>, services: seq<real>): (r: Result<SimulationReport>)
    requires |Arrivals(gaps, horizon)| <= |services|
  {
    if horizon > 0.0 && lam == 0.0 then Failure(ZeroDivisionError)
    else if horizon > 0.0 && lam < 0.0 then Failure(ValueError)
    else
      var arrivals := Arrivals(gaps, horizon);
      if |arrivals| == 0 then Success(Summarise(0, []))
      else if c <= 0 then Failure(ValueError)
      else if mu == 0.0 then Failure(ZeroDivisionError)
      else if mu < 0.0 then Failure(ValueError)
      else Success(Summarise(|arrivals|, ScheduleOf(c, arrivals, services, |arrivals|).waits))
  }

  /** The endpoint: the arrival loop, then the assignment loop, then the summary. */
  method Simulate(lam: real, mu: real, c: int, horizon: real,
                  gaps: seq<real>, services: seq<real>) returns (r: Result<SimulationReport>)
    requires |Arrivals(gaps, horizon)| <= |services|
    ensures r == SimulationOf(lam, mu, c, horizon, gaps, services)
  {
    if horizon > 0.0 && lam == 0.0 {
      return Failure(ZeroDivisionError);
    }
    if horizon > 0.0 && lam < 0.0 {
      return Failure(ValueError);
    }
    var arrivals := GenerateArrivals(gaps, horizon);
    if |arrivals| == 0 {
      return Success(Summarise(0, []));
    }
    if c <= 0 {
      return Failure(ValueError);
    }
    if mu == 0.0 {
      return Failure(ZeroDivisionError);
    }
    if mu < 0.0 {
      return Failure(ValueError);
    }
    var waits := AssignServers(c, arrivals, services);
    r := Success(Summarise(|arrivals|, waits));
  }

  /** What every successful run reports: as many customers served as
      arrived, an average wait between 0 and the longest wait (both 0 when
      nobody came), and the first min(10, n) waits in minutes. */
  lemma SimulationFacts(lam: real, mu: real, c: int, horizon: real, gaps: seq<real>, services: seq<real>)
    requires |Arrivals(gaps, horizon)| <= |services|
    ensures SimulationOf(lam, mu, c, horizon, gaps, services).Success? <==>
              && (horizon > 0.0 ==> lam > 0.0)
              && (|Arrivals(gaps, horizon)| > 0 ==> c > 0 && mu > 0.0)
    ensures SimulationOf(lam, mu, c, horizon, gaps, services).Success? ==>
              var report := SimulationOf(lam, mu, c, horizon, gaps, services).value;
              && report.totalArrivals == report.totalServed == |Arrivals(gaps, horizon)|
              && 0.0 <= report.avgWaitMinutes <= report.maxWaitMinutes
              && (report.totalArrivals == 0 ==> report.avgWaitMinutes == 0.0 && report.maxWaitMinutes == 0.0)
              && |report.waitTimesSample| == (if report.totalServed < 10 then report.totalServed else 10)
              && (forall i :: 0 <= i < |report.waitTimesSample| ==> report.waitTimesSample[i] >= 0.0)
  {
    var arrivals := Arrivals(gaps, horizon);
    if SimulationOf(lam, mu, c, horizon, gaps, services).Success? && |arrivals| > 0 {
      var waits := ScheduleOf(c, arrivals, services, |arrivals|).waits;
      WaitsNonNegative(c, arrivals, services, |arrivals|);
      MeanBounds(waits);
      assert Mean(waits) * 60.0 <= MaxOf(waits) * 60.0;
    }
  }
}

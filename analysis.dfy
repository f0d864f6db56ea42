/** `analyze_queue`: the steady-state metrics of an M/M/c queue, or the
    report that it has none. */
module Analysis {
  import opened Outcomes
  import opened Formulas

  /** A metric that is a real number or unbounded (the source's float('inf')). */
  datatype Extended = Finite(value: real) | Infinity

  /** The answer of the analysis.  Times are in minutes (rates are per hour). */
  datatype QueueMetrics = QueueMetrics(
    rho: real,
    trafficIntensity: real,
    p0: real,
    erlangC: real,
    lq: Extended,
    wq: Extended,
    l: Extended,
    w: Extended,
    utilization: real,
    stable: bool)

  /** What the stable branch promises: finite metrics, probabilities
      strictly between 0 and 1, the waiting time from Erlang C, and
      Little's law linking the lengths to the times. */
  predicate StableMetrics(m: QueueMetrics, lam: real, mu: real, c: nat)
    requires mu > 0.0 && c > 0 && lam < c as real * mu
  {
    && m.lq.Finite? && m.wq.Finite? && m.l.Finite? && m.w.Finite?
    && 0.0 < m.p0 < 1.0
    && 0.0 < m.erlangC < 1.0
    && 0.0 < m.trafficIntensity < c as real
    && m.p0 * P0Denominator(m.trafficIntensity, c) == 1.0
    && m.erlangC == m.p0 * LastTerm(m.trafficIntensity, c)
    && m.wq.value == m.erlangC / (c as real * mu - lam) * 60.0
    && m.wq.value > 0.0
    && m.lq.value == lam * (m.wq.value / 60.0)
    && m.w.value == m.wq.value + 60.0 / mu
    && m.l.value == lam * (m.w.value / 60.0)
  }

  /** `analyze_queue` on rates lam and mu per hour and c servers. */
  function AnalyzeQueue(lam: real, mu: real, c: int): (r: Result<QueueMetrics>)
    ensures r.Failure? <==> lam <= 0.0 || mu <= 0.0 || c <= 0
    ensures r.Failure? ==> r.error == InvalidParameters
    ensures r.Success? ==>
              && r.value.rho == lam / (c as real * mu)
              && r.value.trafficIntensity == lam / mu
              && r.value.utilization == r.value.rho * 100.0
              && (r.value.stable <==> r.value.rho < 1.0)
    ensures r.Success? && !r.value.stable ==>
              && r.value.p0 == 0.0 && r.value.erlangC == 1.0
              && r.value.lq == Infinity && r.value.wq == Infinity
              && r.value.l == Infinity && r.value.w == Infinity
    ensures r.Success? && r.value.stable ==>
              lam < c as real * mu && StableMetrics(r.value, lam, mu, c)
  {
    if lam <= 0.0 || mu <= 0.0 || c <= 0 then Failure(InvalidParameters)
    else
      var rho := lam / (c as real * mu);
      var a := lam / mu;
      if !(rho < 1.0) then
        Success(QueueMetrics(rho, a, 0.0, 1.0, Infinity, Infinity, Infinity, Infinity, rho * 100.0, false))
      else
        Success(StableAnalysis(lam, mu, c, rho, a))
  }

  /** The stable branch of `analyze_queue`: P0, Erlang C, then the
      metrics built from them. */
  function StableAnalysis(lam: real, mu: real, c: nat, rho: real, a: real): (m: QueueMetrics)
    requires lam > 0.0 && mu > 0.0 && c > 0
    requires rho == lam / (c as real * mu) && a == lam / mu && rho < 1.0
    ensures lam < c as real * mu && StableMetrics(m, lam, mu, c)
    ensures m.rho == rho && m.trafficIntensity == a && m.utilization == rho * 100.0 && m.stable
  {
    StableLoad(lam, mu, c, rho, a);
    P0Bounds(a, c);
    ErlangCBounds(a, c);
    P0DenominatorBounds(a, c);
    var p0 := CalculateP0(a, c).value;
    var erlangC := CalculateErlangC(a, c, rho).value;
    ErlangCIsScaledP0(a, c, p0, erlangC);
    MetricsAreStable(lam, mu, c, rho, a, p0, erlangC);
    Metrics(lam, mu, c, rho, a, p0, erlangC)
  }

  /** Wq from Erlang C, then Lq, W and L in the order the source computes them. */
  function Metrics(lam: real, mu: real, c: nat, rho: real, a: real, p0: real, erlangC: real): QueueMetrics
    requires mu > 0.0 && lam < c as real * mu
  {
    var wq := erlangC / (c as real * mu - lam) * 60.0;
    var lq := lam * (wq / 60.0);
    var w := wq + 60.0 / mu;
    var l := lam * (w / 60.0);
    QueueMetrics(rho, a, p0, erlangC, Finite(lq), Finite(wq), Finite(l), Finite(w), rho * 100.0, true)
  }

  lemma MetricsAreStable(lam: real, mu: real, c: nat, rho: real, a: real, p0: real, erlangC: real)
    requires mu > 0.0 && c > 0 && 0.0 < lam < c as real * mu && 0.0 < a < c as real
    requires 0.0 < p0 < 1.0 && 0.0 < erlangC < 1.0
    requires p0 * P0Denominator(a, c) == 1.0 && erlangC == p0 * LastTerm(a, c)
    ensures StableMetrics(Metrics(lam, mu, c, rho, a, p0, erlangC), lam, mu, c)
  {
    var gap := c as real * mu - lam;
    DivPositive(erlangC, gap);
    MulPositive(erlangC / gap, 60.0);
  }

  lemma ErlangCIsScaledP0(a: real, c: nat, p0: real, erlangC: real)
    requires c as real != a && P0Denominator(a, c) != 0.0
    requires p0 * P0Denominator(a, c) == 1.0
    requires erlangC == LastTerm(a, c) / P0Denominator(a, c)
    ensures erlangC == p0 * LastTerm(a, c)
  {
    var d := P0Denominator(a, c);
    assert p0 == 1.0 / d;
  }

  /** Consequences of the stable metrics that the source does not compute
      directly: L = Lq + a (the mean number in service is the traffic
      intensity), and the textbook form Lq = C * rho / (1 - rho). */
  lemma StableIdentities(m: QueueMetrics, lam: real, mu: real, c: nat)
    requires lam > 0.0 && mu > 0.0 && c > 0 && lam < c as real * mu
    requires StableMetrics(m, lam, mu, c)
    requires m.rho == lam / (c as real * mu) && m.trafficIntensity == lam / mu
    ensures && m.l.value == m.lq.value + m.trafficIntensity
            && m.lq.value == m.erlangC * m.rho / (1.0 - m.rho)
            && m.w.value > m.wq.value > 0.0
  {
    var cap := c as real * mu;
    SystemLength(lam, mu, m.wq.value, m.w.value, m.lq.value, m.l.value);
    QueueLength(lam, cap, m.erlangC, m.wq.value, m.lq.value, m.rho);
  }

  lemma SystemLength(lam: real, mu: real, wq: real, w: real, lq: real, l: real)
    requires mu > 0.0
    requires lq == lam * (wq / 60.0) && w == wq + 60.0 / mu && l == lam * (w / 60.0)
    ensures l == lq + lam / mu && w > wq
  {
    calc {
      l;
      lam * ((wq + 60.0 / mu) / 60.0);
      lam * (wq / 60.0 + 1.0 / mu);
      lam * (wq / 60.0) + lam * (1.0 / mu);
      lq + lam / mu;
    }
  }

  lemma QueueLength(lam: real, cap: real, erlangC: real, wq: real, lq: real, rho: real)
    requires 0.0 < lam < cap && rho == lam / cap
    requires wq == erlangC / (cap - lam) * 60.0 && lq == lam * (wq / 60.0)
    ensures lq == erlangC * rho / (1.0 - rho)
  {
    assert rho * cap == lam;
    DivUnique(cap - lam, cap, 1.0 - rho);
    calc {
      erlangC * rho / (1.0 - rho);
      erlangC * (lam / cap) / ((cap - lam) / cap);
      erlangC * lam / (cap - lam);
      lam * (wq / 60.0);
    }
  }
}

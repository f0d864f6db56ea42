/** `get_state_probabilities`: the truncated steady-state distribution of
    the number of customers in an M/M/c system. */
module StateProbabilities {
  import opened Outcomes
  import opened Formulas

  /** One entry of the answer's "states" list. */
  datatype StateProbability = StateProbability(state: nat, probability: real, customersInQueue: nat)

  /** The whole answer; utilization is rho itself here, not a percentage. */
  datatype StateReport = StateReport(p0: real, states: seq<StateProbability>, trafficIntensity: real, utilization: real)

  /** a^n / (c! * c^(n - c)), the unnormalised weight of a state with a queue. */
  function TailTerm(a: real, c: nat, n: nat): real
    requires 1 <= c <= n
  {
    PowPositive(c as real, n - c);
    Pow(a, n) / (Factorial(c) * Pow(c as real, n - c))
  }

  /** P_n in closed form: a^n / n! * P0 below c customers,
      a^n / (c! * c^(n - c)) * P0 from c customers on. */
  function Occupancy(a: real, c: nat, p0: real, n: nat): real
    requires c >= 1
  {
    if n < c then Term(a, n) * p0 else TailTerm(a, c, n) * p0
  }

  /** Entry n of the list: the state, its probability and max(0, n - c). */
  function Entry(a: real, c: nat, p0: real, n: nat): StateProbability
    requires c >= 1
  {
    StateProbability(n, Occupancy(a, c, p0, n), if n - c > 0 then n - c else 0)
  }

  /** The list built for n in range(max_states + 1). */
  function States(a: real, c: nat, p0: real, maxStates: int): seq<StateProbability>
    requires c >= 1
  {
    seq(if maxStates < 0 then 0 else maxStates + 1, n requires 0 <= n => Entry(a, c, p0, n))
  }

  /** What every answer looks like: P0 normalises the distribution, there
      are max_states + 1 entries for states 0, 1, ... in order, entry n
      holds P_n and max(0, n - c) waiting customers, and entry 0 is P0. */
  predicate ReportShape(r: StateReport, c: nat, maxStates: int)
    requires c >= 1
  {
    && r.trafficIntensity != c as real
    && r.p0 * P0Denominator(r.trafficIntensity, c) == 1.0
    && |r.states| == (if maxStates < 0 then 0 else maxStates + 1)
    && (forall n :: 0 <= n < |r.states| ==>
          && r.states[n].state == n
          && r.states[n].customersInQueue == (if n > c then n - c else 0)
          && r.states[n].probability == Occupancy(r.trafficIntensity, c, r.p0, n))
    && (maxStates >= 0 ==> r.states[0].probability == r.p0)
  }

  /** The answer of `get_state_probabilities(lambda_rate, mu_rate, c_servers,
      max_states)`.  Nothing but stability is screened: a zero rate or a zero
      server count divides by zero (c * mu is zero exactly when c is, once
      mu is not), and a negative server count reaches `factorial`. */
  function StateReportOf(lam: real, mu: real, c: int, maxStates: int): (r: Result<StateReport>)
    ensures mu == 0.0 || c == 0 ==> r == Failure(ZeroDivisionError)
    ensures mu != 0.0 && c != 0 && lam / (c as real * mu) >= 1.0 ==> r == Failure(Unstable)
    ensures mu != 0.0 && c < 0 && lam / (c as real * mu) < 1.0 ==> r == Failure(ValueError)
    ensures r.Success? ==>
              && mu != 0.0 && c >= 1
              && r.value.trafficIntensity == lam / mu
              && r.value.utilization == lam / (c as real * mu) < 1.0
              && ReportShape(r.value, c, maxStates)
  {
    if mu == 0.0 then Failure(ZeroDivisionError)
    else if c as real * mu == 0.0 then Failure(ZeroDivisionError)
    else
      var a := lam / mu;
      var rho := lam / (c as real * mu);
      if rho >= 1.0 then Failure(Unstable)
      else
        match CalculateP0(a, c)
        case Failure(e) => Failure(e)
        case Success(p0) =>
          OccupancyAtZero(a, c, p0);
          Success(StateReport(p0, States(a, c, p0, maxStates), a, rho))
  }

  /** The endpoint itself: the guards, then the loop over n = 0 .. max_states
      that appends one entry per state. */
  method GetStateProbabilities(lam: real, mu: real, c: int, maxStates: int) returns (r: Result<StateReport>)
    ensures r == StateReportOf(lam, mu, c, maxStates)
  {
    if mu == 0.0 {
      return Failure(ZeroDivisionError);
    }
    var a := lam / mu;
    if c as real * mu == 0.0 {
      return Failure(ZeroDivisionError);
    }
    var rho := lam / (c as real * mu);
    if rho >= 1.0 {
      return Failure(Unstable);
    }
    var p0Result := CalculateP0(a, c);
    if p0Result.Failure? {
      return Failure(p0Result.error);
    }
    var p0 := p0Result.value;
    var probabilities: seq<StateProbability> := [];
    var n := 0;
    while n < maxStates + 1
      invariant 0 <= n <= (if maxStates < 0 then 0 else maxStates + 1)
      invariant |probabilities| == n
      invariant forall i :: 0 <= i < n ==> probabilities[i] == Entry(a, c, p0, i)
    {
      var pn: real;
      if n < c {
        pn := (Pow(a, n) / Factorial(n)) * p0;
      } else {
        PowPositive(c as real, n - c);
        pn := (Pow(a, n) / (Factorial(c) * Pow(c as real, n - c))) * p0;
      }
      assert pn == Occupancy(a, c, p0, n);
      probabilities := probabilities + [StateProbability(n, pn, if n - c > 0 then n - c else 0)];
      n := n + 1;
    }
    assert probabilities == States(a, c, p0, maxStates);
    r := Success(StateReport(p0, probabilities, a, rho));
  }

  /** For positive rates and servers with rho < 1 the answer exists, its
      P0 is a probability strictly between 0 and 1 and the offered load is
      below the number of servers. */
  lemma StableReport(lam: real, mu: real, c: int, maxStates: int)
    requires lam > 0.0 && mu > 0.0 && c > 0 && lam / (c as real * mu) < 1.0
    ensures StateReportOf(lam, mu, c, maxStates).Success?
    ensures 0.0 < StateReportOf(lam, mu, c, maxStates).value.p0 < 1.0
    ensures 0.0 < lam / mu < c as real
  {
    var rho := lam / (c as real * mu);
    var a := lam / mu;
    StableLoad(lam, mu, c, rho, a);
    P0Bounds(a, c);
  }

  lemma OccupancyAtZero(a: real, c: nat, p0: real)
    requires c >= 1
    ensures Occupancy(a, c, p0, 0) == p0
  {
  }

  /** Up to and including c customers P_n is the n-th series term times P0. */
  lemma OccupancyIsTerm(a: real, c: nat, p0: real, n: nat)
    requires 1 <= c && n <= c
    ensures Occupancy(a, c, p0, n) == Term(a, n) * p0
  {
    if n == c {
      TailAtServers(a, c);
    }
  }

  lemma TailAtServers(a: real, c: nat)
    requires c >= 1
    ensures TailTerm(a, c, c) == Term(a, c)
  {
    assert Pow(c as real, 0) == 1.0;
  }

  /** With a positive load and P0 every state has positive probability. */
  lemma OccupancyPositive(a: real, c: nat, p0: real, n: nat)
    requires c >= 1 && a > 0.0 && p0 > 0.0
    ensures Occupancy(a, c, p0, n) > 0.0
  {
    if n < c {
      TermPositive(a, n);
      MulPositive(Term(a, n), p0);
    } else {
      PowPositive(a, n);
      PowPositive(c as real, n - c);
      MulPositive(Factorial(c), Pow(c as real, n - c));
      DivPositive(Pow(a, n), Factorial(c) * Pow(c as real, n - c));
      MulPositive(TailTerm(a, c, n), p0);
    }
  }

  /** The ratio recurrence between neighbouring states, n = m + 1:
      n * P_n = a * P_m below c, and c * P_n = a * P_m from c on. */
  lemma OccupancyRecurrence(a: real, c: nat, p0: real, m: nat, n: nat)
    requires c >= 1 && n == m + 1
    ensures Occupancy(a, c, p0, n) * (if n < c then n else c) as real == Occupancy(a, c, p0, m) * a
  {
    if n <= c {
      OccupancyBelow(a, c, p0, m, n);
    } else {
      OccupancyAbove(a, c, p0, m, n);
    }
  }

  lemma OccupancyBelow(a: real, c: nat, p0: real, m: nat, n: nat)
    requires 1 <= n <= c && n == m + 1
    ensures Occupancy(a, c, p0, n) * n as real == Occupancy(a, c, p0, m) * a
  {
    TermRatio(a, m, n);
    OccupancyIsTerm(a, c, p0, n);
    OccupancyIsTerm(a, c, p0, m);
    var k := n as real;
    ScaleRatio(Term(a, n), Term(a, m), a, k, p0);
  }

  lemma OccupancyAbove(a: real, c: nat, p0: real, m: nat, n: nat)
    requires 1 <= c <= m && n == m + 1
    ensures Occupancy(a, c, p0, n) * c as real == Occupancy(a, c, p0, m) * a
  {
    TailTermRatio(a, c, m, n);
    var cr := c as real;
    ScaleRatio(TailTerm(a, c, n), TailTerm(a, c, m), a, cr, p0);
  }

  lemma ScaleRatio(t1: real, t0: real, a: real, k: real, p0: real)
    requires t1 * k == t0 * a
    ensures t1 * p0 * k == t0 * p0 * a
  {
    assert t1 * p0 * k == (t1 * k) * p0;
  }

  /** Past c, one more customer multiplies the weight by a / c. */
  lemma TailTermRatio(a: real, c: nat, m: nat, n: nat)
    requires 1 <= c <= m && n == m + 1
    ensures TailTerm(a, c, n) * c as real == TailTerm(a, c, m) * a
  {
    var j0: nat, j1: nat := m - c, n - c;
    var pm, pn := Pow(a, m), Pow(a, n);
    var qm, qn := Pow(c as real, j0), Pow(c as real, j1);
    var f := Factorial(c);
    PowSucc(a, m, n, pm, pn);
    PowSucc(c as real, j0, j1, qm, qn);
    PowPositive(c as real, j0);
    var tn, tm := TailTerm(a, c, n), TailTerm(a, c, m);
    TailTermValue(a, c, n, tn, pn, f, qn);
    TailTermValue(a, c, m, tm, pm, f, qm);
    QuotientRatio(tn, tm, pn, pm, f, qn, qm, a, c as real);
  }

  /** The weight of state n times its denominator gives back its numerator. */
  lemma TailTermValue(a: real, c: nat, n: nat, t: real, p: real, f: real, q: real)
    requires 1 <= c <= n && t == TailTerm(a, c, n)
    requires p == Pow(a, n) && f == Factorial(c) && q == Pow(c as real, n - c)
    ensures t * (f * q) == p
  {
    PowPositive(c as real, n - c);
    MulPositive(f, q);
  }

  lemma QuotientRatio(t1: real, t0: real, p1: real, p0: real, f: real, q1: real, q0: real, a: real, k: real)
    requires f > 0.0 && q0 > 0.0
    requires p1 == a * p0 && q1 == k * q0
    requires t1 * (f * q1) == p1 && t0 * (f * q0) == p0
    ensures t1 * k == t0 * a
  {
    MulPositive(f, q0);
    assert t1 * k * (f * q0) == t1 * (f * q1);
    CancelFactor(t1 * k, t0 * a, f * q0);
  }

  /** The recurrence read off a list of entries that hold P_0, P_1, ...:
      each probability is its predecessor's times a / min(n, c). */
  lemma StatesRecurrence(ps: seq<StateProbability>, a: real, c: nat, p0: real)
    requires ListsOccupancy(ps, a, c, p0)
    ensures forall m, n :: 0 <= m && n == m + 1 && n < |ps| ==>
              ps[n].probability == ps[m].probability * a / (if n < c then n else c) as real
  {
    forall m, n | 0 <= m && n == m + 1 && n < |ps|
      ensures ps[n].probability == ps[m].probability * a / (if n < c then n else c) as real
    {
      StatesStep(ps, a, c, p0, m, n);
    }
  }

  lemma StatesStep(ps: seq<StateProbability>, a: real, c: nat, p0: real, m: nat, n: nat)
    requires c >= 1 && n == m + 1 && n < |ps|
    requires ps[n].probability == Occupancy(a, c, p0, n)
    requires ps[m].probability == Occupancy(a, c, p0, m)
    ensures ps[n].probability == ps[m].probability * a / (if n < c then n else c) as real
  {
    OccupancyRecurrence(a, c, p0, m, n);
    var k := (if n < c then n else c) as real;
    DivUnique(ps[m].probability * a, k, ps[n].probability);
  }

  /** The entries of ps hold P_0, P_1, ... in order. */
  predicate ListsOccupancy(ps: seq<StateProbability>, a: real, c: nat, p0: real)
  {
    c >= 1 && forall n {:trigger Occupancy(a, c, p0, n)} :: 0 <= n < |ps| ==> ps[n].probability == Occupancy(a, c, p0, n)
  }

  /** A stable load a < c with P0 the reciprocal of the normalising constant. */
  predicate StableP0(a: real, c: nat, p0: real)
  {
    0.0 < a < c as real && p0 * P0Denominator(a, c) == 1.0
  }

  /** The total probability the first m entries of a list account for. */
  function Mass(ps: seq<StateProbability>, m: nat): real
    requires m <= |ps|
  {
    if m == 0 then 0.0 else Mass(ps, m - 1) + ps[m - 1].probability
  }

  /** The probability the first m entries of a list leave over. */
  function Unlisted(ps: seq<StateProbability>, m: nat): real
    requires m <= |ps|
  {
    1.0 - Mass(ps, m)
  }

  lemma MassStep(ps: seq<StateProbability>, l: nat, m: nat)
    requires m == l + 1 && m <= |ps|
    ensures Mass(ps, m) == Mass(ps, l) + ps[l].probability
  {
  }

  lemma EntryIsTerm(ps: seq<StateProbability>, a: real, c: nat, p0: real, n: nat)
    requires ListsOccupancy(ps, a, c, p0) && n <= c && n < |ps|
    ensures ps[n].probability == Term(a, n) * p0
  {
    OccupancyIsTerm(a, c, p0, n);
  }

  /** Up to c customers the listed mass is P0 times the partial exponential series. */
  lemma {:induction false} MassBelowServers(ps: seq<StateProbability>, a: real, c: nat, p0: real, m: nat)
    requires ListsOccupancy(ps, a, c, p0) && m <= c && m <= |ps|
    ensures Mass(ps, m) == p0 * SumTerm(a, m)
  {
    if m > 0 {
      var l := m - 1;
      MassBelowServers(ps, a, c, p0, l);
      EntryIsTerm(ps, a, c, p0, l);
      MassStep(ps, l, m);
      AccumulateScaled(Mass(ps, l), Mass(ps, m), ps[l].probability,
                       SumTerm(a, l), SumTerm(a, m), Term(a, l), p0);
    }
  }

  lemma AccumulateScaled(mass: real, mass': real, occ: real, s: real, s': real, t: real, p0: real)
    requires mass' == mass + occ && occ == t * p0 && s' == s + t && mass == p0 * s
    ensures mass' == p0 * s'
  {
  }

  /** What the states below c leave over is P0 times last_term. */
  lemma LeftAtServers(ps: seq<StateProbability>, a: real, c: nat, p0: real)
    requires ListsOccupancy(ps, a, c, p0) && StableP0(a, c, p0) && c <= |ps|
    ensures Unlisted(ps, c) == LastTerm(a, c) * p0
  {
    MassBelowServers(ps, a, c, p0, c);
    P0Split(a, c);
    ShareLeft(p0, P0Denominator(a, c), SumTerm(a, c), LastTerm(a, c), Mass(ps, c));
  }

  lemma ShareLeft(p0: real, d: real, s: real, last: real, mass: real)
    requires p0 * d == 1.0 && d == s + last && mass == p0 * s
    ensures 1.0 - mass == last * p0
  {
  }

  /** Erlang C, the probability of having to wait, is exactly what the
      states 0 .. c - 1 leave over: P(N >= c) = 1 - (P_0 + ... + P_(c-1)). */
  lemma WaitingMass(ps: seq<StateProbability>, a: real, c: nat, p0: real)
    requires ListsOccupancy(ps, a, c, p0) && StableP0(a, c, p0) && c <= |ps|
    ensures CalculateErlangC(a, c, a / c as real) == Success(Unlisted(ps, c))
  {
    LeftAtServers(ps, a, c, p0);
    ErlangCBounds(a, c);
    P0DenominatorBounds(a, c);
    var r := CalculateErlangC(a, c, a / c as real);
    ShareValue(r.value, LastTerm(a, c), P0Denominator(a, c), p0);
    assert r.value == Unlisted(ps, c);
  }

  lemma ShareValue(e: real, last: real, d: real, p0: real)
    requires d > 0.0 && p0 * d == 1.0 && e == last / d
    ensures e == last * p0
  {
    assert e * d == last;
    assert last * p0 * d == last;
    CancelFactor(e, last * p0, d);
  }

  lemma CancelFactor(x: real, y: real, z: real)
    requires z != 0.0 && x * z == y * z
    ensures x == y
  {
    assert (x - y) * z == 0.0;
  }

  /** (a^c / c!) * (c / (c - a)) times c - a is a^c / c! times c. */
  lemma LastTermProduct(a: real, c: nat)
    requires c as real != a
    ensures LastTerm(a, c) * (c as real - a) == Term(a, c) * c as real
  {
    var cr := c as real;
    var g := cr - a;
    ScaledShare(Term(a, c), cr, g);
  }

  lemma ScaledShare(t: real, k: real, g: real)
    requires g != 0.0
    ensures t * (k / g) * g == t * k
  {
    assert k / g * g == k;
  }

  /** The first c states leave out P_c * c / (c - a): the tail from c on
      is geometric with ratio a / c. */
  lemma GapAtServers(ps: seq<StateProbability>, a: real, c: nat, p0: real)
    requires ListsOccupancy(ps, a, c, p0) && StableP0(a, c, p0) && c < |ps|
    ensures Unlisted(ps, c) * (c as real - a) == ps[c].probability * c as real
  {
    LeftAtServers(ps, a, c, p0);
    LastTermProduct(a, c);
    EntryIsTerm(ps, a, c, p0, c);
    var cr := c as real;
    var e := Unlisted(ps, c);
    BaseGap(e, LastTerm(a, c), p0, Term(a, c), ps[c].probability, cr, a);
  }

  lemma BaseGap(e: real, last: real, p0: real, t: real, pc: real, cr: real, a: real)
    requires e == last * p0 && last * (cr - a) == t * cr && pc == t * p0
    ensures e * (cr - a) == pc * cr
  {
    assert e * (cr - a) == (last * (cr - a)) * p0;
  }

  /** Entries c .. m of a list fall geometrically with ratio a / cr. */
  predicate Geometric(ps: seq<StateProbability>, a: real, cr: real, c: nat, m: nat)
    requires m < |ps|
  {
    m <= c || (Geometric(ps, a, cr, c, m - 1) && ps[m].probability * cr == ps[m - 1].probability * a)
  }

  /** Past c the listed probabilities fall geometrically with ratio a / c. */
  lemma {:induction false} GeometricEntries(ps: seq<StateProbability>, a: real, c: nat, p0: real, m: nat)
    requires ListsOccupancy(ps, a, c, p0) && m < |ps|
    ensures Geometric(ps, a, c as real, c, m)
  {
    if m > c {
      var l := m - 1;
      GeometricEntries(ps, a, c, p0, l);
      OccupancyAbove(a, c, p0, l, m);
    }
  }

  /** Each further prefix past c leaves out the geometric tail from its next entry on. */
  lemma {:induction false} GeometricTail(ps: seq<StateProbability>, a: real, cr: real, c: nat, m: nat)
    requires c <= m < |ps|
    requires Geometric(ps, a, cr, c, m)
    requires Unlisted(ps, c) * (cr - a) == ps[c].probability * cr
    ensures Unlisted(ps, m) * (cr - a) == ps[m].probability * cr
  {
    if m != c {
      var l := m - 1;
      GeometricTail(ps, a, cr, c, l);
      MassStep(ps, l, m);
      GapStep(ps[l].probability, ps[m].probability, Unlisted(ps, l), Unlisted(ps, m), a, cr);
    }
  }

  lemma GapStep(prev: real, next: real, left: real, left': real, a: real, cr: real)
    requires left' == left - prev
    requires left * (cr - a) == prev * cr && next * cr == prev * a
    ensures left' * (cr - a) == next * cr
  {
    assert left' * (cr - a) == left * (cr - a) - prev * (cr - a);
  }

  /** For a stable system the first m listed probabilities (m >= c) add up
      to 1 - P_m * c / (c - a): the list leaves out exactly a geometric tail. */
  lemma TruncatedMass(ps: seq<StateProbability>, a: real, c: nat, p0: real, m: nat)
    requires ListsOccupancy(ps, a, c, p0) && StableP0(a, c, p0) && c <= m < |ps|
    ensures Unlisted(ps, m) * (c as real - a) == ps[m].probability * c as real
  {
    GapAtServers(ps, a, c, p0);
    GeometricEntries(ps, a, c, p0, m);
    GeometricTail(ps, a, c as real, c, m);
  }

  /** However long the list, its probabilities sum to strictly less than 1.
      A list that stops before state c holds part of the series that P0
      normalises; a longer one leaves a positive geometric tail unlisted. */
  lemma ListedMassBelowOne(ps: seq<StateProbability>, a: real, c: nat, p0: real)
    requires ListsOccupancy(ps, a, c, p0) && StableP0(a, c, p0)
    ensures Mass(ps, |ps|) < 1.0
  {
    P0DenominatorBounds(a, c);
    ReciprocalBelowOne(P0Denominator(a, c), p0);
    if |ps| <= c {
      ShortListBelowOne(ps, a, c, p0);
    } else {
      LongListBelowOne(ps, a, c, p0);
    }
  }

  lemma ShortListBelowOne(ps: seq<StateProbability>, a: real, c: nat, p0: real)
    requires ListsOccupancy(ps, a, c, p0) && StableP0(a, c, p0) && |ps| <= c && p0 > 0.0
    ensures Mass(ps, |ps|) < 1.0
  {
    P0DenominatorBounds(a, c);
    MassBelowServers(ps, a, c, p0, |ps|);
    SumTermGrows(a, |ps|, c);
    ShortListMass(Mass(ps, |ps|), p0, SumTerm(a, |ps|), SumTerm(a, c), LastTerm(a, c), P0Denominator(a, c));
  }

  lemma LongListBelowOne(ps: seq<StateProbability>, a: real, c: nat, p0: real)
    requires ListsOccupancy(ps, a, c, p0) && StableP0(a, c, p0) && c < |ps| && p0 > 0.0
    ensures Mass(ps, |ps|) < 1.0
  {
    var l := |ps| - 1;
    TruncatedMass(ps, a, c, p0, l);
    MassStep(ps, l, |ps|);
    OccupancyPositive(a, c, p0, l);
    var cr := c as real;
    LeftoverPositive(Unlisted(ps, l), ps[l].probability, a, cr);
  }

  lemma ShortListMass(mass: real, p0: real, s: real, s': real, last: real, d: real)
    requires mass == p0 * s && s <= s' && d == s' + last && last > 0.0
    requires p0 > 0.0 && p0 * d == 1.0
    ensures mass < 1.0
  {
    MulMono(s, s', p0);
    MulPositive(p0, last);
  }

  /** Every further state adds positive probability: a longer list (a
      larger max_states) accounts for strictly more of the distribution. */
  lemma {:induction false} MassGrows(ps: seq<StateProbability>, a: real, c: nat, p0: real, l: nat, m: nat)
    requires ListsOccupancy(ps, a, c, p0) && StableP0(a, c, p0) && l < m <= |ps|
    ensures Mass(ps, l) < Mass(ps, m)
    decreases m - l
  {
    P0DenominatorBounds(a, c);
    ReciprocalBelowOne(P0Denominator(a, c), p0);
    MassStep(ps, m - 1, m);
    OccupancyPositive(a, c, p0, m - 1);
    if l < m - 1 {
      MassGrows(ps, a, c, p0, l, m - 1);
    }
  }

  lemma LeftoverPositive(left: real, last: real, a: real, cr: real)
    requires 0.0 < a < cr && last > 0.0
    requires left * (cr - a) == last * cr
    ensures left - last > 0.0
  {
    assert (left - last) * (cr - a) == last * a;
    MulPositive(last, a);
    if left - last <= 0.0 {
      MulMono(left - last, 0.0, cr - a);
    }
  }
}

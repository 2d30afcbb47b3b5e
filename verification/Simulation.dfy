/**
 * The simulation: a fixed list of demes, the day counter and the three
 * estimator fields. Population totals are sums over the demes; a random
 * infection is drawn by a prefix-sum walk weighted by prevalence. The deme
 * steps, between-deme contacts, deme resets and the tree clear that
 * stepForward and reset call are not part of this model; those methods
 * return the ordered trace of the calls they make.
 */
module SimulationModel {
  import opened Viruses
  import opened HostModel
  import opened PopulationModel
  import opened DemeChoice
  import opened Estimators

  /** A call into a deme or the virus tree whose body is not modelled. */
  datatype Call =
    | DemeStep(deme: nat)
    | BetweenDemeContact(deme: nat, other: nat)
    | DemeReset(deme: nat)
    | TreeClear

  /** The per-deme values of one measure, in deme order. */
  function Counts(ds: seq<HostPopulation>, m: Measure): (c: seq<nat>)
    reads ds
    ensures |c| == |ds|
    ensures forall i :: 0 <= i < |ds| ==> c[i] == ds[i].Count(m)
  {
    if ds == [] then [] else [ds[0].Count(m)] + Counts(ds[1..], m)
  }

  /** Total N is total S plus total I. */
  lemma {:induction false} TotalsAdd(ds: seq<HostPopulation>)
    ensures Sum(Counts(ds, N)) == Sum(Counts(ds, S)) + Sum(Counts(ds, I))
  {
    if ds != [] {
      TotalsAdd(ds[1..]);
    }
  }

  /** Deme `i`'s contacts with demes 0..j-1 other than itself, in order. */
  function Contacts(i: nat, j: nat): (r: seq<Call>)
    ensures |r| == (if i < j then j - 1 else j)
  {
    if j == 0 then []
    else Contacts(i, j - 1) + (if j - 1 == i then [] else [BetweenDemeContact(i, j - 1)])
  }

  /** What stepForward does for deme `i` of `n`. */
  function Row(i: nat, n: nat): (r: seq<Call>)
    ensures i < n ==> |r| == n
  {
    [DemeStep(i)] + Contacts(i, n)
  }

  /** The calls stepForward makes for the first `k` of `n` demes. */
  function Schedule(k: nat, n: nat): seq<Call> {
    if k == 0 then [] else Schedule(k - 1, n) + Row(k - 1, n)
  }

  /** The slot of the contact of deme `i` with deme `j` within row `i`. */
  function Slot(i: nat, j: nat): nat
    requires i != j
  {
    if j < i then j + 1 else j
  }

  lemma {:induction false} ContactsSpec(i: nat, j: nat)
    ensures forall o :: 0 <= o < j && o != i ==> Contacts(i, j)[Slot(i, o) - 1] == BetweenDemeContact(i, o)
  {
    if j > 0 {
      ContactsSpec(i, j - 1);
    }
  }

  /** Each row of `n` calls starts with the deme's own step, followed by
      its contact with every other deme in index order. */
  lemma RowSpec(i: nat, n: nat)
    requires i < n
    ensures |Row(i, n)| == n && Row(i, n)[0] == DemeStep(i)
    ensures forall j :: 0 <= j < n && j != i ==> Row(i, n)[Slot(i, j)] == BetweenDemeContact(i, j)
  {
    ContactsSpec(i, n);
  }

  lemma {:induction false} ScheduleLength(k: nat, n: nat)
    requires k <= n
    ensures |Schedule(k, n)| == k * n
  {
    if k > 0 {
      ScheduleLength(k - 1, n);
      RowSpec(k - 1, n);
      assert (k - 1) * n + n == k * n;
    }
  }

  /** Position q of deme `i`'s row is position i*n + q of the schedule. */
  lemma {:induction false} ScheduleAt(k: nat, n: nat, i: nat, q: nat)
    requires i < k <= n && q < n
    ensures i * n + q < |Schedule(k, n)| && Schedule(k, n)[i * n + q] == Row(i, n)[q]
  {
    var prev := Schedule(k - 1, n);
    var row := Row(k - 1, n);
    assert Schedule(k, n) == prev + row;
    ScheduleLength(k - 1, n);
    assert |row| == n;
    if i == k - 1 {
      assert i * n == |prev|;
    } else {
      ScheduleAt(k - 1, n, i, q);
      RowBefore(i, k - 1, n, q);
      assert i * n + q < |prev|;
    }
  }

  /** Deme `i`'s row occupies positions i*n .. i*n+n-1 of the schedule of
      `n` demes, so every call made for deme `i` precedes every call made
      for deme `i + 1`: first its own step, then its contact with each
      other deme `j` in index order. */
  lemma ScheduleOrder(n: nat, i: nat, j: nat)
    requires i < n && j < n
    ensures |Schedule(n, n)| == n * n
    ensures i * n < |Schedule(n, n)| && Schedule(n, n)[i * n] == DemeStep(i)
    ensures j != i ==>
      i * n + Slot(i, j) < |Schedule(n, n)| && Schedule(n, n)[i * n + Slot(i, j)] == BetweenDemeContact(i, j)
  {
    ScheduleLength(n, n);
    RowSpec(i, n);
    ScheduleAt(n, n, i, 0);
    if j != i {
      ScheduleAt(n, n, i, Slot(i, j));
    }
  }

  lemma MultiplyLe(a: nat, b: nat, n: nat)
    requires a <= b
    ensures a * n <= b * n
  {
  }

  /** Position q of row i lies before row m when i < m. */
  lemma RowBefore(i: nat, m: nat, n: nat, q: nat)
    requires i < m && q < n
    ensures i * n + q < m * n
  {
    MultiplyLe(i + 1, m, n);
    assert (i + 1) * n == i * n + n;
  }

  class Simulation {
    const demes: seq<HostPopulation>
    var day: int
    var diversity: Double
    var tmrca: Double
    var netau: Double

    /** A simulation over already built demes; the estimator fields start at
        Java's default 0.0. */
    constructor (demes: seq<HostPopulation>)
      ensures this.demes == demes && day == 0
      ensures diversity == Finite(0.0) && tmrca == Finite(0.0) && netau == Finite(0.0)
    {
      this.demes := demes;
      day := 0;
      diversity := Finite(0.0);
      tmrca := Finite(0.0);
      netau := Finite(0.0);
    }

    /** Every host of every deme. */
    ghost function Hosts(): set<Host>
      reads demes
    {
      (set d, h | d in demes && h in d.susceptibles :: h) + (set d, h | d in demes && h in d.infecteds :: h)
    }

    /** The hosts of deme `i` are among the hosts of the simulation. */
    lemma DemeHosts(i: nat)
      requires i < |demes|
      ensures forall h :: h in demes[i].susceptibles ==> h in Hosts()
      ensures forall h :: h in demes[i].infecteds ==> h in Hosts()
    {
      var d := demes[i];
      assert d in demes;
    }

    ghost predicate Valid()
      reads demes, Hosts()
    {
      forall i :: 0 <= i < |demes| ==> (DemeHosts(i); demes[i].Valid())
    }

    /** getN, getS, getI and getCases: an accumulator loop over the demes. */
    method Total(m: Measure) returns (count: nat)
      ensures count == Sum(Counts(demes, m))
    {
      ghost var c := Counts(demes, m);
      count := 0;
      var i := 0;
      assert c[..0] == [];
      while i < |demes|
        invariant 0 <= i <= |demes|
        invariant count == Sum(c[..i])
      {
        SumSnoc(c, i);
        assert c[i] == demes[i].Count(m);
        count := count + demes[i].Count(m);
        i := i + 1;
      }
      assert c[..|demes|] == c;
    }

    /** The virus getRandomInfection returns for `draw`: null when nothing
        is infected, otherwise the drawn infected host's virus in the deme
        whose slice of the prevalence total holds the draw. */
    function Pick(draw: InfectionDraw): Virus?
      reads demes, Hosts()
      requires DrawFits(Counts(demes, I), draw)
    {
      var c := Counts(demes, I);
      if Sum(c) == 0 then null
      else
        var d := FirstOver(c, draw.prevalence);
        DemeHosts(d);
        demes[d].infecteds[draw.host].infection
    }

    /** In a valid simulation a random infection is found exactly when some
        deme has an infected host: the drawn host always carries a virus. */
    lemma PickFound(draw: InfectionDraw)
      requires Valid() && DrawFits(Counts(demes, I), draw)
      ensures Pick(draw) == null <==> Sum(Counts(demes, I)) == 0
    {
      var c := Counts(demes, I);
      if Sum(c) > 0 {
        var d := FirstOver(c, draw.prevalence);
        DemeHosts(d);
        assert demes[d].Valid();
        assert demes[d].infecteds[draw.host] in demes[d].infecteds;
      }
    }

    /** The viruses drawn for each sampled pair. */
    function Picks(draws: seq<DrawPair>): (ps: seq<Pair>)
      reads demes, Hosts()
      requires AllFit(Counts(demes, I), draws)
      ensures |ps| == |draws|
      ensures forall k :: 0 <= k < |draws| ==> ps[k] == Pair(Pick(draws[k].first), Pick(draws[k].second))
    {
      if draws == [] then []
      else
        var last := draws[|draws| - 1];
        Picks(draws[..|draws| - 1]) + [Pair(Pick(last.first), Pick(last.second))]
    }

    /** The walk of getRandomInfection that turns a draw below the total
        prevalence into a deme: the first deme whose running total of
        infecteds exceeds the draw. */
    method ChooseDeme(n: nat) returns (d: nat)
      requires n < Sum(Counts(demes, I))
      ensures d == FirstOver(Counts(demes, I), n)
    {
      ghost var c := Counts(demes, I);
      d := 0;
      var target := demes[0].Count(I);
      SumSnoc(c, 0);
      while d < |demes|
        invariant 0 <= d < |demes|
        invariant target == Sum(c[..d + 1]) && Sum(c[..d]) <= n
        decreases |demes| - d
      {
        if n < target {
          break;
        }
        WalkContinues(c, n, d);
        d := d + 1;
        target := target + demes[d].Count(I);
        SumSnoc(c, d);
      }
      FirstOverUnique(c, n, d);
    }

    /** getRandomInfection: a virus drawn in proportion to each deme's
        prevalence (the walk above, then the drawn host of the chosen
        deme), or null when nobody is infected. */
    method GetRandomInfection(draw: InfectionDraw) returns (v: Virus?)
      requires DrawFits(Counts(demes, I), draw)
      ensures v == Pick(draw)
      ensures Sum(Counts(demes, I)) == 0 ==> v == null
      ensures Sum(Counts(demes, I)) > 0 ==>
        var d := FirstOver(Counts(demes, I), draw.prevalence);
        draw.host < |demes[d].infecteds| && v == demes[d].infecteds[draw.host].infection
    {
      v := null;
      var total := Total(I);
      if total > 0 {
        var d := ChooseDeme(draw.prevalence);
        var hp := demes[d];
        if hp.Count(I) > 0 {
          var h := hp.infecteds[draw.host];
          v := h.infection;
        }
      }
    }

    /** The accumulation loop of updateDiversity over the drawn pairs: a
        pair with both viruses present adds its distance to the sum and
        raises the maximum when larger. */
    static method SampleDistances(ps: seq<Pair>, distance: (Virus, Virus) -> real)
      returns (sum: real, longest: real)
      ensures sum == DistanceSum(ps, distance) && longest == MaxDistance(ps, distance)
    {
      sum := 0.0;
      longest := 0.0;
      var i := 0;
      while i < |ps|
        invariant 0 <= i <= |ps|
        invariant sum == DistanceSum(ps[..i], distance)
        invariant longest == MaxDistance(ps[..i], distance)
      {
        var vA, vB := ps[i].first, ps[i].second;
        DistanceStep(ps, i, distance);
        if vA != null && vB != null {
          var dist := distance(vA, vB);
          sum := sum + dist;
          if dist > longest {
            longest := dist;
          }
        }
        i := i + 1;
      }
      assert ps[..|ps|] == ps;
    }

    /** updateDiversity: each sample draws two random infections; the
        diversity is the distance sum over the number of samples, skipped
        pairs included, and the TMRCA half the largest distance. */
    method UpdateDiversity(draws: seq<DrawPair>, distance: (Virus, Virus) -> real)
      requires AllFit(Counts(demes, I), draws)
      modifies this
      ensures diversity == Divide(DistanceSum(old(Picks(draws)), distance), |draws| as real)
      ensures tmrca == Finite(MaxDistance(old(Picks(draws)), distance) / 2.0)
      ensures |draws| == 0 ==> diversity == NaN
      ensures netau == old(netau) && day == old(day)
    {
      var ps := Picks(draws);
      var sum, longest := SampleDistances(ps, distance);
      assert |draws| == 0 ==> sum == 0.0;
      diversity := Divide(sum, |draws| as real);
      tmrca := Finite(longest / 2.0);
      assert ps == old(Picks(draws));
    }

    /** The accumulation loop of updateNetau over the drawn pairs: a pair
        with both viruses present adds one window to the opportunity and
        its coalescence count to the count. */
    static method SampleCoalescences(ps: seq<Pair>, coalescence: (Virus, Virus, real) -> real, window: real)
      returns (opportunity: real, count: real)
      ensures opportunity == Opportunity(ps, window)
      ensures count == CoalescenceSum(ps, coalescence, window)
    {
      opportunity := 0.0;
      count := 0.0;
      var i := 0;
      while i < |ps|
        invariant 0 <= i <= |ps|
        invariant opportunity == Opportunity(ps[..i], window)
        invariant count == CoalescenceSum(ps[..i], coalescence, window)
      {
        var vA, vB := ps[i].first, ps[i].second;
        CoalescenceStep(ps, i, coalescence, window);
        if vA != null && vB != null {
          opportunity := opportunity + window;
          count := count + coalescence(vA, vB, window);
        }
        i := i + 1;
      }
      assert ps[..|ps|] == ps;
    }

    /** updateNetau: each sample draws two random infections; the window is
        netauWindow days in years, and Ne*tau is the opportunity over the
        coalescence count, with no guard for a zero count. */
    method UpdateNetau(draws: seq<DrawPair>, coalescence: (Virus, Virus, real) -> real, netauWindow: int)
      requires AllFit(Counts(demes, I), draws)
      modifies this
      ensures netau == Netau(old(Picks(draws)), coalescence, netauWindow as real / 365.0)
      ensures diversity == old(diversity) && tmrca == old(tmrca) && day == old(day)
    {
      var ps := Picks(draws);
      var window := netauWindow as real / 365.0;
      var opportunity, count := SampleCoalescences(ps, coalescence, window);
      netau := Divide(opportunity, count);
    }

    /** resetCases: every deme's counter goes to 0, so the total is 0. */
    method ResetCases()
      modifies demes
      ensures forall i :: 0 <= i < |demes| ==>
        && demes[i].cases == 0
        && demes[i].susceptibles == old(demes[i].susceptibles)
        && demes[i].infecteds == old(demes[i].infecteds)
      ensures Sum(Counts(demes, Cases)) == 0
    {
      var i := 0;
      while i < |demes|
        invariant 0 <= i <= |demes|
        invariant forall j :: 0 <= j < i ==> demes[j].cases == 0
        invariant forall j :: 0 <= j < |demes| ==>
          demes[j].susceptibles == old(demes[j].susceptibles) && demes[j].infecteds == old(demes[j].infecteds)
      {
        demes[i].ResetCases();
        i := i + 1;
      }
      SumZero(Counts(demes, Cases));
    }

    /** stepForward: for each deme in index order, its own step and then its
        contact with every other deme in index order; then the day advances. */
    method StepForward() returns (calls: seq<Call>)
      modifies this
      ensures calls == Schedule(|demes|, |demes|)
      ensures day == old(day) + 1
      ensures diversity == old(diversity) && tmrca == old(tmrca) && netau == old(netau)
    {
      calls := [];
      var i := 0;
      while i < |demes|
        invariant 0 <= i <= |demes|
        invariant calls == Schedule(i, |demes|)
      {
        calls := calls + [DemeStep(i)];
        var j := 0;
        while j < |demes|
          invariant 0 <= j <= |demes|
          invariant calls == Schedule(i, |demes|) + [DemeStep(i)] + Contacts(i, j)
        {
          if i != j {
            calls := calls + [BetweenDemeContact(i, j)];
          }
          j := j + 1;
        }
        i := i + 1;
      }
      day := day + 1;
    }

    /** reset: the day and the diversity go back to 0 (TMRCA and Ne*tau keep
        their values), every deme is reset in order and the tree is cleared. */
    method Reset() returns (calls: seq<Call>)
      modifies this
      ensures day == 0 && diversity == Finite(0.0)
      ensures tmrca == old(tmrca) && netau == old(netau)
      ensures |calls| == |demes| + 1 && calls[|demes|] == TreeClear
      ensures forall i :: 0 <= i < |demes| ==> calls[i] == DemeReset(i)
    {
      day := 0;
      diversity := Finite(0.0);
      calls := [];
      var i := 0;
      while i < |demes|
        invariant 0 <= i <= |demes| && |calls| == i
        invariant forall q :: 0 <= q < i ==> calls[q] == DemeReset(q)
      {
        calls := calls + [DemeReset(i)];
        i := i + 1;
      }
      calls := calls + [TreeClear];
    }
  }
}

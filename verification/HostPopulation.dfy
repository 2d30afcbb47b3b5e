/**
 * A deme: its hosts split into a susceptible list and an infected list, and
 * a counter of the transmissions since the last reset. Each daily event is
 * a batch of guarded trials over the lists; the drawn counts, indices and
 * Bernoulli outcomes are the method's inputs.
 */
module PopulationModel {
  import opened Viruses
  import opened HostModel
  import opened Events
  import Parameters

  /** The trait value of the immunity some initial susceptibles start with. */
  const PreImmunityTrait: real := -0.25

  /** The outcome of one mutation trial: the drawn infected index and the
      mutated copy of that host's phenotype. */
  datatype MutationDraw = MutationDraw(index: nat, mutated: Phenotype)

  /** The per-deme quantities the simulation sums over demes. */
  datatype Measure = N | S | I | Cases

  /** The host at index `i` as a frame; empty when `i` is out of range. */
  function At(s: seq<Host>, i: nat): set<Host> {
    if i < |s| then {s[i]} else {}
  }

  /** The mutated phenotypes a batch of mutation draws installs at infected
      index `j`, in draw order. */
  function Mutations(draws: seq<MutationDraw>, j: nat): seq<Phenotype> {
    if draws == [] then []
    else
      var last := draws[|draws| - 1];
      Mutations(draws[..|draws| - 1], j) + (if last.index == j then [last.mutated] else [])
  }

  /** Host `h` carries what a batch with mutations `ms` at its index leaves
      behind, starting from virus `v0`: `v0` itself when there were none,
      otherwise a descendant of `v0` with the last mutated phenotype. */
  ghost predicate Carries(h: Host, v0: Virus?, ms: seq<Phenotype>)
    reads h, h.infection
  {
    if ms == [] then h.infection == v0
    else h.infection != null && v0 in h.infection.lineage && h.infection.phenotype == ms[|ms| - 1]
  }

  /** One more draw of the batch: it adds its phenotype to index `j`'s
      mutations exactly when it picks `j`. */
  lemma MutationsStep(draws: seq<MutationDraw>, k: nat, j: nat)
    requires k < |draws|
    ensures Mutations(draws[..k + 1], j)
      == Mutations(draws[..k], j) + (if draws[k].index == j then [draws[k].mutated] else [])
  {
    assert draws[..k + 1][..k] == draws[..k];
  }

  class HostPopulation {
    var susceptibles: seq<Host>
    var infecteds: seq<Host>
    var cases: nat

    /** S and I partition the hosts: every susceptible is uninfected, every
        infected host carries a well-formed virus, and no host is listed twice. */
    ghost predicate Valid()
      reads this, susceptibles, infecteds
    {
      && (forall h :: h in susceptibles ==> h.infection == null)
      && (forall h :: h in infecteds ==> h.infection != null && h.infection.ChainOk())
      && Distinct(susceptibles)
      && Distinct(infecteds)
    }

    function State(): Lists<Host>
      reads this
    {
      Lists(susceptibles, infecteds, cases)
    }

    /** getN, getS, getI and getCases. */
    function Count(m: Measure): nat
      reads this
    {
      match m
      case N => |susceptibles| + |infecteds|
      case S => |susceptibles|
      case I => |infecteds|
      case Cases => cases
    }

    /** Every virus on the parent chain of some infected host's virus. */
    ghost function TrunkSet(): set<Virus>
      reads this, infecteds
    {
      set h, v | h in infecteds && h.infection != null && v in h.infection.Chain() :: v
    }

    /** The initial deme: `InitialN - InitialI` naive susceptibles, each
        pre-immunised to the fixed trait when its draw in `immunized` says
        so, and `InitialI` infected hosts whose viruses all derive from one
        shared ur-virus. */
    constructor (immunized: seq<bool>, urPhenotype: Phenotype)
      requires |immunized| == Parameters.InitialN - Parameters.InitialI
      ensures Valid() && cases == 0
      ensures |susceptibles| == Parameters.InitialN - Parameters.InitialI
      ensures forall k :: 0 <= k < |susceptibles| ==>
        && fresh(susceptibles[k])
        && susceptibles[k].immuneHistory
             == (if immunized[k] then [Phenotype(PreImmunityTrait)] else [])
      ensures |infecteds| == Parameters.InitialI
      ensures forall k :: 0 <= k < |infecteds| ==>
        fresh(infecteds[k]) && fresh(infecteds[k].infection) && infecteds[k].immuneHistory == []
      ensures exists ur: Virus ::
        && fresh(ur) && ur.parent == null && ur.phenotype == urPhenotype
        && (forall k :: 0 <= k < |infecteds| ==> infecteds[k].infection.parent == ur)
    {
      var ss: seq<Host> := [];
      var i := 0;
      while i < |immunized|
        invariant 0 <= i <= |immunized| && |ss| == i
        invariant forall k :: 0 <= k < i ==>
          && fresh(ss[k]) && ss[k].infection == null
          && ss[k].immuneHistory == (if immunized[k] then [Phenotype(PreImmunityTrait)] else [])
        invariant Distinct(ss)
      {
        var h := new Host();
        if immunized[i] {
          var p := Phenotype(PreImmunityTrait);
          var history := h.GetHistory();
          h.immuneHistory := history + [p];
        }
        ss := ss + [h];
        i := i + 1;
      }
      var urV := new Virus.Root(urPhenotype);
      var ins: seq<Host> := [];
      i := 0;
      while i < Parameters.InitialI
        invariant 0 <= i <= Parameters.InitialI && |ins| == i
        invariant forall k :: 0 <= k < i ==>
          && fresh(ins[k]) && fresh(ins[k].infection) && ins[k].infection != urV
          && ins[k].infection.parent == urV && ins[k].infection.ChainOk()
          && ins[k].immuneHistory == []
        invariant Distinct(ins)
        invariant urV.parent == null && urV.phenotype == urPhenotype && urV.ChainOk()
        invariant forall k :: 0 <= k < |ss| ==>
          && ss[k].infection == null
          && ss[k].immuneHistory == (if immunized[k] then [Phenotype(PreImmunityTrait)] else [])
      {
        var v := new Virus.Derived(urV);
        var h := new Host.Infected(v);
        ins := ins + [h];
        i := i + 1;
      }
      susceptibles := ss;
      infecteds := ins;
      cases := 0;
    }

    method ResetCases()
      modifies this
      ensures cases == 0
      ensures susceptibles == old(susceptibles) && infecteds == old(infecteds)
    {
      cases := 0;
    }

    /** Births: `births` naive hosts are appended to the susceptibles. */
    method Grow(births: nat)
      requires Valid()
      modifies this
      ensures Valid()
      ensures |susceptibles| == old(|susceptibles|) + births
      ensures susceptibles[..old(|susceptibles|)] == old(susceptibles)
      ensures forall k :: old(|susceptibles|) <= k < |susceptibles| ==>
        fresh(susceptibles[k]) && susceptibles[k].infection == null && susceptibles[k].immuneHistory == []
      ensures infecteds == old(infecteds) && cases == old(cases)
    {
      var i := 0;
      while i < births
        invariant 0 <= i <= births
        invariant Valid()
        invariant |susceptibles| == old(|susceptibles|) + i
        invariant susceptibles[..old(|susceptibles|)] == old(susceptibles)
        invariant forall k :: old(|susceptibles|) <= k < |susceptibles| ==>
          fresh(susceptibles[k]) && susceptibles[k].infection == null && susceptibles[k].immuneHistory == []
        invariant infecteds == old(infecteds) && cases == old(cases)
      {
        var h := new Host();
        susceptibles := susceptibles + [h];
        i := i + 1;
      }
    }

    /** Deaths: `sDeaths` are the index draws of the susceptible batch and
        `iDeaths` those of the infected batch; a trial on an empty class is
        skipped and a death is a shifting removal. */
    method Decline(sDeaths: seq<nat>, iDeaths: seq<nat>)
      requires Valid()
      requires InRange(|susceptibles|, sDeaths) && InRange(|infecteds|, iDeaths)
      modifies this
      ensures Valid()
      ensures State() == Events.Decline(old(State()), sDeaths, iDeaths)
    {
      var s, v := susceptibles, infecteds;
      var i := 0;
      while i < |sDeaths|
        invariant 0 <= i <= |sDeaths|
        invariant InRange(|s|, sDeaths[i..])
        invariant Thin(s, sDeaths[i..]) == Thin(old(susceptibles), sDeaths)
        invariant Distinct(s) && forall h :: h in s ==> h in old(susceptibles)
        modifies {}
      {
        ThinAt(s, sDeaths, i);
        if |s| > 0 {
          var sndex := sDeaths[i];
          RemoveAtDistinct(s, sndex);
          s := RemoveAt(s, sndex);
        }
        i := i + 1;
      }
      var j := 0;
      while j < |iDeaths|
        invariant 0 <= j <= |iDeaths|
        invariant InRange(|v|, iDeaths[j..])
        invariant Thin(v, iDeaths[j..]) == Thin(old(infecteds), iDeaths)
        invariant Distinct(v) && forall h :: h in v ==> h in old(infecteds)
        modifies {}
      {
        ThinAt(v, iDeaths, j);
        if |v| > 0 {
          var index := iDeaths[j];
          RemoveAtDistinct(v, index);
          v := RemoveAt(v, index);
        }
        j := j + 1;
      }
      assert sDeaths[i..] == [] && iDeaths[j..] == [];
      susceptibles, infecteds := s, v;
    }

    /** Contacts: a trial runs only when both classes are non-empty; on
        transmission the recipient is infected with a virus derived from the
        transmitter's, leaves S, joins the end of I and counts as a case. */
    method Contact(draws: seq<ContactDraw>)
      requires Valid()
      requires ContactInRange(|susceptibles|, |infecteds|, draws)
      modifies this, susceptibles
      ensures Valid()
      ensures State() == Events.Contact(old(State()), draws)
      ensures forall h :: h in old(infecteds) ==>
        h.infection == old(h.infection) && h.immuneHistory == old(h.immuneHistory)
      ensures forall h :: h in old(susceptibles) ==> h.immuneHistory == old(h.immuneHistory)
      ensures forall h :: h in infecteds && h !in old(infecteds) ==>
        && h in old(susceptibles) && fresh(h.infection)
        && h.infection.parent != null && h.infection.phenotype == h.infection.parent.phenotype
        && exists g :: g in infecteds && g.infection == h.infection.parent
    {
      var k := 0;
      while k < |draws|
        invariant 0 <= k <= |draws|
        invariant Valid()
        invariant ContactInRange(|susceptibles|, |infecteds|, draws[k..])
        invariant Events.Contact(State(), draws[k..]) == Events.Contact(old(State()), draws)
        invariant forall h :: h in susceptibles ==> h in old(susceptibles)
        invariant forall h :: h in old(infecteds) ==>
          h in infecteds && h.infection == old(h.infection) && h.immuneHistory == old(h.immuneHistory)
        invariant forall h :: h in old(susceptibles) ==> h.immuneHistory == old(h.immuneHistory)
        invariant forall h :: h in infecteds && h !in old(infecteds) ==> h in old(susceptibles) && fresh(h.infection)
        invariant forall h :: h in infecteds && h !in old(infecteds) ==>
          && h.infection != null && h.infection.parent != null && h.infection.phenotype == h.infection.parent.phenotype
          && exists g :: g in infecteds && g.infection == h.infection.parent
      {
        ContactAt(State(), draws, k);
        assert forall o :: o in At(susceptibles, draws[k].susceptibleIndex) ==> o in old(susceptibles);
        ContactOnce(draws[k]);
        k := k + 1;
      }
    }

    /** One contact trial, the body of the loop in Contact. Only the drawn
        susceptible host can change. */
    method ContactOnce(d: ContactDraw)
      requires Valid()
      requires |susceptibles| > 0 && |infecteds| > 0 ==>
        d.infectedIndex < |infecteds| && d.susceptibleIndex < |susceptibles|
      modifies this, At(susceptibles, d.susceptibleIndex)
      ensures Valid()
      ensures State() == ContactTrial(old(State()), d)
      ensures forall h :: h in old(infecteds) ==>
        h in infecteds && h.infection == old(h.infection) && h.immuneHistory == old(h.immuneHistory)
      ensures forall h :: h in old(susceptibles) ==> h.immuneHistory == old(h.immuneHistory)
      ensures forall h :: h in infecteds && h !in old(infecteds) ==>
        && h in old(susceptibles) && fresh(h.infection)
        && h.infection.parent != null && h.infection.phenotype == h.infection.parent.phenotype
        && exists g :: g in old(infecteds) && g.infection == h.infection.parent
      ensures |old(susceptibles)| > 0 && |old(infecteds)| > 0 && d.transmits ==>
        var r := old(susceptibles)[d.susceptibleIndex];
        && fresh(r.infection)
        && r.infection.parent == old(infecteds[d.infectedIndex].infection)
        && r.infection.phenotype == old(infecteds[d.infectedIndex].infection.phenotype)
        && !r.infection.trunk
    {
      if |susceptibles| > 0 && |infecteds| > 0 {
        var iH := infecteds[d.infectedIndex];
        var sH := susceptibles[d.susceptibleIndex];
        var v := iH.infection;
        if d.transmits {
          assert sH in susceptibles && sH !in infecteds;
          RemoveAtDistinct(susceptibles, d.susceptibleIndex);
          sH.Infect(v);
          susceptibles := RemoveAt(susceptibles, d.susceptibleIndex);
          infecteds := infecteds + [sH];
          cases := cases + 1;
          assert iH in old(infecteds);
        }
      }
    }

    /** Recoveries: a trial on an empty I is skipped; otherwise the drawn
        host clears its infection (its history grows by that phenotype),
        leaves I and joins the end of S. */
    method Recover(draws: seq<nat>)
      requires Valid()
      requires InRange(|infecteds|, draws)
      modifies this, infecteds
      ensures Valid()
      ensures State() == Events.Recover(old(State()), draws)
      ensures forall h :: h in old(susceptibles) ==>
        h.infection == old(h.infection) && h.immuneHistory == old(h.immuneHistory)
      ensures forall h :: h in old(infecteds) ==>
        if h in infecteds then
          h.infection == old(h.infection) && h.immuneHistory == old(h.immuneHistory)
        else
          h in susceptibles && h.infection == null &&
          h.immuneHistory == old(h.immuneHistory) + [old(h.infection.phenotype)]
    {
      ghost var cur := State();
      ghost var target := Events.Recover(cur, draws);
      var k := 0;
      while k < |draws|
        invariant 0 <= k <= |draws|
        invariant Valid()
        invariant InRange(|cur.infecteds|, draws[k..])
        invariant cur == State()
        invariant Events.Recover(cur, draws[k..]) == target
        invariant forall h :: h in infecteds ==> h in old(infecteds)
        invariant forall h :: h in old(susceptibles) ==>
          h in susceptibles && h.infection == old(h.infection) && h.immuneHistory == old(h.immuneHistory)
        invariant forall h :: h in old(infecteds) ==>
          if h in infecteds then
            h.infection == old(h.infection) && h.immuneHistory == old(h.immuneHistory)
          else
            h in susceptibles && h.infection == null &&
            h.immuneHistory == old(h.immuneHistory) + [old(h.infection.phenotype)]
      {
        RecoverAt(cur, draws, k);
        assert forall o :: o in At(infecteds, draws[k]) ==> o in old(infecteds);
        RecoverOnce(draws[k]);
        cur := RecoverTrial(cur, draws[k]);
        k := k + 1;
      }
    }

    /** One recovery trial, the body of the loop in Recover. Only the drawn
        infected host can change. */
    method RecoverOnce(index: nat)
      requires Valid()
      requires |infecteds| > 0 ==> index < |infecteds|
      modifies this, At(infecteds, index)
      ensures Valid()
      ensures State() == RecoverTrial(old(State()), index)
      ensures forall h :: h in old(susceptibles) ==>
        h in susceptibles && h.infection == old(h.infection) && h.immuneHistory == old(h.immuneHistory)
      ensures forall h :: h in infecteds ==> h in old(infecteds)
      ensures forall h :: h in old(infecteds) && h in infecteds ==>
        h.infection == old(h.infection) && h.immuneHistory == old(h.immuneHistory)
      ensures forall h :: h in old(infecteds) && h !in infecteds ==>
        && h in susceptibles && h.infection == null
        && h.immuneHistory == old(h.immuneHistory) + [old(h.infection.phenotype)]
    {
      if |infecteds| > 0 {
        var h := infecteds[index];
        assert h !in susceptibles;
        RemoveAtDistinct(infecteds, index);
        h.ClearInfection();
        infecteds := RemoveAt(infecteds, index);
        susceptibles := susceptibles + [h];
      }
    }

    /** Mutations: a trial on an empty I is skipped; otherwise the drawn
        host's virus is replaced by a mutated descendant. The lists, the
        histories and every earlier virus stay as they were. */
    method Mutate(draws: seq<MutationDraw>)
      requires Valid()
      requires |infecteds| > 0 ==> forall k :: 0 <= k < |draws| ==> draws[k].index < |infecteds|
      modifies infecteds
      ensures Valid() && State() == old(State())
      ensures forall h :: h in susceptibles ==> h.infection == null && h.immuneHistory == old(h.immuneHistory)
      ensures forall j :: 0 <= j < |infecteds| ==>
        && infecteds[j].immuneHistory == old(infecteds[j].immuneHistory)
        && var ms := Mutations(draws, j);
           if ms == [] then
             infecteds[j].infection == old(infecteds[j].infection)
           else
             && fresh(infecteds[j].infection)
             && old(infecteds[j].infection) in infecteds[j].infection.lineage
             && infecteds[j].infection.phenotype == ms[|ms| - 1]
    {
      MutateAll(draws, Infections(infecteds));
    }

    /** The loop of Mutate, stated through Carries on the viruses `v0s` the
        infected hosts carried before the batch. */
    method MutateAll(draws: seq<MutationDraw>, ghost v0s: seq<Virus?>)
      requires Valid() && v0s == Infections(infecteds)
      requires |infecteds| > 0 ==> forall k :: 0 <= k < |draws| ==> draws[k].index < |infecteds|
      modifies infecteds
      ensures Valid() && State() == old(State())
      ensures forall h :: h in susceptibles ==> h.infection == null && h.immuneHistory == old(h.immuneHistory)
      ensures forall j :: 0 <= j < |infecteds| ==> infecteds[j].immuneHistory == old(infecteds[j].immuneHistory)
      ensures forall j :: 0 <= j < |infecteds| ==> Carries(infecteds[j], v0s[j], Mutations(draws, j))
      ensures forall j :: 0 <= j < |infecteds| ==> Mutations(draws, j) != [] ==> fresh(infecteds[j].infection)
    {
      var k := 0;
      assert draws[..0] == [];
      while k < |draws|
        invariant 0 <= k <= |draws|
        invariant Valid() && State() == old(State())
        invariant forall h :: h in susceptibles ==> h.infection == null && h.immuneHistory == old(h.immuneHistory)
        invariant forall j :: 0 <= j < |infecteds| ==> infecteds[j].immuneHistory == old(infecteds[j].immuneHistory)
        invariant forall j :: 0 <= j < |infecteds| ==> Carries(infecteds[j], v0s[j], Mutations(draws[..k], j))
        invariant forall j :: 0 <= j < |infecteds| ==> Mutations(draws[..k], j) != [] ==> fresh(infecteds[j].infection)
      {
        MutateStep(draws, k, v0s);
        k := k + 1;
      }
      assert draws[..|draws|] == draws;
    }

    /** The infections the hosts `hs` carry, in list order. */
    static ghost function Infections(hs: seq<Host>): (vs: seq<Virus?>)
      reads set h | h in hs
      ensures |vs| == |hs| && forall j :: 0 <= j < |hs| ==> vs[j] == hs[j].infection
    {
      if hs == [] then [] else [hs[0].infection] + Infections(hs[1..])
    }

    /** Draw `k` of a mutation batch, the body of the loop in Mutate: the
        drawn host's mutations grow by the drawn phenotype, every other
        host's stay as they were. */
    method MutateStep(draws: seq<MutationDraw>, k: nat, ghost v0s: seq<Virus?>)
      requires Valid() && k < |draws| && |v0s| == |infecteds|
      requires |infecteds| > 0 ==> draws[k].index < |infecteds|
      requires forall j :: 0 <= j < |infecteds| ==> Carries(infecteds[j], v0s[j], Mutations(draws[..k], j))
      modifies infecteds
      ensures Valid() && State() == old(State())
      ensures forall h :: h in susceptibles ==> h.infection == old(h.infection) && h.immuneHistory == old(h.immuneHistory)
      ensures forall j :: 0 <= j < |infecteds| ==> infecteds[j].immuneHistory == old(infecteds[j].immuneHistory)
      ensures forall j :: 0 <= j < |infecteds| ==> Carries(infecteds[j], v0s[j], Mutations(draws[..k + 1], j))
      ensures forall j :: 0 <= j < |infecteds| ==>
        if j == draws[k].index then fresh(infecteds[j].infection)
        else infecteds[j].infection == old(infecteds[j].infection) && Mutations(draws[..k + 1], j) == Mutations(draws[..k], j)
    {
      MutateOnce(draws[k]);
      forall j | 0 <= j < |infecteds|
        ensures Carries(infecteds[j], v0s[j], Mutations(draws[..k + 1], j))
        ensures j != draws[k].index ==> Mutations(draws[..k + 1], j) == Mutations(draws[..k], j)
      {
        MutationsStep(draws, k, j);
        var h := infecteds[j];
        if j == draws[k].index {
          assert h.infection.lineage == [old(h.infection)] + old(h.infection).lineage;
        } else {
          assert h.infection == old(h.infection);
          assert h.infection.phenotype == old(h.infection.phenotype);
        }
      }
    }

    /** One mutation trial, the body of the loop in Mutate. Only the drawn
        infected host can change, and its old virus is left as it was. */
    method MutateOnce(d: MutationDraw)
      requires Valid()
      requires |infecteds| > 0 ==> d.index < |infecteds|
      modifies At(infecteds, d.index)
      ensures Valid() && State() == old(State())
      ensures forall h :: h in susceptibles ==> h.infection == old(h.infection) && h.immuneHistory == old(h.immuneHistory)
      ensures forall j :: 0 <= j < |infecteds| ==>
        && infecteds[j].immuneHistory == old(infecteds[j].immuneHistory)
        && if j == d.index then
             && fresh(infecteds[j].infection)
             && infecteds[j].infection.lineage == [old(infecteds[j].infection)] + old(infecteds[j].infection).lineage
           else
             infecteds[j].infection == old(infecteds[j].infection)
      ensures |infecteds| > 0 ==>
        infecteds[d.index].infection.phenotype == d.mutated && !infecteds[d.index].infection.trunk
    {
      if |infecteds| > 0 {
        var h := infecteds[d.index];
        assert h !in susceptibles;
        assert forall j :: 0 <= j < |infecteds| && j != d.index ==> infecteds[j] != h;
        h.Mutate(d.mutated);
      }
    }

    /** Sampling: with an empty I every trial is skipped; otherwise each
        trial returns the current virus of the drawn infected host. */
    method Sample(draws: seq<nat>) returns (tips: seq<Virus?>)
      requires |infecteds| > 0 ==> forall k :: 0 <= k < |draws| ==> draws[k] < |infecteds|
      ensures |tips| == (if |infecteds| > 0 then |draws| else 0)
      ensures forall k :: 0 <= k < |tips| ==> tips[k] == infecteds[draws[k]].infection
      ensures Valid() ==> forall k :: 0 <= k < |tips| ==> tips[k] != null
    {
      tips := [];
      var k := 0;
      while k < |draws|
        invariant 0 <= k <= |draws|
        invariant |tips| == (if |infecteds| > 0 then k else 0)
        invariant forall q :: 0 <= q < |tips| ==> tips[q] == infecteds[draws[q]].infection
      {
        if |infecteds| > 0 {
          var h := infecteds[draws[k]];
          tips := tips + [h.infection];
        }
        k := k + 1;
      }
    }

    /** Trunk marking: the whole parent chain of every infected host's
        virus, up to and including its root, gets its trunk flag set (the
        walk does not stop at an ancestor already marked). */
    method MakeTrunk()
      requires Valid()
      modifies TrunkSet()
      ensures forall v :: v in TrunkSet() ==> v.trunk && v.phenotype == old(v.phenotype)
    {
      ghost var trunk := TrunkSet();
      ghost var chains: seq<seq<Virus>> := Chains(infecteds);
      var i := 0;
      while i < |infecteds|
        invariant 0 <= i <= |infecteds|
        invariant forall j: int, w: Virus :: 0 <= j < i && w in chains[j] ==> w.trunk
        invariant forall w :: w in trunk ==> w.phenotype == old(w.phenotype)
      {
        var h := infecteds[i];
        assert chains[i] == h.infection.Chain();
        forall w | w in h.infection.Chain() ensures w in trunk {
          assert h in infecteds && h.infection != null;
        }
        label before:
        MarkToRoot(h.infection);
        forall j: int, w: Virus | 0 <= j <= i && w in chains[j] ensures w.trunk {
          if j < i {
            assert old@before(w.trunk);
          }
        }
        i := i + 1;
      }
      forall w | w in trunk ensures w.trunk {
        var h, u :| h in infecteds && old(h.infection) != null && u in old(h.infection).Chain() && u == w;
        var j :| 0 <= j < |infecteds| && infecteds[j] == h;
        assert w in chains[j];
      }
      assert TrunkSet() == trunk;
    }
  }

  /** The parent chain of each host's virus, host by host. */
  ghost function Chains(hosts: seq<Host>): (r: seq<seq<Virus>>)
    requires forall h :: h in hosts ==> h.infection != null
    reads set h | h in hosts
    ensures |r| == |hosts|
    ensures forall j :: 0 <= j < |hosts| ==> r[j] == hosts[j].infection.Chain()
  {
    if hosts == [] then []
    else Chains(hosts[..|hosts| - 1]) + [hosts[|hosts| - 1].infection.Chain()]
  }

  /** The inner walk of makeTrunk: mark `v`, then follow parent links to
      the root, marking every virus on the way. */
  method MarkToRoot(v: Virus)
    requires v.ChainOk()
    modifies v.Chain()
    ensures forall w :: w in v.Chain() ==> w.trunk && w.phenotype == old(w.phenotype)
    ensures forall w: Virus :: old(allocated(w)) && old(w.trunk) ==> w.trunk
  {
    ghost var chain := v.Chain();
    var u: Virus := v;
    u.MakeTrunk();
    ghost var m := 0;
    while u.parent != null
      invariant 0 <= m < |chain| && u.ChainOk() && chain[m..] == u.Chain()
      invariant forall q :: 0 <= q <= m ==> chain[q].trunk
      invariant forall w :: w in chain ==> w.phenotype == old(w.phenotype)
      decreases |u.lineage|
    {
      assert chain[m + 1..] == chain[m..][1..] == u.parent.Chain();
      u := u.parent;
      m := m + 1;
      assert u == chain[m..][0] == chain[m];
      u.MakeTrunk();
    }
    assert m == |chain| - 1;
    forall w | w in chain ensures w.trunk {
      var q :| 0 <= q < |chain| && chain[q] == w;
    }
  }
}

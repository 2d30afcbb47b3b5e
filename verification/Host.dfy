/**
 * A host individual: it harbours at most one virus and remembers, in order,
 * the phenotypes of the infections it has cleared.
 */
module HostModel {
  import opened Viruses

  class Host {
    var infection: Virus?
    var immuneHistory: seq<Phenotype>

    /** A naive host: no infection and no immune history. */
    constructor ()
      ensures infection == null && immuneHistory == []
      ensures !IsInfected()
    {
      infection := null;
      immuneHistory := [];
    }

    /** An initially infected host carrying `v` itself. */
    constructor Infected(v: Virus)
      ensures infection == v && immuneHistory == []
      ensures IsInfected()
    {
      infection := v;
      immuneHistory := [];
    }

    predicate IsInfected()
      reads this
    {
      infection != null
    }

    /** The immune history; the population writes to it directly (getHistory
        hands out the live list). */
    function GetHistory(): seq<Phenotype>
      reads this
    {
      immuneHistory
    }

    /** Infection by a transmitter carrying `pV`: the host gets a new virus
        derived from `pV`, never `pV` itself; its history is untouched. */
    method Infect(pV: Virus)
      requires pV.ChainOk()
      modifies this
      ensures IsInfected() && fresh(infection) && infection != pV
      ensures infection.parent == pV && infection.phenotype == pV.phenotype
      ensures infection.lineage == [pV] + pV.lineage
      ensures infection.ChainOk() && !infection.trunk
      ensures immuneHistory == old(immuneHistory)
    {
      var nV := new Virus.Derived(pV);
      infection := nV;
    }

    /** Recovery: the phenotype of the current infection is appended to the
        end of the history once, and the infection slot is emptied. */
    method ClearInfection()
      requires IsInfected()
      modifies this
      ensures !IsInfected()
      ensures immuneHistory == old(immuneHistory) + [old(infection.phenotype)]
    {
      var p := infection.phenotype;
      immuneHistory := immuneHistory + [p];
      infection := null;
    }

    /** Mutation: a new virus whose parent is the previous infection and
        whose phenotype is `mutated`, the mutation outcome of a copy of the
        old phenotype. The previous virus is left as it was. */
    method Mutate(mutated: Phenotype)
      requires IsInfected() && infection.ChainOk()
      modifies this
      ensures IsInfected() && fresh(infection)
      ensures infection.parent == old(infection) && infection.phenotype == mutated
      ensures infection.lineage == [old(infection)] + old(infection).lineage
      ensures infection.ChainOk() && !infection.trunk
      ensures unchanged(old(infection))
      ensures immuneHistory == old(immuneHistory)
    {
      var nV := new Virus.Derived(infection);
      infection := nV;
      nV.SetPhenotype(mutated);
    }
  }
}

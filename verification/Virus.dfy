/**
 * Pathogen lineages. A virus owns a phenotype value, points back at the
 * virus it was derived from and carries a trunk flag used when the
 * genealogy is analysed after a run.
 */
module Viruses {

  /** An antigenic phenotype, a point on a one-dimensional trait axis.
      Being a value, a copy never shares state with its original. */
  datatype Phenotype = Phenotype(position: real)

  class Virus {
    /** The virus this one was derived from; null for a root (ur-virus). */
    const parent: Virus?
    /** Ancestors from the parent up to the root, nearest first. */
    ghost const lineage: seq<Virus>
    var phenotype: Phenotype
    var trunk: bool

    /** The lineage really is the chain of parent links ending at a root. */
    ghost predicate ChainOk()
      decreases |lineage|
    {
      if parent == null then lineage == []
      else lineage == [parent] + parent.lineage && parent.ChainOk()
    }

    /** This virus followed by all of its ancestors. */
    ghost function Chain(): (c: seq<Virus>)
      ensures |c| == |lineage| + 1 && c[0] == this && c[1..] == lineage
    {
      [this] + lineage
    }

    /** A root virus (Java's `Virus()`). */
    constructor Root(p: Phenotype)
      ensures parent == null && lineage == [] && ChainOk()
      ensures phenotype == p && !trunk
    {
      parent := null;
      lineage := [];
      phenotype := p;
      trunk := false;
    }

    /** A virus derived from `p`: it links to `p` and holds a copy of its phenotype. */
    constructor Derived(p: Virus)
      requires p.ChainOk()
      ensures parent == p && lineage == [p] + p.lineage && ChainOk()
      ensures phenotype == p.phenotype && !trunk
    {
      parent := p;
      lineage := [p] + p.lineage;
      phenotype := p.phenotype;
      trunk := false;
    }

    method SetPhenotype(p: Phenotype)
      modifies this
      ensures phenotype == p && trunk == old(trunk)
    {
      phenotype := p;
    }

    /** Sets the trunk flag; a flag once set is never cleared. */
    method MakeTrunk()
      modifies this
      ensures trunk && phenotype == old(phenotype)
    {
      trunk := true;
    }
  }
}

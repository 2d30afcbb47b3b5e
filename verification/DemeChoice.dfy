/**
 * The simulation's choice of a deme weighted by per-deme counts: sums of
 * counts, the prefix-sum walk of getRandomInfection, the draws it consumes,
 * and getRandomDeme's walk as written.
 */
module DemeChoice {

  datatype Option<T> = None | Some(value: T)

  function Sum(s: seq<nat>): nat {
    if s == [] then 0 else s[0] + Sum(s[1..])
  }

  lemma {:induction false} SumAppend(a: seq<nat>, b: seq<nat>)
    ensures Sum(a + b) == Sum(a) + Sum(b)
  {
    if a == [] {
      assert a + b == b;
    } else {
      assert (a + b)[1..] == a[1..] + b;
      SumAppend(a[1..], b);
    }
  }

  /** The running total of a loop over `s` grows by `s[i]` at step `i`. */
  lemma SumSnoc(s: seq<nat>, i: nat)
    requires i < |s|
    ensures Sum(s[..i + 1]) == Sum(s[..i]) + s[i]
  {
    assert s[..i + 1] == s[..i] + [s[i]];
    SumAppend(s[..i], [s[i]]);
    assert Sum([s[i]]) == s[i] + Sum([]);
  }

  lemma {:induction false} SumPrefixMonotone(s: seq<nat>, i: nat, j: nat)
    requires i <= j <= |s|
    ensures Sum(s[..i]) <= Sum(s[..j])
    decreases j
  {
    if i < j {
      SumPrefixMonotone(s, i, j - 1);
      SumSnoc(s, j - 1);
    }
  }

  /** A total is zero exactly when every count is zero. */
  lemma {:induction false} SumZero(s: seq<nat>)
    ensures Sum(s) == 0 <==> forall k :: 0 <= k < |s| ==> s[k] == 0
  {
    if s != [] {
      SumZero(s[1..]);
      if Sum(s) == 0 {
        forall k | 0 <= k < |s| ensures s[k] == 0 {
          if k > 0 { assert s[k] == s[1..][k - 1]; }
        }
      }
      if forall k :: 0 <= k < |s| ==> s[k] == 0 {
        assert forall k :: 0 <= k < |s[1..]| ==> s[1..][k] == s[k + 1];
      }
    }
  }

  /** The index of the first count whose running total exceeds `n`: the
      deme a uniform draw `n` in [0, total) falls into. */
  function FirstOver(counts: seq<nat>, n: nat): (d: nat)
    requires n < Sum(counts)
    ensures d < |counts|
    decreases |counts|
  {
    if n < counts[0] then 0 else 1 + FirstOver(counts[1..], n - counts[0])
  }

  /** The chosen deme is the one whose slice of the running total holds
      `n`; it therefore has a non-zero count. */
  lemma {:induction false} FirstOverSpec(counts: seq<nat>, n: nat)
    requires n < Sum(counts)
    ensures var d := FirstOver(counts, n);
      Sum(counts[..d]) <= n < Sum(counts[..d + 1]) && counts[d] > 0
    decreases |counts|
  {
    var d := FirstOver(counts, n);
    if n < counts[0] {
      assert counts[..0] == [];
      SumSnoc(counts, 0);
    } else {
      var rest := counts[1..];
      FirstOverSpec(rest, n - counts[0]);
      var e := d - 1;
      assert counts[..d] == [counts[0]] + rest[..e];
      assert counts[..d + 1] == [counts[0]] + rest[..e + 1];
      SumAppend([counts[0]], rest[..e]);
      SumAppend([counts[0]], rest[..e + 1]);
      assert Sum([counts[0]]) == counts[0] + Sum([]);
      assert counts[d] == rest[e];
    }
  }

  /** A draw at or past the running total up to deme `d` lies in a later deme. */
  lemma WalkContinues(counts: seq<nat>, n: nat, d: nat)
    requires d < |counts| && Sum(counts[..d + 1]) <= n < Sum(counts)
    ensures d + 1 < |counts|
  {
    assert counts[..|counts|] == counts;
  }

  /** No other deme's slice holds `n`. */
  lemma FirstOverUnique(counts: seq<nat>, n: nat, e: nat)
    requires e < |counts| && Sum(counts[..e]) <= n < Sum(counts[..e + 1])
    ensures n < Sum(counts) && e == FirstOver(counts, n)
  {
    SumPrefixMonotone(counts, e + 1, |counts|);
    assert counts[..|counts|] == counts;
    var d := FirstOver(counts, n);
    FirstOverSpec(counts, n);
    if d < e {
      SumPrefixMonotone(counts, d + 1, e);
    } else if e < d {
      SumPrefixMonotone(counts, e + 1, d);
    }
  }

  /** Draws of getRandomInfection: `prevalence` is the uniform draw over the
      total infected count and `host` the uniform draw over the infecteds of
      the chosen deme. */
  datatype InfectionDraw = InfectionDraw(prevalence: nat, host: nat)

  /** The two draws of one sampled pair. */
  datatype DrawPair = DrawPair(first: InfectionDraw, second: InfectionDraw)

  /** A draw lies in the ranges the uniform generator produces; with no
      infecteds anywhere the draw is never used. */
  predicate DrawFits(counts: seq<nat>, d: InfectionDraw) {
    Sum(counts) > 0 ==>
      d.prevalence < Sum(counts) && d.host < counts[FirstOver(counts, d.prevalence)]
  }

  predicate AllFit(counts: seq<nat>, draws: seq<DrawPair>) {
    forall k :: 0 <= k < |draws| ==> DrawFits(counts, draws[k].first) && DrawFits(counts, draws[k].second)
  }

  /** getRandomDeme as written: the walk continues while `n` is below the
      running total, so it answers deme 0 when the draw is at least the
      first deme's count and otherwise walks past the last deme (None). */
  function DemeAsWritten(counts: seq<nat>, n: nat): Option<nat> {
    if |counts| == 0 || n < counts[0] then None else Some(0)
  }

  method RandomDemeAsWritten(counts: seq<nat>, n: nat) returns (r: Option<nat>)
    ensures r == DemeAsWritten(counts, n)
  {
    if |counts| == 0 {
      return None;
    }
    var d := 0;
    var target := counts[0];
    while n < target
      invariant 0 <= d < |counts| && target >= counts[0]
      invariant d == 0 ==> target == counts[0]
      invariant d > 0 ==> n < counts[0]
      decreases |counts| - d
    {
      if d + 1 == |counts| {
        return None;
      }
      d := d + 1;
      target := target + counts[d];
    }
    return Some(d);
  }

  /** Two demes of five hosts each: the draw 7 belongs to deme 1 but the
      walk answers deme 0, and the draw 2 runs off the end of the list. */
  lemma RandomDemeDefect()
    ensures 7 < Sum([5, 5]) && FirstOver([5, 5], 7) == 1 && DemeAsWritten([5, 5], 7) == Some(0)
    ensures 2 < Sum([5, 5]) && FirstOver([5, 5], 2) == 0 && DemeAsWritten([5, 5], 2) == None
  {
    assert [5, 5][1..] == [5];
    assert [5][1..] == [];
  }

  /** Whenever a draw falls in the first deme's slice, the as-written walk
      fails instead of answering deme 0; whenever it answers, the answer is
      deme 0 whatever the draw. */
  lemma DemeAsWrittenNeverWeighted(counts: seq<nat>, n: nat)
    requires n < Sum(counts)
    ensures FirstOver(counts, n) == 0 ==> DemeAsWritten(counts, n) == None
    ensures DemeAsWritten(counts, n) != None ==> FirstOver(counts, n) > 0
  {
  }
}

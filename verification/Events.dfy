/**
 * The daily events of a host population, stated on the two host lists and
 * the case counter alone. Every event draws a count, then runs that many
 * trials; a trial whose class is empty is skipped, and otherwise it picks
 * a uniformly drawn index into the list as it is at that moment. The draws
 * are inputs here: a batch of trials is a sequence of draws.
 */
module Events {

  /** The susceptible list, the infected list and the case counter of a deme. */
  datatype Lists<T> = Lists(susceptibles: seq<T>, infecteds: seq<T>, cases: nat)

  /** The outcome of one contact trial: the transmitter's index, the
      recipient's index, and whether the infection took (a Bernoulli draw
      with the recipient's risk of infection). */
  datatype ContactDraw = ContactDraw(infectedIndex: nat, susceptibleIndex: nat, transmits: bool)

  ghost predicate Distinct<T>(s: seq<T>) {
    forall i, j :: 0 <= i < j < |s| ==> s[i] != s[j]
  }

  /** List removal at an index: later elements shift down by one. */
  function RemoveAt<T>(s: seq<T>, i: nat): (r: seq<T>)
    requires i < |s|
    ensures |r| == |s| - 1
    ensures forall k :: 0 <= k < i ==> r[k] == s[k]
    ensures forall k :: i <= k < |r| ==> r[k] == s[k + 1]
    ensures forall x :: x in r ==> x in s
  {
    s[..i] + s[i + 1..]
  }

  /** Removal takes out exactly the element at the index: everything else
      stays. */
  lemma RemoveAtElements<T>(s: seq<T>, i: nat)
    requires i < |s|
    ensures forall x :: x in s && x != s[i] ==> x in RemoveAt(s, i)
    ensures multiset(RemoveAt(s, i)) + multiset{s[i]} == multiset(s)
  {
    assert s == s[..i] + [s[i]] + s[i + 1..];
  }

  lemma RemoveAtDistinct<T>(s: seq<T>, i: nat)
    requires i < |s| && Distinct(s)
    ensures Distinct(RemoveAt(s, i)) && s[i] !in RemoveAt(s, i)
  {
    var r := RemoveAt(s, i);
    forall a, b | 0 <= a < b < |r| ensures r[a] != r[b] {
      var a' := if a < i then a else a + 1;
      var b' := if b < i then b else b + 1;
      assert r[a] == s[a'] && r[b] == s[b'] && a' < b';
    }
    forall k | 0 <= k < |r| ensures r[k] != s[i] {
      assert r[k] == s[if k < i then k else k + 1];
    }
  }

  /** `t` is obtained from `s` by deleting elements, keeping the order of the rest. */
  ghost predicate Subsequence<T>(t: seq<T>, s: seq<T>)
    decreases |s|
  {
    if t == [] then true
    else if s == [] then false
    else (t[0] == s[0] && Subsequence(t[1..], s[1..])) || Subsequence(t, s[1..])
  }

  lemma {:induction false} SubsequenceOfSelf<T>(s: seq<T>)
    ensures Subsequence(s, s)
    decreases |s|
  {
    if s != [] {
      SubsequenceOfSelf(s[1..]);
    }
  }

  lemma {:induction false} SubsequenceTransitive<T>(a: seq<T>, b: seq<T>, c: seq<T>)
    requires Subsequence(a, b) && Subsequence(b, c)
    ensures Subsequence(a, c)
    decreases |c|
  {
    if a != [] {
      if Subsequence(b, c[1..]) {
        SubsequenceTransitive(a, b, c[1..]);
      } else if a[0] == b[0] && Subsequence(a[1..], b[1..]) {
        SubsequenceTransitive(a[1..], b[1..], c[1..]);
      } else {
        SubsequenceTransitive(a, b[1..], c[1..]);
      }
    }
  }

  /** Removing one element keeps the others in their relative order. */
  lemma {:induction false} RemoveAtSubsequence<T>(s: seq<T>, i: nat)
    requires i < |s|
    ensures Subsequence(RemoveAt(s, i), s)
    decreases i
  {
    if i == 0 {
      assert RemoveAt(s, 0) == s[1..];
      SubsequenceOfSelf(s[1..]);
    } else {
      assert RemoveAt(s, i)[1..] == RemoveAt(s[1..], i - 1);
      RemoveAtSubsequence(s[1..], i - 1);
    }
  }

  // ---------------------------------------------------------------------
  // Removal batches (deaths, and the index draws of recoveries)

  /** Trial `k` of a removal batch draws an index below the class size it
      then sees, `size - k`, as long as the class is not yet empty. */
  predicate InRange(size: nat, draws: seq<nat>) {
    forall k :: 0 <= k < |draws| && k < size ==> draws[k] < size - k
  }

  /** A batch of removal trials on one list, skipping trials once it is empty. */
  function Thin<T>(s: seq<T>, draws: seq<nat>): seq<T>
    requires InRange(|s|, draws)
    decreases |draws|
  {
    if draws == [] || s == [] then s
    else Thin(RemoveAt(s, draws[0]), draws[1..])
  }

  /** Trial `k` of a removal batch, taken on its own. */
  lemma ThinAt<T>(s: seq<T>, draws: seq<nat>, k: nat)
    requires k < |draws| && InRange(|s|, draws[k..])
    ensures |s| > 0 ==> draws[k] < |s|
    ensures var next := if |s| > 0 then RemoveAt(s, draws[k]) else s;
      && InRange(|next|, draws[k + 1..])
      && Thin(s, draws[k..]) == Thin(next, draws[k + 1..])
  {
    assert draws[k..][1..] == draws[k + 1..];
  }

  /** `min(|draws|, |s|)` elements go, the survivors keep their order and
      nothing new appears. */
  lemma {:induction false} ThinSpec<T>(s: seq<T>, draws: seq<nat>)
    requires InRange(|s|, draws)
    ensures |Thin(s, draws)| == |s| - (if |draws| < |s| then |draws| else |s|)
    ensures Subsequence(Thin(s, draws), s)
    ensures multiset(Thin(s, draws)) <= multiset(s)
    decreases |draws|
  {
    if draws == [] || s == [] {
      SubsequenceOfSelf(s);
    } else {
      var r := RemoveAt(s, draws[0]);
      RemoveAtElements(s, draws[0]);
      ThinSpec(r, draws[1..]);
      RemoveAtSubsequence(s, draws[0]);
      SubsequenceTransitive(Thin(r, draws[1..]), r, s);
    }
  }

  /** Deaths: a batch of removals from the susceptibles, then one from the infecteds. */
  function Decline<T>(st: Lists<T>, sDeaths: seq<nat>, iDeaths: seq<nat>): Lists<T>
    requires InRange(|st.susceptibles|, sDeaths) && InRange(|st.infecteds|, iDeaths)
  {
    Lists(Thin(st.susceptibles, sDeaths), Thin(st.infecteds, iDeaths), st.cases)
  }

  lemma DeclineSpec<T>(st: Lists<T>, sDeaths: seq<nat>, iDeaths: seq<nat>)
    requires InRange(|st.susceptibles|, sDeaths) && InRange(|st.infecteds|, iDeaths)
    ensures var r := Decline(st, sDeaths, iDeaths);
      && |r.susceptibles| == |st.susceptibles| - Min(|sDeaths|, |st.susceptibles|)
      && |r.infecteds| == |st.infecteds| - Min(|iDeaths|, |st.infecteds|)
      && Subsequence(r.susceptibles, st.susceptibles)
      && Subsequence(r.infecteds, st.infecteds)
      && r.cases == st.cases
  {
    ThinSpec(st.susceptibles, sDeaths);
    ThinSpec(st.infecteds, iDeaths);
  }

  function Min(a: nat, b: nat): nat {
    if a < b then a else b
  }

  // ---------------------------------------------------------------------
  // Contacts

  /** The range condition on a batch of contact draws, following the class
      sizes trial by trial: a successful trial moves one host from S to I. */
  predicate ContactInRange(s: nat, i: nat, draws: seq<ContactDraw>)
    decreases |draws|
  {
    if draws == [] then true
    else if s > 0 && i > 0 then
      && draws[0].infectedIndex < i
      && draws[0].susceptibleIndex < s
      && if draws[0].transmits then ContactInRange(s - 1, i + 1, draws[1..])
         else ContactInRange(s, i, draws[1..])
    else ContactInRange(s, i, draws[1..])
  }

  /** One contact trial: skipped unless both classes are non-empty; on
      transmission the recipient leaves S, joins the end of I, and counts as a case. */
  function ContactTrial<T>(st: Lists<T>, d: ContactDraw): Lists<T>
    requires |st.susceptibles| > 0 && |st.infecteds| > 0 ==>
      d.infectedIndex < |st.infecteds| && d.susceptibleIndex < |st.susceptibles|
  {
    if |st.susceptibles| > 0 && |st.infecteds| > 0 && d.transmits then
      Lists(RemoveAt(st.susceptibles, d.susceptibleIndex),
            st.infecteds + [st.susceptibles[d.susceptibleIndex]],
            st.cases + 1)
    else st
  }

  function Contact<T>(st: Lists<T>, draws: seq<ContactDraw>): Lists<T>
    requires ContactInRange(|st.susceptibles|, |st.infecteds|, draws)
    decreases |draws|
  {
    if draws == [] then st
    else Contact(ContactTrial(st, draws[0]), draws[1..])
  }

  /** Trial `k` of a batch of contacts, taken on its own. */
  lemma ContactAt<T>(st: Lists<T>, draws: seq<ContactDraw>, k: nat)
    requires k < |draws| && ContactInRange(|st.susceptibles|, |st.infecteds|, draws[k..])
    ensures |st.susceptibles| > 0 && |st.infecteds| > 0 ==>
      draws[k].infectedIndex < |st.infecteds| && draws[k].susceptibleIndex < |st.susceptibles|
    ensures var next := ContactTrial(st, draws[k]);
      && ContactInRange(|next.susceptibles|, |next.infecteds|, draws[k + 1..])
      && Contact(st, draws[k..]) == Contact(next, draws[k + 1..])
  {
    assert draws[k..][1..] == draws[k + 1..];
  }

  /** Contacts move hosts from S to I and nothing else: the population is
      conserved. */
  lemma {:induction false} ContactConserves<T>(st: Lists<T>, draws: seq<ContactDraw>)
    requires ContactInRange(|st.susceptibles|, |st.infecteds|, draws)
    ensures var r := Contact(st, draws);
      multiset(r.susceptibles) + multiset(r.infecteds)
        == multiset(st.susceptibles) + multiset(st.infecteds)
    decreases |draws|
  {
    if draws != [] {
      var d := draws[0];
      if |st.susceptibles| > 0 && |st.infecteds| > 0 {
        RemoveAtElements(st.susceptibles, d.susceptibleIndex);
      }
      ContactConserves(ContactTrial(st, d), draws[1..]);
    }
  }

  /** Each successful contact moves one host from S to the end of I and adds
      one case: N is unchanged, the old infecteds stay a prefix in order,
      the rise in I equals the rise in cases (at most one per trial), and
      the remaining susceptibles keep their order. */
  lemma {:induction false} ContactCounts<T>(st: Lists<T>, draws: seq<ContactDraw>)
    requires ContactInRange(|st.susceptibles|, |st.infecteds|, draws)
    ensures var r := Contact(st, draws);
      && |r.susceptibles| + |r.infecteds| == |st.susceptibles| + |st.infecteds|
      && |st.infecteds| <= |r.infecteds|
      && r.infecteds[..|st.infecteds|] == st.infecteds
      && r.cases - st.cases == |r.infecteds| - |st.infecteds| <= |draws|
      && Subsequence(r.susceptibles, st.susceptibles)
    decreases |draws|
  {
    if draws == [] {
      SubsequenceOfSelf(st.susceptibles);
    } else {
      var d := draws[0];
      var t := ContactTrial(st, d);
      ContactCounts(t, draws[1..]);
      var r := Contact(t, draws[1..]);
      if |st.susceptibles| > 0 && |st.infecteds| > 0 && d.transmits {
        RemoveAtSubsequence(st.susceptibles, d.susceptibleIndex);
        SubsequenceTransitive(r.susceptibles, t.susceptibles, st.susceptibles);
        assert r.infecteds[..|st.infecteds|] == t.infecteds[..|t.infecteds|][..|st.infecteds|];
      } else {
        assert t == st;
      }
    }
  }

  /** With no susceptible or no infected host every contact trial is skipped. */
  lemma {:induction false} ContactSkipsWhenEmpty<T>(st: Lists<T>, draws: seq<ContactDraw>)
    requires |st.susceptibles| == 0 || |st.infecteds| == 0
    ensures ContactInRange(|st.susceptibles|, |st.infecteds|, draws)
    ensures Contact(st, draws) == st
    decreases |draws|
  {
    if draws != [] {
      ContactSkipsWhenEmpty(st, draws[1..]);
    }
  }

  // ---------------------------------------------------------------------
  // Recoveries

  /** One recovery trial: skipped on an empty I; otherwise the drawn host
      leaves I and joins the end of S. */
  function RecoverTrial<T>(st: Lists<T>, index: nat): Lists<T>
    requires |st.infecteds| > 0 ==> index < |st.infecteds|
  {
    if |st.infecteds| > 0 then
      Lists(st.susceptibles + [st.infecteds[index]], RemoveAt(st.infecteds, index), st.cases)
    else st
  }

  function Recover<T>(st: Lists<T>, draws: seq<nat>): Lists<T>
    requires InRange(|st.infecteds|, draws)
    decreases |draws|
  {
    if draws == [] then st
    else Recover(RecoverTrial(st, draws[0]), draws[1..])
  }

  /** Trial `k` of a batch of recoveries, taken on its own. */
  lemma RecoverAt<T>(st: Lists<T>, draws: seq<nat>, k: nat)
    requires k < |draws| && InRange(|st.infecteds|, draws[k..])
    ensures |st.infecteds| > 0 ==> draws[k] < |st.infecteds|
    ensures InRange(|RecoverTrial(st, draws[k]).infecteds|, draws[k + 1..])
    ensures Recover(st, draws[k..]) == Recover(RecoverTrial(st, draws[k]), draws[k + 1..])
  {
    assert draws[k..][1..] == draws[k + 1..];
  }

  /** Recoveries move hosts from I to S and nothing else: the population
      is conserved and the case counter is left alone. */
  lemma {:induction false} RecoverConserves<T>(st: Lists<T>, draws: seq<nat>)
    requires InRange(|st.infecteds|, draws)
    ensures var r := Recover(st, draws);
      && multiset(r.susceptibles) + multiset(r.infecteds)
           == multiset(st.susceptibles) + multiset(st.infecteds)
      && r.cases == st.cases
    decreases |draws|
  {
    if draws != [] {
      if |st.infecteds| > 0 {
        RemoveAtElements(st.infecteds, draws[0]);
      }
      RecoverConserves(RecoverTrial(st, draws[0]), draws[1..]);
    }
  }

  /** Recoveries lower I and raise S by the same amount, `min(|draws|, I)`;
      S keeps its old hosts as a prefix, and the remaining infecteds keep
      their relative order. */
  lemma {:induction false} RecoverCounts<T>(st: Lists<T>, draws: seq<nat>)
    requires InRange(|st.infecteds|, draws)
    ensures var r := Recover(st, draws);
      && |st.susceptibles| <= |r.susceptibles|
      && r.susceptibles[..|st.susceptibles|] == st.susceptibles
      && |r.susceptibles| - |st.susceptibles| == |st.infecteds| - |r.infecteds|
           == Min(|draws|, |st.infecteds|)
      && Subsequence(r.infecteds, st.infecteds)
    decreases |draws|
  {
    if draws == [] || st.infecteds == [] {
      if draws != [] {
        RecoverSkipsWhenEmpty(st, draws);
      }
      SubsequenceOfSelf(st.infecteds);
    } else {
      var t := RecoverTrial(st, draws[0]);
      RecoverCounts(t, draws[1..]);
      var r := Recover(t, draws[1..]);
      RemoveAtSubsequence(st.infecteds, draws[0]);
      SubsequenceTransitive(r.infecteds, t.infecteds, st.infecteds);
      assert r.susceptibles[..|st.susceptibles|]
          == r.susceptibles[..|t.susceptibles|][..|st.susceptibles|];
    }
  }

  lemma {:induction false} RecoverSkipsWhenEmpty<T>(st: Lists<T>, draws: seq<nat>)
    requires st.infecteds == []
    ensures InRange(0, draws) && Recover(st, draws) == st
    decreases |draws|
  {
    if draws != [] {
      RecoverSkipsWhenEmpty(st, draws[1..]);
    }
  }
}

# antigen: hosts, demes and the simulation loop

A model of the epidemic core of the antigen simulator. It covers three parts:

- **Hosts.** A host carries at most one virus and keeps a history of the phenotypes it has recovered from.
- **Demes.** A deme (a host population) keeps a susceptible list, an infected list and a case counter. It runs its daily events on them: births, deaths, contacts, recoveries, mutations, sampling and trunk marking.
- **The simulation.** It sums per-deme counts, draws a random infection weighted by prevalence, fixes the order of deme steps and between-deme contacts, and keeps the diversity, TMRCA and Ne·τ estimators.

The random generator is not modelled. Every value it would produce is an input:

- A Poisson count is the length of a sequence of draws.
- A uniform index is a draw with a range precondition that follows the list size trial by trial.
- A Bernoulli outcome (the recipient's risk of infection, the initial pre-immunity) is a `bool`.

Modules:

- `Parameters`: the population sizes the host population starts from.
- `Viruses`: `Phenotype` as a value and `Virus` as a class. A virus has a `parent` link, a ghost `lineage` (the ancestors up to the root) that makes the walk to the root terminate, and a `trunk` flag.
- `HostModel`: the `Host` class.
- `Events`: the daily events stated on the two lists and the counter as values. It also holds the lemmas about them: conservation of hosts, count changes and order of the survivors.
- `PopulationModel`: the `HostPopulation` class. Decline, contact and recovery are loops over their draws, each proved equal to the `Events` function of the old state. Growth, mutation and sampling are stated directly on the lists and the hosts' viruses. The class invariant `Valid` states that S and I partition the hosts: every susceptible is uninfected, every infected host carries a virus, and no host is listed twice.
- `DemeChoice`: sums of per-deme counts, the prefix-sum choice of a deme, and the getRandomDeme walk as written.
- `Estimators`: the accumulators of the pairwise estimators. Java's double division by zero is modelled with infinities and NaN.
- `SimulationModel`: the `Simulation` class.

## Model

| member | source | states |
|---|---|---|
| HostModel.Host.constructor | Host.java:12-15 | A naive host has no infection, an empty history and is not infected |
| HostModel.Host.Infected | Host.java:16-19 | The initial infected host carries exactly the given virus and has an empty history |
| HostModel.Host.IsInfected | Host.java:22-28 | A host is infected exactly when it carries a virus |
| HostModel.Host.Infect | Host.java:32-35 | The host becomes infected with a fresh virus whose parent is the transmitter's virus, never that virus itself, with its phenotype copied; the history is unchanged |
| HostModel.Host.ClearInfection | Host.java:36-40 | Requires an infection; the infection's phenotype is appended once to the end of the history, earlier entries kept, and the host is no longer infected |
| HostModel.Host.Mutate | Host.java:41-49 | Requires an infection; a fresh virus whose parent is the previous one and whose phenotype is the mutated copy replaces it, the previous virus is unchanged, the history is unchanged |
| HostModel.Host.GetHistory | Host.java:52-54 | Returns the host's history value |
| PopulationModel.HostPopulation.Valid | HostPopulation.java:8-9 | The two lists partition the hosts: no susceptible carries a virus, every infected host does, and neither list holds a host twice |
| PopulationModel.HostPopulation.Count | HostPopulation.java:39-69 | getN is the sum of the two list sizes, getS and getI their sizes, getCases the counter |
| PopulationModel.HostPopulation.constructor | HostPopulation.java:13-36 | `InitialN - InitialI` fresh uninfected susceptibles whose history is empty or the single pre-immunity phenotype, `InitialI` fresh infected hosts with fresh viruses all derived from one shared root virus, zero cases, and the partition invariant |
| PopulationModel.HostPopulation.ResetCases | HostPopulation.java:64-66 | The case counter becomes 0 and both lists are unchanged |
| PopulationModel.HostPopulation.Grow | HostPopulation.java:71-79 | Exactly `births` fresh naive hosts are appended to the end of the susceptibles; the old susceptibles stay as a prefix; infecteds and cases are unchanged; the invariant is kept |
| PopulationModel.HostPopulation.Decline | HostPopulation.java:81-101 | The new lists are those of the death batches on each class (shifting removals, trials on an empty class skipped); the invariant is kept |
| PopulationModel.HostPopulation.Contact | HostPopulation.java:103-133 | The new state is the contact batch of the old one. Old infected hosts keep their virus and history; every newly infected host came from S and carries a fresh virus whose parent is an infected host's virus and whose phenotype is that parent's; the invariant is kept |
| PopulationModel.HostPopulation.ContactOnce | HostPopulation.java:110-130 | One contact trial: the state becomes `ContactTrial` of the old one, and only the drawn susceptible host changes. On a transmission it gets a fresh, non-trunk virus whose parent is the virus of the drawn infected host and whose phenotype is that virus's phenotype |
| PopulationModel.HostPopulation.Recover | HostPopulation.java:135-149 | The new state is the recovery batch of the old one. Susceptibles are untouched; each recovered host is in S, uninfected, with its history grown by its last phenotype; the others keep their virus; the invariant is kept |
| PopulationModel.HostPopulation.RecoverOnce | HostPopulation.java:141-147 | One recovery trial: the state becomes `RecoverTrial` of the old one, and only the drawn infected host changes |
| PopulationModel.HostPopulation.Mutate | HostPopulation.java:151-164 | Both lists, the counter and every history are unchanged. Each drawn infected host carries a fresh descendant of its old virus whose phenotype is the mutated phenotype of the last draw at its index; every other host keeps its virus |
| PopulationModel.HostPopulation.MutateAll | HostPopulation.java:157-163 | The mutation loop: every infected host carries what the draws at its index leave behind from the virus it had before the batch, and a fresh virus whenever it was drawn; lists, counter and histories are unchanged |
| PopulationModel.HostPopulation.MutateStep | HostPopulation.java:158-162 | One draw of the loop: the drawn host's virus is fresh and its mutations grow by the drawn phenotype; every other host keeps its virus and its mutations |
| PopulationModel.HostPopulation.MutateOnce | HostPopulation.java:158-162 | One mutation trial: only the drawn host's virus changes, to a fresh, non-trunk child of the old one carrying the drawn mutated phenotype |
| PopulationModel.HostPopulation.Sample | HostPopulation.java:166-178 | No tips with an empty I; otherwise one tip per draw, each the current virus of the drawn infected host, never null under the invariant |
| PopulationModel.HostPopulation.MakeTrunk | HostPopulation.java:180-195 | Every virus on the parent chain of every infected host's virus, root included, is marked trunk; phenotypes are unchanged |
| PopulationModel.MarkToRoot | HostPopulation.java:184-193 | The walk from one virus to the root marks every virus on the chain and clears no flag already set |
| Events.Thin | HostPopulation.java:86-91 | A death batch: each trial removes the drawn index, and a trial on an empty list is skipped |
| Events.Decline | HostPopulation.java:82-101 | Decline thins S by its death draws, then I by its own; the counter is kept |
| Events.ContactTrial | HostPopulation.java:110-130 | With S and I non-empty and a transmission, the drawn susceptible moves to the end of I and the counter rises by 1; otherwise nothing changes |
| Events.Contact | HostPopulation.java:104-133 | The contact trials applied in draw order |
| Events.RecoverTrial | HostPopulation.java:141-147 | With I non-empty, the drawn infected host moves to the end of S; otherwise nothing changes |
| Events.Recover | HostPopulation.java:136-149 | The recovery trials applied in draw order |
| Events.RemoveAt | HostPopulation.java:89 | Removal at an index shifts the later elements down by one and adds nothing |
| Events.RemoveAtElements | HostPopulation.java:89 | Removal takes out exactly the element at the index: the multiset loses that element only |
| Events.RemoveAtDistinct | HostPopulation.java:98 | Removal from a duplicate-free list leaves it duplicate-free and without the removed element |
| Events.RemoveAtSubsequence | HostPopulation.java:125 | The remaining elements keep their relative order |
| Events.ThinSpec | HostPopulation.java:86-91 | A death batch removes `min(deaths, size)` hosts; the survivors keep their order and nothing new appears |
| Events.DeclineSpec | HostPopulation.java:82-101 | S falls by `min(dS, S)` and I by `min(dI, I)`; survivors keep their order; cases are unchanged |
| Events.ContactConserves | HostPopulation.java:104-133 | Contacts conserve the multiset of all hosts: they only move hosts from S to I |
| Events.ContactCounts | HostPopulation.java:109-131 | N is unchanged; the old infecteds stay a prefix of I; the rise in I equals the rise in cases and is at most the number of trials; the remaining susceptibles keep their order |
| Events.ContactSkipsWhenEmpty | HostPopulation.java:110 | With S or I empty every contact trial is skipped |
| Events.RecoverConserves | HostPopulation.java:136-149 | Recoveries conserve the multiset of all hosts and leave the case counter alone |
| Events.RecoverCounts | HostPopulation.java:140-148 | I falls and S rises by the same amount, `min(recoveries, I)`; the old susceptibles stay a prefix; the remaining infecteds keep their order |
| Events.RecoverSkipsWhenEmpty | HostPopulation.java:141 | With I empty every recovery trial is skipped |
| Estimators.DivideSpec | Simulation.java:284 | A division is finite exactly when the divisor is non-zero, and then it inverts the product; 0/0 is NaN and a positive value over 0 is +infinity |
| DemeChoice.SumZero | Simulation.java:68-75 | A total over the demes is zero exactly when every deme's count is zero |
| DemeChoice.FirstOver | Simulation.java:109-118 | The chosen deme index is a valid deme |
| DemeChoice.FirstOverSpec | Simulation.java:109-118 | The chosen deme is the one whose slice of the running total holds the draw, and it has a non-zero count |
| DemeChoice.WalkContinues | Simulation.java:111-117 | A draw at or past the running total up to deme `d` lies in a later deme, so the walk never runs off the list |
| DemeChoice.FirstOverUnique | Simulation.java:109-118 | The deme whose slice holds the draw is unique |
| DemeChoice.DemeAsWritten | Simulation.java:90-99 | The outcome of the getRandomDeme walk as written: deme 0 when the draw is at least the first count, otherwise no deme |
| DemeChoice.RandomDemeAsWritten | Simulation.java:90-99 | The as-written getRandomDeme answers deme 0 when the draw is at least the first count, and otherwise runs past the last deme |
| DemeChoice.RandomDemeDefect | Simulation.java:90-99 | With two demes of five hosts the draw 7 belongs to deme 1 but gets deme 0, and the draw 2 runs off the list |
| DemeChoice.DemeAsWrittenNeverWeighted | Simulation.java:90-99 | The as-written walk never answers the weighted deme when it is deme 0, and only ever answers deme 0 |
| Estimators.DistanceStep | Simulation.java:259-265 | Loop-step helper for SampleDistances, unfolding the two definitions by one pair: one more pair adds its distance to the sum and raises the maximum only when it is larger, and only when both viruses are present |
| Estimators.CoalescenceStep | Simulation.java:279-282 | Loop-step helper for SampleCoalescences, unfolding the two definitions by one pair: one more pair with both viruses present adds one window to the opportunity and its coalescence to the count; other pairs add nothing |
| Estimators.MaxDistanceSpec | Simulation.java:259-264 | The TMRCA accumulator is non-negative, bounds every usable pair's distance, and is 0 or attained by a usable pair |
| Estimators.DistanceSumBound | Simulation.java:259-264 | The diversity sum is at most the number of usable pairs times the largest distance |
| Estimators.NoUsablePairs | Simulation.java:259 | Pairs with a null virus contribute nothing: without a usable pair every accumulator stays 0 |
| Estimators.OpportunityCount | Simulation.java:279-280 | The opportunity is one window per usable pair |
| Estimators.NetauUnguarded | Simulation.java:284 | With no usable pair Ne·τ is 0/0 (NaN); with usable pairs, a positive window and no coalescence it is +infinity |
| SimulationModel.TotalsAdd | Simulation.java:32-57 | The total N over the demes is the total S plus the total I |
| SimulationModel.ContactsSpec | Simulation.java:299-304 | The inner loop of stepForward contacts every other deme in index order |
| SimulationModel.RowSpec | Simulation.java:297-304 | A deme's row is its own step followed by its contact with each other deme, in index order |
| SimulationModel.Schedule | Simulation.java:296-305 | The calls of stepForward's nested loops, row by row |
| SimulationModel.ScheduleLength | Simulation.java:296-305 | `n` demes make `n * n` calls |
| SimulationModel.ScheduleAt | Simulation.java:296-305 | Deme `i`'s row sits at positions `i*n .. i*n+n-1` of the schedule |
| SimulationModel.ScheduleOrder | Simulation.java:296-305 | The schedule runs demes in index order; each deme's step comes before its contacts with the other demes, which are in index order |
| SimulationModel.Simulation.constructor | Simulation.java:17-28 | The simulation holds the given demes, day 0 (see Left out) and the three estimators at 0 |
| SimulationModel.Simulation.Total | Simulation.java:32-75 | getN, getS, getI and getCases return the sum of the per-deme values |
| SimulationModel.Simulation.Pick | Simulation.java:102-132 | The random infection for one draw: null when nothing is infected, otherwise the virus of the drawn host in the deme the prefix-sum walk chooses |
| SimulationModel.Simulation.PickFound | Simulation.java:102-132 | Under the invariant, the random infection is null exactly when the total infected count is 0 |
| SimulationModel.Simulation.Picks | Simulation.java:257-258 | The sampled pairs are, draw by draw, the two random infections |
| SimulationModel.Simulation.ChooseDeme | Simulation.java:109-118 | The walk stops at the first deme whose running infected total exceeds the draw |
| SimulationModel.Simulation.GetRandomInfection | Simulation.java:102-132 | Null when nothing is infected; otherwise the virus of the drawn infected host in the deme the prefix-sum walk chooses |
| SimulationModel.Simulation.SampleDistances | Simulation.java:256-266 | The accumulation loop yields the distance sum and the largest distance over the usable pairs |
| SimulationModel.Simulation.UpdateDiversity | Simulation.java:252-269 | The diversity is the distance sum over the number of samples, skipped draws included, so 0/0 (NaN) with no samples; the TMRCA is half the largest distance; Ne·τ is unchanged |
| SimulationModel.Simulation.SampleCoalescences | Simulation.java:276-283 | The accumulation loop yields the opportunity and the coalescence count over the usable pairs |
| SimulationModel.Simulation.UpdateNetau | Simulation.java:271-285 | Ne·τ is the unguarded quotient of the opportunity by the coalescence count, with the window `netauWindow / 365`; the other estimators are unchanged |
| SimulationModel.Simulation.ResetCases | Simulation.java:287-292 | Every deme's counter becomes 0 with its lists unchanged, so the total cases are 0 |
| SimulationModel.Simulation.StepForward | Simulation.java:294-309 | The calls are the schedule: demes in index order, each deme's step before its contacts with every other deme in index order; the day advances by exactly 1 |
| SimulationModel.Simulation.Reset | Simulation.java:394-402 | The day and the diversity go to 0, TMRCA and Ne·τ keep their values, and every deme is reset in order before the tree is cleared |

## Left out

- Output and process exit (the print methods, the file streams, `System.exit`) and memory profiling through an external library: these are I/O and diagnostics.
- The run loop and its restart after extinction: they are tangled with file handling.
- `Simulation.makeTrunk` (Simulation.java:200-205) only calls each deme's makeTrunk, which is modelled.
- `getPrS`, `getPrI` and `getRandomN`/`getRandomS`/`getRandomI` (HostPopulation.java:48-62): a floating-point ratio and uniform draws, which the model takes as inputs.
- `getRandomHostI`, which getRandomInfection calls on the chosen deme (Simulation.java:124), is not defined in HostPopulation.java. `SimulationModel.Simulation.Pick` and `SimulationModel.Simulation.GetRandomInfection` assume it draws a uniform index into that deme's infected list, taken as the input `draw.host`, and returns the host at that index. `SimulationModel.Simulation.PickFound`'s conclusion that the result is non-null when some host is infected rests on this assumption.
- `HostModel.Host.GetHistory` returns the history as a value, so the live-list alias that getHistory hands out (Host.java:52-54) is not modelled. Its only caller, the population constructor (HostPopulation.java:23-24), adds to that list in place; the model writes the extended history back to the host instead.
- `getR`, `getRandomHost`, `getAverageRisk` and the `getDiversity`/`getTmrca`/`getNetau` getters: they read members that are not part of this model, or only return a field.
- Floating-point arithmetic: the rates passed to the Poisson generator are replaced by their drawn counts, and the estimator sums are exact reals. Only the outcomes of a division by zero are kept.
- `Virus` and `Phenotype` internals: the phenotype mutation result is an input, the risk of infection is the supplied Bernoulli outcome, and distance and coalescence are function parameters.
- `PopulationModel.HostPopulation.Sample` returns the sampled viruses instead of adding them to the global sample set, which is not part of this model.
- `SimulationModel.Simulation.StepForward` and `SimulationModel.Simulation.Reset` return the ordered trace of the deme steps, between-deme contacts, deme resets and tree clear they call. The bodies of those calls are not part of this model.
- `SimulationModel.Simulation.constructor` takes the demes already built: the deme constructors it calls are not part of this model.
- `SimulationModel.Simulation.constructor` sets the day to 0, which the Java constructor does not do. In Java the day is the global static `Parameters.day` (Simulation.java:209, 307, 395), which Parameters.java as it stands does not declare. The model keeps it as a field of the simulation and assumes the default initial value 0 of a Java static `int`.
- The deme count is the length of the deme list, and the netau window and the sample counts are parameters: those constants are not part of this model.
- `SimulationModel.Simulation.GetRandomInfection` does not require the invariant, so its contract alone does not state that the result is non-null when the total is positive. `SimulationModel.Simulation.PickFound` proves that direction under the invariant.
- `SimulationModel.Simulation.UpdateDiversity` and `SimulationModel.Simulation.UpdateNetau` draw all pairs first, through the `Pick` function that `GetRandomInfection` is proved to compute, and then accumulate. The draws do not depend on the accumulators and the demes do not change, so the order does not matter.
- `PopulationModel.HostPopulation.Decline` removes hosts from local copies of the lists and assigns them at the end. No other code observes the lists in between.
- Java `int` counters (cases, totals) are unbounded here: a 32-bit overflow is not modelled.

## Findings

| source | as written | input that shows it | evidently intended | confidence | as-written member | corrected member |
|---|---|---|---|---|---|---|
| Simulation.java:90-99 | The loop condition `n < target` is inverted: the walk returns deme 0 whenever the draw is at least the first deme's count, and otherwise walks past the last deme | Two demes of five hosts: draw 7 gives deme 0 instead of deme 1; draw 2 runs off the end | The first deme whose running total exceeds the draw, as in getRandomInfection | not executed | DemeChoice.RandomDemeDefect | DemeChoice.FirstOverSpec |

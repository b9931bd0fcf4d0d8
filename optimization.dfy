/**
 * `basic_optimization`: discover the plugins, bind an evaluator and a
 * mutator, stop early when either is missing, and otherwise run the
 * generation loop from a seed population.
 */
module Optimization {
  import opened Wrappers
  import opened Capabilities
  import opened PluginRegistry
  import opened Binding
  import opened Selection
  import opened Evolution

  /** How a run ends. */
  datatype Outcome<C> =
    | DiscoveryAborted(culprit: string)
      // a load raised past `except Exception`; the error propagates out of the run
    | NoEvaluator
      // stopped before the loop: no Evaluator among the plugins
    | NoMutator
      // stopped before the loop: an evaluator, but no plugin bound as mutator
    | Finished(best: C, bestScore: int, population: seq<C>)
      // the last generation's elite and score, and the final population

  /** The pair the binding loop ends with, for the plugins discovery found. */
  function BindingOf<I, C>(plugins: Registry<I>, host: Host<I, C>): (Option<I>, Option<I>)
    requires plugins.Valid()
  {
    (Chosen(plugins.Items(), host, EvaluatorRole), Chosen(plugins.Items(), host, MutatorRole))
  }

  /**
   * The whole run for a seed population of size N >= 1 and `gens` >= 1
   * generations. Without an evaluator, or then without a mutator, it stops
   * before the loop and makes no plugin call at all; otherwise it ends
   * with the population and elite of the generation loop, having made
   * exactly that loop's calls, all to the bound plugins.
   */
  method Optimize<I, C>(available: bool, catalog: seq<Entry<I>>, host: Host<I, C>, initial: seq<C>, gens: nat)
    returns (outcome: Outcome<C>, calls: seq<Call<I, C>>)
    requires |initial| > 0 && gens > 0
    ensures outcome.DiscoveryAborted? <==> DiscoveryOf(available, catalog).Aborted?
    ensures outcome.DiscoveryAborted? ==> outcome.culprit == DiscoveryOf(available, catalog).culprit
    ensures outcome.NoEvaluator? <==>
      DiscoveryOf(available, catalog).Discovered? &&
      BindingOf(DiscoveryOf(available, catalog).plugins, host).0.None?
    ensures outcome.NoMutator? <==>
      DiscoveryOf(available, catalog).Discovered? &&
      BindingOf(DiscoveryOf(available, catalog).plugins, host).0.Some? &&
      BindingOf(DiscoveryOf(available, catalog).plugins, host).1.None?
    ensures !outcome.Finished? ==> calls == []
    ensures outcome.Finished? ==>
      && DiscoveryOf(available, catalog).Discovered?
      && var (evaluator, mutator) := BindingOf(DiscoveryOf(available, catalog).plugins, host);
      && evaluator.Some? && mutator.Some?
      && var b := Bound(host, evaluator.value, mutator.value);
      && outcome.population == PopulationAt(b, initial, gens)
      && |outcome.population| == |initial|
      && Scored(outcome.best, outcome.bestScore) == Elite(b, PopulationAt(b, initial, gens - 1), gens - 1)
      && outcome.population == Offspring(b, outcome.best, |initial|, gens - 1)
      && outcome.population[0] == outcome.best
      && calls == RunLog(b, initial, gens)
  {
    var d := DiscoverPlugins(available, catalog);
    if d.Aborted? {
      return DiscoveryAborted(d.culprit), [];
    }
    var evaluator, mutator := BindPlugins(d.plugins, host);
    if evaluator.None? {
      return NoEvaluator, [];
    }
    if mutator.None? {
      return NoMutator, [];
    }
    var b := Bound(host, evaluator.value, mutator.value);
    var best, bestScore, population;
    best, bestScore, population, calls := RunGenerations(b, initial, gens);
    outcome := Finished(best, bestScore, population);
  }

  /** The seed population the example starts from. */
  const SeedPopulation: seq<string> := ["candidate_1", "candidate_2", "candidate_3"]

  /** The number of generations the example runs. */
  const GenerationCount: nat := 3

  /**
   * The example itself: three generations from the three-candidate seed.
   * It stops early under the same conditions as any run; a finished run
   * ends with the elite of the last generation (index 2) followed by the
   * two mutations of it made in that generation, after exactly the calls
   * of the three generations.
   */
  method BasicOptimization<I>(available: bool, catalog: seq<Entry<I>>, host: Host<I, string>)
    returns (outcome: Outcome<string>, calls: seq<Call<I, string>>)
    ensures outcome.DiscoveryAborted? <==> DiscoveryOf(available, catalog).Aborted?
    ensures outcome.DiscoveryAborted? ==> outcome.culprit == DiscoveryOf(available, catalog).culprit
    ensures outcome.NoEvaluator? <==>
      DiscoveryOf(available, catalog).Discovered? &&
      BindingOf(DiscoveryOf(available, catalog).plugins, host).0.None?
    ensures outcome.NoMutator? <==>
      DiscoveryOf(available, catalog).Discovered? &&
      BindingOf(DiscoveryOf(available, catalog).plugins, host).0.Some? &&
      BindingOf(DiscoveryOf(available, catalog).plugins, host).1.None?
    ensures !outcome.Finished? ==> calls == []
    ensures outcome.Finished? ==>
      && DiscoveryOf(available, catalog).Discovered?
      && var (evaluator, mutator) := BindingOf(DiscoveryOf(available, catalog).plugins, host);
      && evaluator.Some? && mutator.Some?
      && var b := Bound(host, evaluator.value, mutator.value);
      && Scored(outcome.best, outcome.bestScore) == Elite(b, PopulationAt(b, SeedPopulation, 2), 2)
      && outcome.population ==
           [outcome.best, host.mutate(mutator.value, outcome.best, 2, 1), host.mutate(mutator.value, outcome.best, 2, 2)]
      && calls == RunLog(b, SeedPopulation, GenerationCount)
  {
    outcome, calls := Optimize(available, catalog, host, SeedPopulation, GenerationCount);
    if outcome.Finished? {
      var (evaluator, mutator) := BindingOf(DiscoveryOf(available, catalog).plugins, host);
      OffspringOfThree(Bound(host, evaluator.value, mutator.value), outcome.best, 2);
    }
  }

  /** A population of three: the elite and the mutations for slots 1 and 2. */
  lemma OffspringOfThree<I, C>(b: Bound<I, C>, elite: C, g: nat)
    ensures Offspring(b, elite, 3, g) == [elite, b.Mutant(elite, g, 1), b.Mutant(elite, g, 2)]
  {
    assert seq(2, k requires 0 <= k < 2 => b.Mutant(elite, g, k + 1)) == [b.Mutant(elite, g, 1), b.Mutant(elite, g, 2)];
  }

  /** Every plugin in the registry is the instance some catalog entry loaded. */
  lemma ItemsWereLoaded<I>(catalog: seq<Entry<I>>)
    requires Discover(catalog).Discovered?
    ensures var items := Discover(catalog).plugins.Items();
      forall i :: 0 <= i < |items| ==> exists k :: 0 <= k < |catalog| && catalog[k].load == Loaded(items[i])
  {
    var r := Discover(catalog).plugins;
    LastLoadWins(catalog);
    forall i | 0 <= i < |r.Items()|
      ensures exists k :: 0 <= k < |catalog| && catalog[k].load == Loaded(r.Items()[i])
    {
      var n := r.names[i];
      assert n in r.instances;
      var k := LastLoaded(catalog, n);
      assert catalog[k].load == Loaded(r.Items()[i]);
    }
  }

  /**
   * With no Mutator among the instances the catalog loads, the run stops
   * before the loop (as "no evaluator" or "no mutator") and makes no
   * plugin call.
   */
  lemma NoMutatorMeansNoRun<I, C>(available: bool, catalog: seq<Entry<I>>, host: Host<I, C>)
    requires forall k :: 0 <= k < |catalog| && catalog[k].load.Loaded? ==> !host.isMutator(catalog[k].load.instance)
    ensures DiscoveryOf(available, catalog).Discovered? ==>
      BindingOf(DiscoveryOf(available, catalog).plugins, host).1 == None
  {
    var d := DiscoveryOf(available, catalog);
    if d.Discovered? {
      var items := d.plugins.Items();
      if available {
        ItemsWereLoaded(catalog);
      }
      forall i | 0 <= i < |items| ensures !BindsAs(host, items[i], MutatorRole) {
        if available {
          var k :| 0 <= k < |catalog| && catalog[k].load == Loaded(items[i]);
        }
      }
      assert LastBound(items, host, MutatorRole) < 0;
    }
  }

  /**
   * Two Evaluators named "a" then "b": discovery keeps both, and the
   * binding loop ends with "b" as the evaluator.
   */
  lemma LaterEvaluatorWins<I, C>(host: Host<I, C>, x: I, y: I)
    requires host.isEvaluator(x) && host.isEvaluator(y)
    ensures var d := Discover([Entry("a", Loaded(x)), Entry("b", Loaded(y))]);
      d.Discovered? && d.plugins.names == ["a", "b"] &&
      BindingOf(d.plugins, host).0 == Some(y)
  {
    var ea, eb := Entry("a", Loaded(x)), Entry("b", Loaded(y));
    DiscoverSnoc([], ea);
    assert [] + [ea] == [ea];
    DiscoverSnoc([ea], eb);
    assert [ea] + [eb] == [ea, eb];
    var r := Registry(["a", "b"], map["a" := x, "b" := y]);
    assert Discover([ea, eb]) == Discovered(r);
    BindsLast(r, host, x, y);
  }

  /**
   * Three Evaluators named "a", "b", "a": the second "a" overwrites the
   * first but keeps its place in the dict, so the binding loop visits
   * ["a", "b"] and ends with "b" as the evaluator, not the plugin that
   * was discovered last.
   */
  lemma OverwriteKeepsFirstPosition<I, C>(host: Host<I, C>, x: I, y: I, z: I)
    requires host.isEvaluator(x) && host.isEvaluator(y) && host.isEvaluator(z)
    ensures var d := Discover([Entry("a", Loaded(x)), Entry("b", Loaded(y)), Entry("a", Loaded(z))]);
      d.Discovered? && d.plugins.names == ["a", "b"] && d.plugins.instances["a"] == z &&
      BindingOf(d.plugins, host).0 == Some(y)
  {
    var ea, eb, ea' := Entry("a", Loaded(x)), Entry("b", Loaded(y)), Entry("a", Loaded(z));
    DiscoverSnoc([], ea);
    assert [] + [ea] == [ea];
    DiscoverSnoc([ea], eb);
    assert [ea] + [eb] == [ea, eb];
    assert Discover([ea, eb]) == Discovered(Registry(["a", "b"], map["a" := x, "b" := y]));
    DiscoverSnoc([ea, eb], ea');
    assert [ea, eb] + [ea'] == [ea, eb, ea'];
    var r := Registry(["a", "b"], map["a" := z, "b" := y]);
    assert map["a" := x, "b" := y]["a" := z] == map["a" := z, "b" := y];
    assert Discover([ea, eb, ea']) == Discovered(r);
    BindsLast(r, host, z, y);
  }

  /** Binding over the registry ["a" := u, "b" := w] of two Evaluators picks `w`. */
  lemma BindsLast<I, C>(r: Registry<I>, host: Host<I, C>, u: I, w: I)
    requires r == Registry(["a", "b"], map["a" := u, "b" := w])
    requires host.isEvaluator(u) && host.isEvaluator(w)
    ensures r.Valid() && BindingOf(r, host).0 == Some(w)
  {
    var items := r.Items();
    assert items == [u, w];
    assert items[..1] == [u];
  }

  /**
   * Seed ["c1", "c2", "c3"] scored 7, 9 and 5 in generation 0: the elite
   * is "c2" with 9, and generation 1 starts from "c2" and two mutations
   * of "c2" made in generation 0.
   */
  lemma FirstGenerationExample<I>(host: Host<I, string>, evaluator: I, mutator: I)
    requires host.evaluate(evaluator, "c1", 0, 0) == 7
    requires host.evaluate(evaluator, "c2", 0, 1) == 9
    requires host.evaluate(evaluator, "c3", 0, 2) == 5
    ensures var b := Bound(host, evaluator, mutator);
      && Elite(b, ["c1", "c2", "c3"], 0) == Scored("c2", 9)
      && PopulationAt(b, ["c1", "c2", "c3"], 1) ==
           ["c2", host.mutate(mutator, "c2", 0, 1), host.mutate(mutator, "c2", 0, 2)]
  {
    var b := Bound(host, evaluator, mutator);
    var e := Evaluated(b, ["c1", "c2", "c3"], 0);
    assert e == [Scored("c1", 7), Scored("c2", 9), Scored("c3", 5)];
    assert e[..2] == [Scored("c1", 7), Scored("c2", 9)];
    assert e[..2][..1] == [Scored("c1", 7)];
    assert FirstBestIndex(e[..2][..1]) == 0;
    assert FirstBestIndex(e[..2]) == 1;
    assert FirstBestIndex(e) == 1;
    assert seq(2, k requires 0 <= k < 2 => b.Mutant("c2", 0, k + 1)) == [host.mutate(mutator, "c2", 0, 1), host.mutate(mutator, "c2", 0, 2)];
  }
}

/**
 * The optimization loop: each generation evaluates every candidate in
 * population order, sorts the (candidate, score) pairs by score with a
 * stable descending sort, keeps the head as the elite, and builds the next
 * population as the elite followed by N-1 mutations of the elite.
 *
 * Every plugin call is recorded in a call log, so that the contracts can
 * say which calls are made, on what, and how many.
 */
module Evolution {
  import opened Selection
  import opened Capabilities

  /** One plugin call, with the generation index passed in its context. */
  datatype Call<I, C> =
    | EvaluateCall(plugin: I, candidate: C, generation: nat)
    | MutateCall(plugin: I, candidate: C, generation: nat)

  /** The evaluator and mutator the loop runs with, and the code behind them. */
  datatype Bound<!I, !C> = Bound(host: Host<I, C>, evaluator: I, mutator: I) {

    /** The total score the evaluator gives `c`, in slot `i` of generation `g`. */
    function Score(c: C, g: nat, i: nat): int {
      host.evaluate(evaluator, c, g, i)
    }

    /** The candidate the mutator makes from `c` for slot `i`, in generation `g`. */
    function Mutant(c: C, g: nat, i: nat): C {
      host.mutate(mutator, c, g, i)
    }
  }

  /** The `evaluated` list of generation `g` before sorting. */
  function Evaluated<I, C>(b: Bound<I, C>, pop: seq<C>, g: nat): seq<Scored<C>> {
    seq(|pop|, i requires 0 <= i < |pop| => Scored(pop[i], b.Score(pop[i], g, i)))
  }

  /** Position in the population of the earliest candidate of maximal score. */
  function EliteIndex<I, C>(b: Bound<I, C>, pop: seq<C>, g: nat): nat
    requires |pop| > 0
  {
    FirstBestIndex(Evaluated(b, pop, g))
  }

  /** The elite of generation `g`: the earliest pair of maximal score. */
  function Elite<I, C>(b: Bound<I, C>, pop: seq<C>, g: nat): Scored<C>
    requires |pop| > 0
  {
    Evaluated(b, pop, g)[EliteIndex(b, pop, g)]
  }

  /** `[elite]` followed by `size - 1` mutations of the elite. */
  function Offspring<I, C>(b: Bound<I, C>, elite: C, size: nat, g: nat): seq<C>
    requires size > 0
  {
    [elite] + seq(size - 1, k requires 0 <= k < size - 1 => b.Mutant(elite, g, k + 1))
  }

  /** The population at the start of generation `g` (index 0 is the seed). */
  function PopulationAt<I, C>(b: Bound<I, C>, initial: seq<C>, g: nat): (p: seq<C>)
    requires |initial| > 0
    ensures |p| == |initial|
  {
    if g == 0 then initial
    else
      var prev := PopulationAt(b, initial, g - 1);
      Offspring(b, Elite(b, prev, g - 1).candidate, |prev|, g - 1)
  }

  /** Each generation after the first opens with the elite of the one before. */
  lemma PopulationHeadIsElite<I, C>(b: Bound<I, C>, initial: seq<C>, g: nat)
    requires |initial| > 0
    ensures PopulationAt(b, initial, g + 1)[0] == Elite(b, PopulationAt(b, initial, g), g).candidate
  {
  }

  /** One evaluate call per candidate, in population order. */
  function EvaluateCalls<I, C>(b: Bound<I, C>, pop: seq<C>, g: nat): seq<Call<I, C>> {
    seq(|pop|, i requires 0 <= i < |pop| => EvaluateCall(b.evaluator, pop[i], g))
  }

  /** The `size - 1` mutate calls on the elite. */
  function MutateCalls<I, C>(b: Bound<I, C>, elite: C, size: nat, g: nat): seq<Call<I, C>>
    requires size > 0
  {
    seq(size - 1, _ => MutateCall(b.mutator, elite, g))
  }

  /** The calls of one generation: N evaluations, then N-1 mutations of the elite. */
  function GenerationLog<I, C>(b: Bound<I, C>, pop: seq<C>, g: nat): seq<Call<I, C>>
    requires |pop| > 0
  {
    EvaluateCalls(b, pop, g) + MutateCalls(b, Elite(b, pop, g).candidate, |pop|, g)
  }

  /** The calls of the first `gens` generations, in the order they are made. */
  function RunLog<I, C>(b: Bound<I, C>, initial: seq<C>, gens: nat): seq<Call<I, C>>
    requires |initial| > 0
  {
    if gens == 0 then []
    else RunLog(b, initial, gens - 1) + GenerationLog(b, PopulationAt(b, initial, gens - 1), gens - 1)
  }

  /**
   * The elite is what the loop reads as `evaluated[0]` after the stable
   * descending sort, and it is the earliest candidate, in population
   * order, whose score is maximal: every candidate scores at most as much,
   * every earlier one strictly less.
   */
  lemma EliteIsSortHead<I, C>(b: Bound<I, C>, pop: seq<C>, g: nat)
    requires |pop| > 0
    ensures |SortByScoreDesc(Evaluated(b, pop, g))| == |pop|
    ensures SortByScoreDesc(Evaluated(b, pop, g))[0] == Elite(b, pop, g)
    ensures EliteIndex(b, pop, g) < |pop|
    ensures Elite(b, pop, g) == Scored(pop[EliteIndex(b, pop, g)], b.Score(pop[EliteIndex(b, pop, g)], g, EliteIndex(b, pop, g)))
    ensures forall j :: 0 <= j < |pop| ==> b.Score(pop[j], g, j) <= Elite(b, pop, g).score
    ensures forall j :: 0 <= j < EliteIndex(b, pop, g) ==> b.Score(pop[j], g, j) < Elite(b, pop, g).score
  {
    var e := Evaluated(b, pop, g);
    SortHeadIsFirstBest(e);
    assert forall j :: 0 <= j < |pop| ==> e[j].score == b.Score(pop[j], g, j);
  }

  /**
   * Evaluation, in population order: one pair per candidate, each with the
   * score of its own evaluate call for generation `g`.
   */
  method EvaluatePopulation<I, C>(b: Bound<I, C>, pop: seq<C>, g: nat)
    returns (evaluated: seq<Scored<C>>, calls: seq<Call<I, C>>)
    ensures |evaluated| == |pop| && |calls| == |pop|
    ensures forall i :: 0 <= i < |pop| ==>
      evaluated[i] == Scored(pop[i], b.Score(pop[i], g, i)) &&
      calls[i] == EvaluateCall(b.evaluator, pop[i], g)
    ensures evaluated == Evaluated(b, pop, g) && calls == EvaluateCalls(b, pop, g)
  {
    evaluated, calls := [], [];
    for i := 0 to |pop|
      invariant |evaluated| == i && |calls| == i
      invariant forall j :: 0 <= j < i ==>
        evaluated[j] == Scored(pop[j], b.Score(pop[j], g, j)) &&
        calls[j] == EvaluateCall(b.evaluator, pop[j], g)
    {
      var score := b.Score(pop[i], g, i);
      calls := calls + [EvaluateCall(b.evaluator, pop[i], g)];
      evaluated := evaluated + [Scored(pop[i], score)];
    }
  }

  /**
   * Reproduction: the elite first, then `size - 1` mutate calls, every one
   * on the elite.
   */
  method Reproduce<I, C>(b: Bound<I, C>, elite: C, size: nat, g: nat)
    returns (next: seq<C>, calls: seq<Call<I, C>>)
    requires size > 0
    ensures |next| == size && next[0] == elite
    ensures forall i :: 1 <= i < size ==> next[i] == b.Mutant(elite, g, i)
    ensures |calls| == size - 1
    ensures forall i :: 0 <= i < |calls| ==> calls[i] == MutateCall(b.mutator, elite, g)
    ensures next == Offspring(b, elite, size, g) && calls == MutateCalls(b, elite, size, g)
  {
    next, calls := [elite], [];
    for i := 0 to size - 1
      invariant |next| == i + 1 && next[0] == elite && |calls| == i
      invariant forall j :: 1 <= j <= i ==> next[j] == b.Mutant(elite, g, j)
      invariant forall j :: 0 <= j < i ==> calls[j] == MutateCall(b.mutator, elite, g)
    {
      var mutated := b.Mutant(elite, g, i + 1);
      calls := calls + [MutateCall(b.mutator, elite, g)];
      next := next + [mutated];
    }
    assert next == [elite] + next[1..];
  }

  /**
   * One generation. The elite is the earliest candidate of maximal score;
   * the next population has the same size, starts with the elite, and
   * holds mutations of the elite everywhere else; the calls are the N
   * evaluations in population order, then N-1 mutations of the elite.
   */
  method RunGeneration<I, C>(b: Bound<I, C>, pop: seq<C>, g: nat)
    returns (best: C, bestScore: int, next: seq<C>, calls: seq<Call<I, C>>)
    requires |pop| > 0
    ensures Scored(best, bestScore) == Elite(b, pop, g)
    ensures best == pop[EliteIndex(b, pop, g)] && bestScore == b.Score(best, g, EliteIndex(b, pop, g))
    ensures forall j :: 0 <= j < |pop| ==> b.Score(pop[j], g, j) <= bestScore
    ensures forall j :: 0 <= j < EliteIndex(b, pop, g) ==> b.Score(pop[j], g, j) < bestScore
    ensures |next| == |pop| && next[0] == best
    ensures forall i :: 1 <= i < |pop| ==> next[i] == b.Mutant(best, g, i)
    ensures next == Offspring(b, best, |pop|, g)
    ensures calls == GenerationLog(b, pop, g)
  {
    var evaluated, evalCalls := EvaluatePopulation(b, pop, g);
    EliteIsSortHead(b, pop, g);
    evaluated := SortByScoreDesc(evaluated);
    best, bestScore := evaluated[0].candidate, evaluated[0].score;
    var mutateCalls;
    next, mutateCalls := Reproduce(b, best, |pop|, g);
    calls := evalCalls + mutateCalls;
  }

  /**
   * The generation loop: `gens` generations from the seed population. The
   * result is the population after the last generation and that
   * generation's elite, and the calls are exactly those of every
   * generation in turn.
   */
  method RunGenerations<I, C>(b: Bound<I, C>, initial: seq<C>, gens: nat)
    returns (best: C, bestScore: int, population: seq<C>, calls: seq<Call<I, C>>)
    requires |initial| > 0 && gens > 0
    ensures population == PopulationAt(b, initial, gens) && |population| == |initial|
    ensures Scored(best, bestScore) == Elite(b, PopulationAt(b, initial, gens - 1), gens - 1)
    ensures population == Offspring(b, best, |initial|, gens - 1) && population[0] == best
    ensures calls == RunLog(b, initial, gens)
  {
    population, calls := initial, [];
    best, bestScore := initial[0], 0;  // unbound in the source until the first generation ends
    for generation := 0 to gens
      invariant population == PopulationAt(b, initial, generation)
      invariant calls == RunLog(b, initial, generation)
      invariant generation > 0 ==>
        Scored(best, bestScore) == Elite(b, PopulationAt(b, initial, generation - 1), generation - 1) &&
        population == Offspring(b, best, |initial|, generation - 1)
    {
      var next, generationCalls;
      best, bestScore, next, generationCalls := RunGeneration(b, population, generation);
      calls := calls + generationCalls;
      population := next;
    }
  }

  /** Number of mutate calls in a log. */
  function Mutations<I, C>(log: seq<Call<I, C>>): nat {
    if log == [] then 0
    else Mutations(log[..|log| - 1]) + if log[|log| - 1].MutateCall? then 1 else 0
  }

  /** Number of evaluate calls in a log. */
  function Evaluations<I, C>(log: seq<Call<I, C>>): nat {
    if log == [] then 0
    else Evaluations(log[..|log| - 1]) + if log[|log| - 1].EvaluateCall? then 1 else 0
  }

  lemma {:induction false} CountsAppend<I, C>(a: seq<Call<I, C>>, c: seq<Call<I, C>>)
    ensures Mutations(a + c) == Mutations(a) + Mutations(c)
    ensures Evaluations(a + c) == Evaluations(a) + Evaluations(c)
  {
    if c == [] {
      assert a + c == a;
    } else {
      assert (a + c)[..|a + c| - 1] == a + c[..|c| - 1];
      CountsAppend(a, c[..|c| - 1]);
    }
  }

  lemma {:induction false} CountsOfUniform<I, C>(log: seq<Call<I, C>>, k: Call<I, C>)
    requires forall i :: 0 <= i < |log| ==> log[i] == k
    ensures Mutations(log) == if k.MutateCall? then |log| else 0
    ensures Evaluations(log) == if k.EvaluateCall? then |log| else 0
  {
    if log != [] {
      CountsOfUniform(log[..|log| - 1], k);
    }
  }

  lemma {:induction false} CountsOfEvaluations<I, C>(log: seq<Call<I, C>>)
    requires forall i :: 0 <= i < |log| ==> log[i].EvaluateCall?
    ensures Mutations(log) == 0 && Evaluations(log) == |log|
  {
    if log != [] {
      CountsOfEvaluations(log[..|log| - 1]);
    }
  }

  /** One generation makes N evaluate calls and N-1 mutate calls. */
  lemma GenerationLogCounts<I, C>(b: Bound<I, C>, pop: seq<C>, g: nat)
    requires |pop| > 0
    ensures Evaluations(GenerationLog(b, pop, g)) == |pop|
    ensures Mutations(GenerationLog(b, pop, g)) == |pop| - 1
  {
    var evals := EvaluateCalls(b, pop, g);
    var muts := MutateCalls(b, Elite(b, pop, g).candidate, |pop|, g);
    CountsOfEvaluations(evals);
    CountsOfUniform(muts, MutateCall(b.mutator, Elite(b, pop, g).candidate, g));
    CountsAppend(evals, muts);
  }

  /**
   * In one generation every call carries that generation's index; the
   * evaluate calls go to the evaluator, on members of the population; the
   * mutate calls go to the mutator, on the elite.
   */
  lemma GenerationLogCalls<I, C>(b: Bound<I, C>, pop: seq<C>, g: nat)
    requires |pop| > 0
    ensures forall call :: call in GenerationLog(b, pop, g) ==>
      && call.generation == g
      && (call.EvaluateCall? ==> call.plugin == b.evaluator && call.candidate in pop)
      && (call.MutateCall? ==> call.plugin == b.mutator && call.candidate == Elite(b, pop, g).candidate)
  {
  }

  /**
   * Every call of a run goes to the bound plugin of its kind with the
   * generation it was made in. An evaluated candidate belongs to the
   * population of that generation, so a mutant is first evaluated in the
   * generation after the one that made it; a mutated candidate is the
   * elite, which opens the next population.
   */
  lemma {:induction false} RunLogCalls<I, C>(b: Bound<I, C>, initial: seq<C>, gens: nat)
    requires |initial| > 0
    ensures forall call :: call in RunLog(b, initial, gens) ==>
      && call.generation < gens
      && (call.EvaluateCall? ==>
            call.plugin == b.evaluator && call.candidate in PopulationAt(b, initial, call.generation))
      && (call.MutateCall? ==>
            call.plugin == b.mutator && call.candidate == PopulationAt(b, initial, call.generation + 1)[0])
  {
    if gens > 0 {
      var g := gens - 1;
      var pop := PopulationAt(b, initial, g);
      var before, here := RunLog(b, initial, g), GenerationLog(b, pop, g);
      RunLogCalls(b, initial, g);
      PopulationHeadIsElite(b, initial, g);
      GenerationLogCalls(b, pop, g);
      forall call | call in RunLog(b, initial, gens)
        ensures call.generation < gens
        ensures call.EvaluateCall? ==>
          call.plugin == b.evaluator && call.candidate in PopulationAt(b, initial, call.generation)
        ensures call.MutateCall? ==>
          call.plugin == b.mutator && call.candidate == PopulationAt(b, initial, call.generation + 1)[0]
      {
        if call !in before {
          assert call in here && call.generation == g;
        }
      }
    }
  }
}

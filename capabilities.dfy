/**
 * The two capability contracts a plugin may satisfy, Evaluator and
 * Mutator, seen from the loop. Plugin instances are an abstract type `I`
 * and candidates an abstract type `C`; everything the loop asks of a
 * plugin is a total function of the host, which the model does not look
 * into.
 */
module Capabilities {

  /**
   * The foreign plugin code: the two `isinstance` checks and the two
   * plugin operations.
   *
   * `evaluate(p, c, g, i)` is the `total_score` of the result of
   * `p.evaluate(c, {"generation": g})` made for slot `i` of the population
   * of generation `g`; `mutate(p, c, g, i)` is what
   * `p.mutate(c, {"generation": g})` returns when it fills slot `i` of the
   * next population. The plugin only ever sees `c` and `g`; the slot is
   * there so that repeated calls with the same arguments may answer
   * differently, as a plugin with internal state or randomness does.
   * Within one run no two calls share (generation, slot), so these two
   * functions can reproduce any sequence of answers.
   */
  datatype Host<!I, !C> = Host(
    isEvaluator: I -> bool,
    isMutator: I -> bool,
    evaluate: (I, C, nat, nat) -> int,
    mutate: (I, C, nat, nat) -> C)

  /** The two variables the binding loop assigns. */
  datatype Role = EvaluatorRole | MutatorRole

  /**
   * Whether visiting plugin `p` assigns the variable of `role`. A plugin
   * becomes the mutator only through the `elif`, so one that is both an
   * Evaluator and a Mutator only ever becomes the evaluator.
   */
  predicate BindsAs<I, C>(host: Host<I, C>, p: I, role: Role) {
    match role
    case EvaluatorRole => host.isEvaluator(p)
    case MutatorRole => !host.isEvaluator(p) && host.isMutator(p)
  }
}

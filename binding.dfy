/**
 * Binding: the loop over the discovered plugins, in dict order, that
 * assigns the `evaluator` and `mutator` variables. Each assignment
 * overwrites the previous one, so the last plugin of each kind wins.
 */
module Binding {
  import opened Wrappers
  import opened Capabilities
  import opened PluginRegistry

  /**
   * Index of the last item that binds as `role`, or -1 if none does: the
   * last assignment the loop makes to that role's variable.
   */
  function LastBound<I, C>(items: seq<I>, host: Host<I, C>, role: Role): (k: int)
    ensures -1 <= k < |items|
    ensures k >= 0 ==> BindsAs(host, items[k], role)
    ensures forall j :: k < j < |items| ==> !BindsAs(host, items[j], role)
  {
    if items == [] then -1
    else if BindsAs(host, items[|items| - 1], role) then |items| - 1
    else LastBound(items[..|items| - 1], host, role)
  }

  /** The plugin the variable of `role` holds once the loop is over. */
  function Chosen<I, C>(items: seq<I>, host: Host<I, C>, role: Role): Option<I> {
    var k := LastBound(items, host, role);
    if k >= 0 then Some(items[k]) else None
  }

  /**
   * The binding loop: visits the plugins in dict order, assigns every
   * Evaluator to `evaluator` and, through the `elif`, every other Mutator
   * to `mutator`.
   */
  method BindPlugins<I, C>(plugins: Registry<I>, host: Host<I, C>)
    returns (evaluator: Option<I>, mutator: Option<I>)
    requires plugins.Valid()
    ensures evaluator == Chosen(plugins.Items(), host, EvaluatorRole)
    ensures mutator == Chosen(plugins.Items(), host, MutatorRole)
    ensures evaluator.None? <==> forall i :: 0 <= i < |plugins.names| ==> !host.isEvaluator(plugins.Items()[i])
    ensures evaluator.Some? ==> host.isEvaluator(evaluator.value)
    ensures mutator.None? <==>
      forall i :: 0 <= i < |plugins.names| ==> !BindsAs(host, plugins.Items()[i], MutatorRole)
    ensures mutator.Some? ==> host.isMutator(mutator.value) && !host.isEvaluator(mutator.value)
  {
    var items := plugins.Items();
    evaluator, mutator := None, None;
    for i := 0 to |plugins.names|
      invariant evaluator == Chosen(items[..i], host, EvaluatorRole)
      invariant mutator == Chosen(items[..i], host, MutatorRole)
    {
      var plugin := plugins.instances[plugins.names[i]];
      assert items[..i + 1][..i] == items[..i];
      if host.isEvaluator(plugin) {
        evaluator := Some(plugin);
      } else if host.isMutator(plugin) {
        mutator := Some(plugin);
      }
    }
    assert items[..|plugins.names|] == items;
  }
}

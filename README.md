# Basic EvoSuite optimization, modelled in Dafny

The getting-started example of EvoSuite (`getting-started/basic_optimization.py`)
discovers the plugins advertised under the `evosuite.plugins` entry-point
group, binds one Evaluator and one Mutator among them, and runs a small
elitist evolutionary loop: three generations over the seed population
`["candidate_1", "candidate_2", "candidate_3"]`. Each generation evaluates
every candidate, sorts the (candidate, score) pairs by score, highest first,
keeps the best candidate and fills the rest of the next population with
mutations of it.

The model follows the program's three parts, each in the imperative form the
source has, with the functions that specify them and lemmas about those
functions:

- `registry.dfy` (module `PluginRegistry`): discovery. The catalog of entry
  points is a sequence of entries, each with the abstract outcome of loading
  and instantiating it: loaded, failed with an `Exception` (reported and
  skipped), or interrupted by a `BaseException` that `except Exception` does
  not catch (discovery is aborted). The `plugins` dict is a registry of names
  in first-insertion order plus a map, because a Python dict keeps a key in
  its first position when the key is assigned again. `DiscoverPlugins` is the
  loop, proved equal to the left fold `Discover`.
- `binding.dfy` (module `Binding`): the loop over `plugins.items()` that
  assigns `evaluator` and, through the `elif`, `mutator`. The last plugin of
  each kind in dict order wins.
- `selection.dfy` (module `Selection`): `evaluated.sort(key=..., reverse=True)`
  specified by a stable descending insertion sort, with proofs that it is
  ordered, a permutation, stable among equal scores, and that its head is the
  earliest pair of maximal score.
- `evolution.dfy` (module `Evolution`): evaluation, selection and
  reproduction of one generation, the loop over generations, and the log of
  plugin calls the run makes.
- `optimization.dfy` (module `Optimization`): the whole run with its two
  early stops, the example's constants, and worked scenarios.
- `capabilities.dfy` and `wrappers.dfy`: the plugin capabilities seen from the
  loop, and `Option`.

Plugin instances and candidates are abstract types. Everything the loop asks
of a plugin (the two `isinstance` checks, `evaluate` and `mutate`) is a total
function of a `Host` value passed in. `evaluate` and `mutate` also take the
slot of the population the call is made for. The plugin never sees that slot;
it lets two calls with the same candidate and generation answer differently,
as a plugin with state or randomness may, so the model covers every sequence
of answers a run can receive.

## Model

| member | source | states |
|---|---|---|
| PluginRegistry.DiscoverPlugins | getting-started/basic_optimization.py:28-43 | Without the plugin system the result is an empty registry; otherwise it is the fold over the catalog, and it stops with the culprit's name at the first load that raises past `except Exception`. |
| PluginRegistry.Discover | getting-started/basic_optimization.py:34-41 | The fold always leaves a well-formed registry: distinct names, and exactly those names as keys. |
| PluginRegistry.AbortIsFinal | getting-started/basic_optimization.py:34-41 | Once an entry has aborted discovery, the entries after it change nothing. |
| PluginRegistry.AbortedIffInterrupted | getting-started/basic_optimization.py:35-41 | Discovery is aborted exactly when some entry raises past `except Exception`, and the culprit is the first such entry. |
| PluginRegistry.LastLoadWins | getting-started/basic_optimization.py:38 | After discovery, a name is a key exactly when some entry loaded under it, and it holds the instance of the last such entry. |
| PluginRegistry.NamesInFirstLoadOrder | getting-started/basic_optimization.py:38 | The registry's names are ordered by each name's first successful load; overwriting a name does not move it. |
| PluginRegistry.FailedEntryIsSkipped | getting-started/basic_optimization.py:35-41 | Removing an entry whose load raised an `Exception` leaves the result of discovery unchanged. |
| PluginRegistry.LastLoaded | getting-started/basic_optimization.py:34-38 | The index of the last entry that loaded under a name: it loaded under that name and no later entry did; -1 when none did. |
| PluginRegistry.FirstLoaded | getting-started/basic_optimization.py:34-38 | The index of the first entry that loaded under a name: it loaded under that name and no earlier entry did; -1 when none did. |
| PluginRegistry.Registry.Put | getting-started/basic_optimization.py:38 | Storing an instance under a name keeps the registry well-formed. |
| Binding.LastBound | getting-started/basic_optimization.py:61-67 | The index of the last plugin that binds to a role: it binds, and no later plugin does; -1 when none does. |
| Binding.BindPlugins | getting-started/basic_optimization.py:58-67 | Each variable ends holding the last plugin of its kind in dict order, and is empty exactly when no plugin binds to it; the evaluator is an Evaluator, and the mutator is a Mutator that is not an Evaluator. |
| Selection.Insert | getting-started/basic_optimization.py:94 | Inserting a pair gives a permutation of the list plus that pair. |
| Selection.SortByScoreDesc | getting-started/basic_optimization.py:94 | The sorted list is a permutation of the evaluated list. |
| Selection.SortIsSorted | getting-started/basic_optimization.py:94 | The sorted list has non-increasing scores. |
| Selection.InsertIsStable | getting-started/basic_optimization.py:94 | Inserting a pair into a sorted list puts it after every pair of equal score already there. |
| Selection.SortIsStable | getting-started/basic_optimization.py:94 | For every score, the pairs with that score keep their order from the evaluated list. |
| Selection.FirstBestIndex | getting-started/basic_optimization.py:94-95 | An index of maximal score such that every earlier pair scores strictly less. |
| Selection.SortHeadIsFirstBest | getting-started/basic_optimization.py:94-95 | The head of the sorted list is the earliest pair of maximal score. |
| Evolution.EliteIsSortHead | getting-started/basic_optimization.py:94-95 | The pair read as `evaluated[0]` is the earliest candidate of the population whose score is maximal: all score at most as much, all earlier ones strictly less. |
| Evolution.EvaluatePopulation | getting-started/basic_optimization.py:87-90 | One pair per candidate, in population order, each with the score of its own evaluate call; one evaluate call per candidate, on the evaluator; the pairs are the list the selection step sorts. |
| Evolution.Reproduce | getting-started/basic_optimization.py:100-104 | The new population has the old size, starts with the elite and holds mutations of the elite everywhere else; N-1 mutate calls, all on the elite. |
| Evolution.RunGeneration | getting-started/basic_optimization.py:87-106 | One generation: the best candidate is the earliest of maximal score, with its score; the next population is the elite followed by its mutations; the calls are N evaluations then N-1 mutations. |
| Evolution.RunGenerations | getting-started/basic_optimization.py:83-106 | After the loop the population is the one the generations define, of the seed's size: the last generation's elite followed by its mutations; the best candidate and score are that elite's; the calls are those of every generation in turn. |
| Evolution.PopulationAt | getting-started/basic_optimization.py:100-106 | Every generation's population has the size of the seed population. |
| Evolution.PopulationHeadIsElite | getting-started/basic_optimization.py:100 | Each generation after the first starts with the elite of the one before. |
| Evolution.GenerationLogCounts | getting-started/basic_optimization.py:88-103 | One generation makes exactly N evaluate calls and N-1 mutate calls. |
| Evolution.GenerationLogCalls | getting-started/basic_optimization.py:88-103 | Every call of a generation carries its index; evaluate calls go to the evaluator on members of the population, mutate calls to the mutator on the elite. |
| Evolution.RunLogCalls | getting-started/basic_optimization.py:83-106 | Every call of a run is made in one of its generations, to the bound plugin of its kind; an evaluated candidate belongs to that generation's population, and a mutated one is the elite that opens the next population. |
| Optimization.Optimize | getting-started/basic_optimization.py:46-109 | The run is aborted exactly when discovery is, naming the entry whose error escaped; it stops with no evaluator, or then with no mutator, exactly when binding finds none, and then makes no plugin call; otherwise it ends with the generation loop's population, elite and calls. |
| Optimization.BasicOptimization | getting-started/basic_optimization.py:46-109 | The example's run from the three-candidate seed over three generations: it stops early under exactly the conditions of any run and then makes no call; a finished run had both plugins bound, reports the elite of generation 2 with its score, ends with that elite followed by the two mutations of it made in generation 2, and made exactly the calls of the three generations. |
| Optimization.ItemsWereLoaded | getting-started/basic_optimization.py:36-38 | Every plugin in the registry is the instance some entry loaded. |
| Optimization.NoMutatorMeansNoRun | getting-started/basic_optimization.py:61-75 | When no loaded instance is a Mutator, binding leaves `mutator` empty, so the run stops before the loop. |
| Optimization.LaterEvaluatorWins | getting-started/basic_optimization.py:61-63 | Two Evaluators "a" then "b": both are kept, and "b" becomes the evaluator. |
| Optimization.OverwriteKeepsFirstPosition | getting-started/basic_optimization.py:38 | Evaluators "a", "b", "a": the second "a" replaces the first in place, so the binding loop visits "a" then "b" and "b" becomes the evaluator, not the plugin discovered last. |
| Optimization.FirstGenerationExample | getting-started/basic_optimization.py:87-106 | Seed ["c1","c2","c3"] scored 7, 9, 5: the elite is "c2" with 9, and the next population is "c2" followed by two mutations of it. |

## Left out

- The import-time checks (lines 14-25): a missing EvoSuite core prints a message and exits; they are outside the loop. A missing `pkg_resources` is the `available` flag of discovery.
- Loading the configuration and printing its provenance (lines 50-52): its value is never read again; an exception it raises ends the run before discovery, which the model does not represent.
- `iter_entry_points`, `entry_point.load()` and the plugin constructors are foreign code; each entry's outcome is an input.
- Every `print`, and the formatting of scores with two decimals.
- `asyncio`: the awaited calls run one after the other, so the model makes them sequential.
- Scores are integers. The `total_score` floats, NaN and mixed int/float comparisons are not modelled, and neither is the lookup of `"total_score"` failing.
- What the plugins do inside `evaluate` and `mutate`, and any exception they raise.
- `if not evaluator` / `if not mutator` test truthiness; the model takes every plugin instance as truthy, so only a missing plugin stops the run.
- Optimize: requires a non-empty seed population and at least one generation. The example has three candidates and three generations; with zero generations the source would fail on the unbound `best_candidate` at line 109.
- Evolution.RunGenerations: `best` and `bestScore` start from a placeholder (the first seed candidate, 0) because the source leaves them unbound before the first generation; its contract says nothing about them for zero generations.
- The number of calls over a whole run (3N evaluations and 3(N-1) mutations) is stated per generation only, by Evolution.GenerationLogCounts together with Evolution.RunLogCalls.
- The call log records the plugin, the candidate and the generation of each call; the `{"generation": g}` context dict is represented by that generation number.

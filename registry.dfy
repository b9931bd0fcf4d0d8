/**
 * Plugin discovery: a fold over the catalog of advertised entry points
 * that loads and instantiates each one and stores the instance under the
 * entry's name. A load that raises an `Exception` is reported and
 * skipped; discovery goes on with the next entry.
 *
 * The catalog itself (`iter_entry_points`) and the outcome of loading each
 * entry are inputs: a sequence of entries, each with an abstract outcome.
 */
module PluginRegistry {

  /** How loading and instantiating one entry ends. */
  datatype Load<I> =
    | Loaded(instance: I)
      // `entry_point.load()` and the zero-argument constructor both returned
    | Failed
      // one of them raised an `Exception`: caught, reported, skipped
    | Interrupted
      // one of them raised a `BaseException` that is not an `Exception`
      // (`KeyboardInterrupt`, `SystemExit`): `except Exception` lets it through

  /** One advertised entry point of the plugin namespace. */
  datatype Entry<I> = Entry(name: string, load: Load<I>)

  /**
   * The `plugins` dict. Keys are kept in first-insertion order, as a dict
   * keeps them: storing under a key already present replaces the value
   * and leaves the key where it was.
   */
  datatype Registry<I> = Registry(names: seq<string>, instances: map<string, I>) {

    ghost predicate Valid() {
      && (forall i, j :: 0 <= i < j < |names| ==> names[i] != names[j])
      && (forall n :: n in instances <==> n in names)
    }

    /** The instances in the order `plugins.items()` visits them. */
    function Items(): seq<I>
      requires Valid()
    {
      seq(|names|, i requires 0 <= i < |names| => instances[names[i]])
    }

    /** `plugins[name] = instance` */
    function Put(name: string, instance: I): (r: Registry<I>)
      requires Valid()
      ensures r.Valid()
    {
      if name in instances then Registry(names, instances[name := instance])
      else Registry(names + [name], instances[name := instance])
    }
  }

  function EmptyRegistry<I>(): (r: Registry<I>)
    ensures r.Valid()
  {
    Registry([], map[])
  }

  /**
   * What discovery ends with: the filled registry, or the name of the
   * entry whose `BaseException` escaped and aborted it.
   */
  datatype Discovery<I> = Discovered(plugins: Registry<I>) | Aborted(culprit: string) {
    ghost predicate Valid() {
      Discovered? ==> plugins.Valid()
    }
  }

  /** One iteration of the discovery loop. */
  function Step<I>(d: Discovery<I>, e: Entry<I>): (r: Discovery<I>)
    requires d.Valid()
    ensures r.Valid()
  {
    match d
    case Aborted(_) => d
    case Discovered(plugins) =>
      match e.load
      case Loaded(instance) => Discovered(plugins.Put(e.name, instance))
      case Failed => d
      case Interrupted => Aborted(e.name)
  }

  /** The result of discovery over `catalog`, entry by entry from the left. */
  function Discover<I>(catalog: seq<Entry<I>>): (d: Discovery<I>)
    ensures d.Valid()
  {
    if catalog == [] then Discovered(EmptyRegistry())
    else Step(Discover(catalog[..|catalog| - 1]), catalog[|catalog| - 1])
  }

  /** Discovery as a whole: nothing is found when the plugin system is missing. */
  function DiscoveryOf<I>(available: bool, catalog: seq<Entry<I>>): (d: Discovery<I>)
    ensures d.Valid()
  {
    if available then Discover(catalog) else Discovered(EmptyRegistry())
  }

  /**
   * `discover_plugins`: an empty registry when the plugin system is not
   * available; otherwise the fold over the catalog, returning at the
   * first entry whose load raises past `except Exception`.
   */
  method DiscoverPlugins<I>(available: bool, catalog: seq<Entry<I>>) returns (d: Discovery<I>)
    ensures !available ==> d == Discovered(Registry([], map[]))
    ensures available ==> d == Discover(catalog)
    ensures d == DiscoveryOf(available, catalog)
  {
    if !available {
      return Discovered(EmptyRegistry());
    }
    var plugins := EmptyRegistry();
    for i := 0 to |catalog|
      invariant plugins.Valid()
      invariant Discover(catalog[..i]) == Discovered(plugins)
    {
      var entry := catalog[i];
      assert catalog[..i + 1][..i] == catalog[..i];
      match entry.load {
        case Loaded(instance) =>
          plugins := plugins.Put(entry.name, instance);
        case Failed =>
        case Interrupted =>
          AbortIsFinal(catalog, i + 1);
          return Aborted(entry.name);
      }
    }
    assert catalog[..|catalog|] == catalog;
    d := Discovered(plugins);
  }

  /** Discovery over a catalog with one more entry takes one more step. */
  lemma DiscoverSnoc<I>(catalog: seq<Entry<I>>, e: Entry<I>)
    ensures Discover(catalog + [e]) == Step(Discover(catalog), e)
  {
    assert (catalog + [e])[..|catalog|] == catalog;
  }

  /** Once an entry has aborted discovery, the later entries change nothing. */
  lemma {:induction false} AbortIsFinal<I>(catalog: seq<Entry<I>>, i: nat)
    requires i <= |catalog|
    requires Discover(catalog[..i]).Aborted?
    ensures Discover(catalog) == Discover(catalog[..i])
    decreases |catalog| - i
  {
    if i < |catalog| {
      assert catalog[..i + 1][..i] == catalog[..i];
      AbortIsFinal(catalog, i + 1);
    } else {
      assert catalog[..i] == catalog;
    }
  }

  /** Whether entry `e` loaded successfully under the name `n`. */
  predicate LoadedAs<I>(e: Entry<I>, n: string) {
    e.name == n && e.load.Loaded?
  }

  /** Index of the last entry that loaded under `n`, or -1 if none did. */
  function LastLoaded<I>(catalog: seq<Entry<I>>, n: string): (k: int)
    ensures -1 <= k < |catalog|
    ensures k >= 0 ==> LoadedAs(catalog[k], n)
    ensures forall j :: k < j < |catalog| ==> !LoadedAs(catalog[j], n)
  {
    if catalog == [] then -1
    else if LoadedAs(catalog[|catalog| - 1], n) then |catalog| - 1
    else LastLoaded(catalog[..|catalog| - 1], n)
  }

  /** Index of the first entry that loaded under `n`, or -1 if none did. */
  function FirstLoaded<I>(catalog: seq<Entry<I>>, n: string): (k: int)
    ensures -1 <= k < |catalog|
    ensures k >= 0 ==> LoadedAs(catalog[k], n)
    ensures forall j :: 0 <= j < |catalog| && (k < 0 || j < k) ==> !LoadedAs(catalog[j], n)
  {
    if catalog == [] then -1
    else
      var k := FirstLoaded(catalog[..|catalog| - 1], n);
      if k >= 0 then k
      else if LoadedAs(catalog[|catalog| - 1], n) then |catalog| - 1
      else -1
  }

  /**
   * Discovery is aborted exactly when some entry raised past
   * `except Exception`, and the culprit is the first such entry.
   */
  lemma {:induction false} AbortedIffInterrupted<I>(catalog: seq<Entry<I>>)
    ensures Discover(catalog).Aborted? <==>
      exists i :: 0 <= i < |catalog| && catalog[i].load.Interrupted?
    ensures Discover(catalog).Aborted? ==>
      exists i :: 0 <= i < |catalog| && catalog[i] == Entry(Discover(catalog).culprit, Interrupted) &&
        forall j :: 0 <= j < i ==> !catalog[j].load.Interrupted?
  {
    if catalog != [] {
      var p := catalog[..|catalog| - 1];
      var last := |catalog| - 1;
      AbortedIffInterrupted(p);
      assert forall j :: 0 <= j < |p| ==> p[j] == catalog[j];
      if Discover(p).Aborted? {
        var i :| 0 <= i < |p| && p[i] == Entry(Discover(p).culprit, Interrupted) &&
          forall j :: 0 <= j < i ==> !p[j].load.Interrupted?;
        assert catalog[i] == p[i];
      } else if catalog[last].load.Interrupted? {
        assert catalog[last] == Entry(Discover(catalog).culprit, Interrupted);
      }
    }
  }

  /**
   * After discovery completes, the registry holds exactly the names under
   * which some entry loaded, and each name holds the instance of the LAST
   * entry that loaded under it: a later entry overwrites an earlier one.
   */
  lemma {:induction false} LastLoadWins<I>(catalog: seq<Entry<I>>)
    requires Discover(catalog).Discovered?
    ensures forall n :: n in Discover(catalog).plugins.instances <==> LastLoaded(catalog, n) >= 0
    ensures forall n :: n in Discover(catalog).plugins.instances ==>
      Discover(catalog).plugins.instances[n] == catalog[LastLoaded(catalog, n)].load.instance
  {
    if catalog != [] {
      var p := catalog[..|catalog| - 1];
      var e := catalog[|catalog| - 1];
      assert Discover(p).Discovered?;
      LastLoadWins(p);
      forall n ensures LastLoaded(catalog, n) == if LoadedAs(e, n) then |catalog| - 1 else LastLoaded(p, n) {
      }
    }
  }

  /**
   * After discovery completes, the names are in the order of each name's
   * FIRST successful load: overwriting a name does not move it.
   */
  lemma {:induction false} NamesInFirstLoadOrder<I>(catalog: seq<Entry<I>>)
    requires Discover(catalog).Discovered?
    ensures var names := Discover(catalog).plugins.names;
      forall i, j :: 0 <= i < j < |names| ==> 0 <= FirstLoaded(catalog, names[i]) < FirstLoaded(catalog, names[j])
  {
    if catalog != [] {
      var p, e := catalog[..|catalog| - 1], catalog[|catalog| - 1];
      assert Discover(p).Discovered?;
      NamesInFirstLoadOrder(p);
      LastLoadWins(p);
      var before := Discover(p).plugins;
      forall i | 0 <= i < |before.names| ensures FirstLoaded(p, before.names[i]) >= 0 {
        assert before.names[i] in before.instances;
      }
      FirstLoadsKept(catalog, before.names);
      if e.load.Loaded? && e.name !in before.instances {
        assert FirstLoaded(p, e.name) < 0;
        FirstLoadAppended(catalog, before.names, e.name);
        assert Discover(catalog).plugins.names == before.names + [e.name];
      } else {
        assert Discover(catalog).plugins.names == before.names;
      }
    }
  }

  /** Names that had loaded before the last entry keep their first load and its order. */
  lemma FirstLoadsKept<I>(catalog: seq<Entry<I>>, names: seq<string>)
    requires catalog != []
    requires forall i :: 0 <= i < |names| ==> FirstLoaded(catalog[..|catalog| - 1], names[i]) >= 0
    requires forall i, j :: 0 <= i < j < |names| ==>
      FirstLoaded(catalog[..|catalog| - 1], names[i]) < FirstLoaded(catalog[..|catalog| - 1], names[j])
    ensures forall i :: 0 <= i < |names| ==> 0 <= FirstLoaded(catalog, names[i]) < |catalog| - 1
    ensures forall i, j :: 0 <= i < j < |names| ==> FirstLoaded(catalog, names[i]) < FirstLoaded(catalog, names[j])
  {
    var p := catalog[..|catalog| - 1];
    forall i | 0 <= i < |names| ensures FirstLoaded(catalog, names[i]) == FirstLoaded(p, names[i]) {
    }
  }

  /** A name first loaded by the last entry comes after every earlier name. */
  lemma FirstLoadAppended<I>(catalog: seq<Entry<I>>, names: seq<string>, n: string)
    requires catalog != [] && LoadedAs(catalog[|catalog| - 1], n)
    requires FirstLoaded(catalog[..|catalog| - 1], n) < 0
    requires forall i :: 0 <= i < |names| ==> 0 <= FirstLoaded(catalog, names[i]) < |catalog| - 1
    requires forall i, j :: 0 <= i < j < |names| ==> FirstLoaded(catalog, names[i]) < FirstLoaded(catalog, names[j])
    ensures var all := names + [n];
      forall i, j :: 0 <= i < j < |all| ==> 0 <= FirstLoaded(catalog, all[i]) < FirstLoaded(catalog, all[j])
  {
    assert FirstLoaded(catalog, n) == |catalog| - 1;
  }

  /**
   * A failing entry does not stop discovery: with it removed, discovery
   * over the rest of the catalog gives the same result.
   */
  lemma {:induction false} FailedEntryIsSkipped<I>(before: seq<Entry<I>>, n: string, after: seq<Entry<I>>)
    ensures Discover(before + [Entry(n, Failed)] + after) == Discover(before + after)
    decreases |after|
  {
    var c := before + [Entry(n, Failed)] + after;
    if after == [] {
      assert c[..|c| - 1] == before;
      assert before + after == before;
    } else {
      var a' := after[..|after| - 1];
      FailedEntryIsSkipped(before, n, a');
      assert c[..|c| - 1] == before + [Entry(n, Failed)] + a';
      assert (before + after)[..|before + after| - 1] == before + a';
    }
  }
}

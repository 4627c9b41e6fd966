/**
 * The orchestrator `processCompanies`: for each input name, in order, consult
 * the cache; on a miss query the registry once, resolve the exact match,
 * record the outcome in the cache and pause before the next name.
 */
module Pipeline {
  import opened Wrappers
  import opened Types
  import ZefixSearch

  /** The registry client `getCompanyData`: every failure (404, other status, transport) is `None`. */
  type Registry = string -> Option<ZefixResponse>

  /** The cache object that `processCompanies` receives and updates in place. */
  class Cache {
    var entries: CacheData

    constructor (initial: CacheData)
      ensures entries == initial
    {
      entries := initial;
    }
  }

  /**
   * Everything a run has produced so far: the cache, the two output lists,
   * the registry queries issued (in order) and the number of pauses taken.
   */
  datatype RunState = RunState(
    cache: CacheData,
    newResults: seq<CompanyInfo>,
    notFound: seq<string>,
    queries: seq<string>,
    delays: nat)

  function Names(s: seq<string>): set<string>
  {
    set n | n in s
  }

  /** The outcome of querying the registry for `name`: the matching record stamped with `today`, or `None`. */
  function Resolve(registry: Registry, name: string, today: string): (r: Option<CompanyInfo>)
    ensures r.Some? ==> r.value.search_date == Some(today) && ZefixSearch.NamesMatch(name, r.value.company_name)
  {
    var data := registry(name);
    var info := if data.Some? then ZefixSearch.GetCantonalExcerpt(data, name) else None;
    if info.Some? then Some(info.value.(search_date := Some(today))) else None
  }

  /** One turn of the loop, for the name `name`. */
  function Step(registry: Registry, today: string, st: RunState, name: string): (r: RunState)
    ensures r.cache.Keys == st.cache.Keys + {name}
    ensures forall k :: k in st.cache ==> r.cache[k] == st.cache[k]
    ensures name !in st.cache ==> r.cache[name] == Resolve(registry, name, today)
    ensures st.queries <= r.queries && r.delays - st.delays == |r.queries| - |st.queries|
    ensures |r.queries| == |st.queries| + (if name in st.cache then 0 else 1)
    ensures |r.newResults| + |r.notFound| ==
            |st.newResults| + |st.notFound| + (if name in st.cache && st.cache[name].Some? then 0 else 1)
  {
    if name in st.cache then
      if st.cache[name] == None then st.(notFound := st.notFound + [name]) else st
    else
      var outcome := Resolve(registry, name, today);
      var asked := st.(cache := st.cache[name := outcome], queries := st.queries + [name], delays := st.delays + 1);
      if outcome.Some? then asked.(newResults := st.newResults + [outcome.value])
      else asked.(notFound := st.notFound + [name])
  }

  /** The state after the loop has processed all of `companies`, starting from the cache `cache0`. */
  function Run(registry: Registry, companies: seq<string>, cache0: CacheData, today: string): (r: RunState)
    ensures r.delays == |r.queries| <= |companies|
    ensures cache0.Keys <= r.cache.Keys
    decreases |companies|
  {
    if |companies| == 0 then RunState(cache0, [], [], [], 0)
    else
      var n := |companies| - 1;
      Step(registry, today, Run(registry, companies[..n], cache0, today), companies[n])
  }

  /** `processCompanies`; the date and the registry are parameters, each pause is counted in `delays`. */
  method ProcessCompanies(registry: Registry, companies: seq<string>, cache: Cache, today: string)
    returns (newResults: seq<CompanyInfo>, notFound: seq<string>, queries: seq<string>, delays: nat)
    modifies cache
    ensures RunState(cache.entries, newResults, notFound, queries, delays) ==
            Run(registry, companies, old(cache.entries), today)
    ensures forall k :: k in old(cache.entries) ==> k in cache.entries && cache.entries[k] == old(cache.entries)[k]
    ensures cache.entries.Keys == old(cache.entries).Keys + Names(companies)
    ensures delays == |queries| && |queries| == |Names(companies) - old(cache.entries).Keys|
  {
    newResults, notFound, queries, delays := [], [], [], 0;
    for i := 0 to |companies|
      invariant RunState(cache.entries, newResults, notFound, queries, delays) ==
                Run(registry, companies[..i], old(cache.entries), today)
    {
      assert companies[..i + 1][..i] == companies[..i];
      var companyName := companies[i];
      if companyName in cache.entries {
        var cachedEntry := cache.entries[companyName];
        if cachedEntry == None {
          notFound := notFound + [companyName];
        }
        continue;
      }
      queries := queries + [companyName];
      var data := registry(companyName);
      var companyInfo: Option<CompanyInfo> := None;
      if data.Some? {
        companyInfo := ZefixSearch.GetCantonalExcerpt(data, companyName);
      }
      if companyInfo.Some? {
        var stamped := companyInfo.value.(search_date := Some(today));
        newResults := newResults + [stamped];
        cache.entries := cache.entries[companyName := Some(stamped)];
      } else {
        notFound := notFound + [companyName];
        cache.entries := cache.entries[companyName := None];
      }
      delays := delays + 1;
    }
    assert companies[..|companies|] == companies;
    RunCache(registry, companies, old(cache.entries), today);
    RunQueries(registry, companies, old(cache.entries), today);
    QueryCount(registry, companies, old(cache.entries), today);
  }

  /**
   * The cache only grows: entries present before the run keep their values,
   * every input name becomes a key, and a name that was not cached holds the
   * outcome of its one registry query.
   */
  lemma {:induction false} RunCache(registry: Registry, companies: seq<string>, cache0: CacheData, today: string)
    ensures var st := Run(registry, companies, cache0, today);
      && st.cache.Keys == cache0.Keys + Names(companies)
      && (forall k :: k in cache0 ==> st.cache[k] == cache0[k])
      && (forall k :: k in companies && k !in cache0 ==> st.cache[k] == Resolve(registry, k, today))
    decreases |companies|
  {
    if |companies| > 0 {
      var n := |companies| - 1;
      var prefix, x := companies[..n], companies[n];
      var prev := Run(registry, prefix, cache0, today);
      var st := Run(registry, companies, cache0, today);
      assert st == Step(registry, today, prev, x);
      RunCache(registry, prefix, cache0, today);
      assert companies == prefix + [x];
      assert Names(companies) == Names(prefix) + {x};
      forall k | k in companies && k !in cache0 ensures st.cache[k] == Resolve(registry, k, today) {
        if k != x || x in prev.cache {
          assert k in prefix;
        }
      }
    }
  }

  /**
   * One registry query and one pause per name that missed the cache at its
   * turn: the queries are exactly the distinct input names that were not
   * cached before the run, each asked once, and the outputs are no longer
   * than the input.
   */
  lemma RunQueries(registry: Registry, companies: seq<string>, cache0: CacheData, today: string)
    ensures var st := Run(registry, companies, cache0, today);
      && st.delays == |st.queries|
      && Names(st.queries) == Names(companies) - cache0.Keys
      && (forall i, j :: 0 <= i < j < |st.queries| ==> st.queries[i] != st.queries[j])
      && |st.newResults| <= |st.queries|
      && |st.newResults| + |st.notFound| <= |companies|
  {
    RunQueryNames(registry, companies, cache0, today);
    RunOutputBounds(registry, companies, cache0, today);
  }

  /** The queried names are the distinct input names missing from the initial cache. */
  lemma {:induction false} RunQueryNames(registry: Registry, companies: seq<string>, cache0: CacheData, today: string)
    ensures var st := Run(registry, companies, cache0, today);
      && Names(st.queries) == Names(companies) - cache0.Keys
      && (forall i, j :: 0 <= i < j < |st.queries| ==> st.queries[i] != st.queries[j])
    decreases |companies|
  {
    if |companies| > 0 {
      var n := |companies| - 1;
      var prefix, x := companies[..n], companies[n];
      var prev := Run(registry, prefix, cache0, today);
      var st := Run(registry, companies, cache0, today);
      assert st == Step(registry, today, prev, x);
      RunQueryNames(registry, prefix, cache0, today);
      assert Names(companies) == Names(prefix) + {x} by {
        assert companies == prefix + [x];
      }
      RunCache(registry, prefix, cache0, today);
      if x !in prev.cache {
        assert st.queries == prev.queries + [x];
        assert Names(st.queries) == Names(prev.queries) + {x};
      }
    }
  }

  /**
   * The names of `names` that are not keys of `cache0`, each at its first
   * occurrence, in the order of `names`.
   */
  function Fresh(names: seq<string>, cache0: CacheData): seq<string>
    decreases |names|
  {
    if |names| == 0 then []
    else
      var n := |names| - 1;
      Fresh(names[..n], cache0) + (if names[n] !in cache0 && names[n] !in names[..n] then [names[n]] else [])
  }

  /** The registry is queried for the fresh input names in input order, each at its first occurrence. */
  lemma {:induction false} RunQueriesInInputOrder(registry: Registry, companies: seq<string>, cache0: CacheData, today: string)
    ensures Run(registry, companies, cache0, today).queries == Fresh(companies, cache0)
    decreases |companies|
  {
    if |companies| > 0 {
      var n := |companies| - 1;
      var prefix, x := companies[..n], companies[n];
      var prev := Run(registry, prefix, cache0, today);
      assert Run(registry, companies, cache0, today) == Step(registry, today, prev, x);
      RunQueriesInInputOrder(registry, prefix, cache0, today);
      RunCache(registry, prefix, cache0, today);
      assert x in Names(prefix) <==> x in prefix;
    }
  }

  /** `newResults` are the records found for the fresh input names, in input order. */
  lemma NewResultsInInputOrder(registry: Registry, companies: seq<string>, cache0: CacheData, today: string)
    ensures var st := Run(registry, companies, cache0, today);
      st.newResults == FoundIn(Fresh(companies, cache0), st.cache)
  {
    RunNewResults(registry, companies, cache0, today);
    RunQueriesInInputOrder(registry, companies, cache0, today);
  }

  /** The outputs are bounded by the queries and by the input. */
  lemma {:induction false} RunOutputBounds(registry: Registry, companies: seq<string>, cache0: CacheData, today: string)
    ensures var st := Run(registry, companies, cache0, today);
      && |st.newResults| <= |st.queries|
      && |st.newResults| + |st.notFound| <= |companies|
    decreases |companies|
  {
    if |companies| > 0 {
      var n := |companies| - 1;
      var prefix, x := companies[..n], companies[n];
      var prev := Run(registry, prefix, cache0, today);
      assert Run(registry, companies, cache0, today) == Step(registry, today, prev, x);
      RunOutputBounds(registry, prefix, cache0, today);
    }
  }

  lemma {:induction false} DistinctNames(s: seq<string>)
    requires forall i, j :: 0 <= i < j < |s| ==> s[i] != s[j]
    ensures |Names(s)| == |s|
    decreases |s|
  {
    if |s| > 0 {
      var n := |s| - 1;
      DistinctNames(s[..n]);
      assert s == s[..n] + [s[n]];
      assert Names(s) == Names(s[..n]) + {s[n]};
      assert s[n] !in Names(s[..n]);
    }
  }

  /** The number of registry queries is the number of distinct input names missing from the cache. */
  lemma QueryCount(registry: Registry, companies: seq<string>, cache0: CacheData, today: string)
    ensures |Run(registry, companies, cache0, today).queries| == |Names(companies) - cache0.Keys|
  {
    RunQueries(registry, companies, cache0, today);
    DistinctNames(Run(registry, companies, cache0, today).queries);
  }

  /** The input names whose cache entry is the confirmed-absent marker, in input order. */
  function AbsentIn(names: seq<string>, cache: CacheData): seq<string>
    decreases |names|
  {
    if |names| == 0 then []
    else
      var n := |names| - 1;
      AbsentIn(names[..n], cache) + (if names[n] in cache && cache[names[n]] == None then [names[n]] else [])
  }

  /** The records cached for the names `names` that resolved, in the order of `names`. */
  function FoundIn(names: seq<string>, cache: CacheData): seq<CompanyInfo>
    decreases |names|
  {
    if |names| == 0 then []
    else
      var n := |names| - 1;
      FoundIn(names[..n], cache) + (if names[n] in cache && cache[names[n]].Some? then [cache[names[n]].value] else [])
  }

  lemma {:induction false} AbsentInAgree(names: seq<string>, c1: CacheData, c2: CacheData)
    requires forall k :: k in names ==> k in c1 && k in c2 && c1[k] == c2[k]
    ensures AbsentIn(names, c1) == AbsentIn(names, c2)
    decreases |names|
  {
    if |names| > 0 {
      AbsentInAgree(names[..|names| - 1], c1, c2);
    }
  }

  lemma {:induction false} FoundInAgree(names: seq<string>, c1: CacheData, c2: CacheData)
    requires forall k :: k in names ==> k in c1 && k in c2 && c1[k] == c2[k]
    ensures FoundIn(names, c1) == FoundIn(names, c2)
    decreases |names|
  {
    if |names| > 0 {
      FoundInAgree(names[..|names| - 1], c1, c2);
    }
  }

  /** A name is listed by `AbsentIn` exactly when it is an input name cached as absent. */
  lemma {:induction false} AbsentInMembers(names: seq<string>, cache: CacheData, x: string)
    ensures x in AbsentIn(names, cache) <==> x in names && x in cache && cache[x] == None
    decreases |names|
  {
    if |names| > 0 {
      var n := |names| - 1;
      AbsentInMembers(names[..n], cache, x);
      assert names == names[..n] + [names[n]];
    }
  }

  /**
   * `notFound` lists, in input order and with repetitions, every input name
   * whose entry in the final cache is the confirmed-absent marker.
   */
  lemma {:induction false} RunNotFound(registry: Registry, companies: seq<string>, cache0: CacheData, today: string)
    ensures var st := Run(registry, companies, cache0, today);
      st.notFound == AbsentIn(companies, st.cache)
    decreases |companies|
  {
    if |companies| > 0 {
      var n := |companies| - 1;
      var prefix := companies[..n];
      var prev := Run(registry, prefix, cache0, today);
      var st := Run(registry, companies, cache0, today);
      assert st == Step(registry, today, prev, companies[n]);
      RunNotFound(registry, prefix, cache0, today);
      assert forall k :: k in prefix ==> k in prev.cache && k in st.cache && prev.cache[k] == st.cache[k] by {
        RunCache(registry, prefix, cache0, today);
      }
      AbsentInAgree(prefix, prev.cache, st.cache);
    }
  }

  /** A name is in `notFound` exactly when it was input and its final cache entry is absent. */
  lemma NotFoundMembers(registry: Registry, companies: seq<string>, cache0: CacheData, today: string, x: string)
    ensures var st := Run(registry, companies, cache0, today);
      x in st.notFound <==> x in companies && x in st.cache && st.cache[x] == None
  {
    var st := Run(registry, companies, cache0, today);
    RunNotFound(registry, companies, cache0, today);
    RunCache(registry, companies, cache0, today);
    AbsentInMembers(companies, st.cache, x);
  }

  /** `newResults` are the records found by this run's queries, in query order. */
  lemma {:induction false} RunNewResults(registry: Registry, companies: seq<string>, cache0: CacheData, today: string)
    ensures var st := Run(registry, companies, cache0, today);
      st.newResults == FoundIn(st.queries, st.cache)
    decreases |companies|
  {
    if |companies| > 0 {
      var n := |companies| - 1;
      var prefix, x := companies[..n], companies[n];
      var prev := Run(registry, prefix, cache0, today);
      var st := Run(registry, companies, cache0, today);
      assert st == Step(registry, today, prev, x);
      RunNewResults(registry, prefix, cache0, today);
      if x !in prev.cache {
        assert forall k :: k in prev.queries ==> k in prev.cache && k != x by {
          RunCache(registry, prefix, cache0, today);
          RunQueries(registry, prefix, cache0, today);
          assert forall k :: k in prev.queries ==> k in Names(prev.queries);
        }
        FoundInAgree(prev.queries, prev.cache, st.cache);
        assert st.queries == prev.queries + [x];
        assert st.queries[..|prev.queries|] == prev.queries;
      }
    }
  }

  /** Every record in `results` carries the date `today`. */
  predicate AllStamped(results: seq<CompanyInfo>, today: string)
  {
    forall i :: 0 <= i < |results| ==> results[i].search_date == Some(today)
  }

  /** Every new result carries the run's date. */
  lemma {:induction false} NewResultsStamped(registry: Registry, companies: seq<string>, cache0: CacheData, today: string)
    ensures AllStamped(Run(registry, companies, cache0, today).newResults, today)
    decreases |companies|
  {
    if |companies| > 0 {
      NewResultsStamped(registry, companies[..|companies| - 1], cache0, today);
    }
  }

  /** When every input name is already cached, nothing is queried, found or changed. */
  lemma AllCachedMeansNoQueries(registry: Registry, companies: seq<string>, cache0: CacheData, today: string)
    requires forall n :: n in companies ==> n in cache0
    ensures var st := Run(registry, companies, cache0, today);
      && st.queries == [] && st.delays == 0 && st.newResults == [] && st.cache == cache0
      && st.notFound == AbsentIn(companies, cache0)
  {
    var st := Run(registry, companies, cache0, today);
    RunQueries(registry, companies, cache0, today);
    RunCache(registry, companies, cache0, today);
    RunNotFound(registry, companies, cache0, today);
    assert st.cache.Keys == cache0.Keys;
  }

  /**
   * Re-running the same names on the cache a run left behind issues no query,
   * finds nothing new, leaves the cache as it is and reports the same
   * not-found list, whatever the registry and the date.
   */
  lemma SecondRunIsQuiet(registry: Registry, registry2: Registry, companies: seq<string>, cache0: CacheData,
                         today: string, today2: string)
    ensures var first := Run(registry, companies, cache0, today);
      var second := Run(registry2, companies, first.cache, today2);
      && second.queries == [] && second.delays == 0 && second.newResults == []
      && second.cache == first.cache && second.notFound == first.notFound
  {
    var first := Run(registry, companies, cache0, today);
    RunCache(registry, companies, cache0, today);
    RunNotFound(registry, companies, cache0, today);
    AllCachedMeansNoQueries(registry2, companies, first.cache, today2);
  }

  /**
   * Two fresh names, the first resolving to `info` and the second not: one
   * record found and cached, the second name reported and cached as absent,
   * two queries.
   */
  lemma TwoNameRun(registry: Registry, a: string, b: string, today: string, info: CompanyInfo)
    requires a != b
    requires Resolve(registry, a, today) == Some(info)
    requires Resolve(registry, b, today) == None
    ensures Run(registry, [a, b], map[], today) == RunState(map[a := Some(info), b := None], [info], [b], [a, b], 2)
  {
    var companies := [a, b];
    assert companies[..1] == [a];
    assert companies[..1][..0] == [];
    var empty: CacheData := map[];
    var first := Run(registry, [a], empty, today);
    assert [a][..0] == [];
    var none := Run(registry, [a][..0], empty, today);
    assert none == RunState(empty, [], [], [], 0);
    assert first == Step(registry, today, none, [a][0]);
    assert first == Step(registry, today, RunState(empty, [], [], [], 0), a);
    assert first == RunState(map[a := Some(info)], [info], [], [a], 1);
    assert Run(registry, companies, empty, today) == Step(registry, today, first, b);
    assert b !in first.cache;
    assert map[a := Some(info)][b := None] == map[a := Some(info), b := None];
  }
}

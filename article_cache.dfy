/** The article cache: compiled articles by slug, the persisted record files
    behind them, and the failure cascade that runs when the cache is loaded. */
module ArticleCaching {
  import opened Results
  import opened Paths
  import opened Registry
  import opened Cascade

  /** An error report entry: the html path the error page goes to, and the
      error. */
  type ErrorEntry = (Path, TypError)

  /** The categorised string lists `write_cache` stores with each article. */
  type CacheLists = (seq<string>, seq<string>, seq<string>)

  /** The slugs of a list of errors. */
  function Slugs(failed: seq<TypError>): (r: set<Key>)
    ensures forall i :: 0 <= i < |failed| ==> failed[i].slug in r
    ensures forall k :: k in r ==> exists i :: 0 <= i < |failed| && failed[i].slug == k
  {
    set e | e in failed :: e.slug
  }

  lemma SlugsAppend(failed: seq<TypError>, e: TypError)
    ensures Slugs(failed + [e]) == Slugs(failed) + {e.slug}
  {
    assert forall x :: x in failed + [e] <==> x in failed || x == e;
  }

  lemma MapRemoveStep<V>(m: map<Key, V>, gone: set<Key>, k: Key)
    ensures (m - gone) - {k} == m - (gone + {k})
  {
  }

  lemma KeysSplit(keys: set<Key>, gone: set<Key>, keys1: set<Key>, keys2: set<Key>)
    requires keys1 == keys + gone && keys1 <= keys2 && gone !! keys
    ensures gone <= keys2
    ensures gone + (keys2 - keys1) == keys2 - keys
  {
  }

  lemma MapRemoveSame<V>(m: map<Key, V>, s: set<Key>, t: set<Key>)
    requires m.Keys * s == m.Keys * t
    ensures m - s == m - t
  {
    forall k | k in m
      ensures k in s <==> k in t
    {
      assert k in s <==> k in m.Keys * s;
      assert k in t <==> k in m.Keys * t;
    }
  }

  lemma MapRemoveTwice<V>(m: map<Key, V>, a: set<Key>, b: set<Key>, c: set<Key>)
    requires a + b == c
    ensures (m - a) - b == m - c
  {
  }

  /** No slug occurs twice. */
  predicate DistinctSlugs(failed: seq<TypError>) {
    forall i, j :: 0 <= i < j < |failed| ==> failed[i].slug != failed[j].slug
  }

  /** The reasons a cached article fails when the keys of `bad` have failed:
      one "not found" per dependency that has failed. */
  function MissingReasons(a: Article, bad: set<Key>): (r: set<Reason>)
    ensures r != {} <==> Hits(a, bad)
    ensures forall x :: x in r ==> x.NotFound? && x.missing in a.depending && x.missing in bad
    ensures forall d :: d in a.depending && d in bad ==> NotFound(d) in r
  {
    var r := set d | d in a.depending && d in bad :: NotFound(d);
    assert Hits(a, bad) ==> exists d :: d in a.depending && d in bad && NotFound(d) in r;
    r
  }

  /** The report entry of an article that failed because of its
      dependencies: its html path, its slug, and only "not found" reasons
      for dependencies among `failedKeys`. */
  ghost predicate CascadeEntry(e: ErrorEntry, k: Key, a: Article, html: Path, failedKeys: set<Key>) {
    e.0 == html && e.1.slug == k && e.1.reasons != {} &&
    forall x :: x in e.1.reasons ==> x.NotFound? && x.missing in a.depending && x.missing in failedKeys
  }

  /** The path `write_cache` writes a record to: ".json" appended to the
      source path's file name. */
  function AppendJson(p: Path): (r: Path)
    ensures |r| == if |p| == 0 then 1 else |p|
  {
    if |p| == 0 then [".json"] else p[..|p| - 1] + [Last(p) + ".json"]
  }

  /** The built articles, keyed by their slugs, in order. */
  function Articles(built: seq<Result<Article, TypError>>): (r: seq<(Key, Article)>)
    ensures forall p :: p in r <==> p.0 == p.1.slug && Ok(p.1) in built
  {
    if built == [] then []
    else
      var prev := Articles(built[..|built| - 1]);
      var last := built[|built| - 1];
      assert forall x :: x in built <==> x in built[..|built| - 1] || x == last;
      if last.Ok? then prev + [(last.value.slug, last.value)] else prev
  }

  /** The errors among the results, in order. */
  function Failures(built: seq<Result<Article, TypError>>): (r: seq<TypError>)
    ensures forall e :: e in r <==> Err(e) in built
  {
    if built == [] then []
    else
      var prev := Failures(built[..|built| - 1]);
      var last := built[|built| - 1];
      assert forall x :: x in built <==> x in built[..|built| - 1] || x == last;
      if last.Err? then prev + [last.error] else prev
  }

  /** The slug carried by a build result. */
  function ResultSlug(r: Result<Article, TypError>): Key {
    if r.Ok? then r.value.slug else r.error.slug
  }

  /** The keys of a sequence of pairs. */
  function PairKeys(pairs: seq<(Key, Article)>): (r: set<Key>)
    ensures forall k :: k in r <==> exists i :: 0 <= i < |pairs| && pairs[i].0 == k
  {
    set i | 0 <= i < |pairs| :: pairs[i].0
  }

  /** The pairs inserted into the cache in order (`extend`, `insert`), later
      pairs overwriting earlier ones. */
  function Inserted(cache: map<Key, Article>, pairs: seq<(Key, Article)>): (r: map<Key, Article>)
    ensures r.Keys == cache.Keys + PairKeys(pairs)
  {
    if pairs == [] then cache
    else
      var prev := Inserted(cache, pairs[..|pairs| - 1]);
      assert forall i :: 0 <= i < |pairs| - 1 ==> pairs[..|pairs| - 1][i] == pairs[i];
      prev[pairs[|pairs| - 1].0 := pairs[|pairs| - 1].1]
  }

  /** One more pair: its key joins the inserted keys and gets its article. */
  lemma InsertedStep(cache: map<Key, Article>, pairs: seq<(Key, Article)>, i: nat)
    requires i < |pairs|
    ensures PairKeys(pairs[..i + 1]) == PairKeys(pairs[..i]) + {pairs[i].0}
    ensures Inserted(cache, pairs[..i + 1]) == Inserted(cache, pairs[..i])[pairs[i].0 := pairs[i].1]
  {
    assert pairs[..i + 1][..i] == pairs[..i];
  }

  /** A key gets the article of the last pair that carries it. */
  lemma {:induction false} InsertedLastWins(cache: map<Key, Article>, pairs: seq<(Key, Article)>, i: nat)
    requires i < |pairs|
    requires forall j :: i < j < |pairs| ==> pairs[j].0 != pairs[i].0
    ensures Inserted(cache, pairs)[pairs[i].0] == pairs[i].1
  {
    if i < |pairs| - 1 {
      var init := pairs[..|pairs| - 1];
      assert forall j :: i < j < |init| ==> init[j] == pairs[j];
      InsertedLastWins(cache, init, i);
    }
  }

  /** A key no pair carries keeps its article. */
  lemma {:induction false} InsertedUntouched(cache: map<Key, Article>, pairs: seq<(Key, Article)>, k: Key)
    requires k in cache && k !in PairKeys(pairs)
    ensures Inserted(cache, pairs)[k] == cache[k]
  {
    if pairs != [] {
      var init := pairs[..|pairs| - 1];
      assert forall j :: 0 <= j < |init| ==> init[j] == pairs[j];
      InsertedUntouched(cache, init, k);
    }
  }

  /** If no cached article outside `gone` depends on `bad`, `bad` is
      closed in the cache before `gone` was removed. */
  lemma NothingDependsClosed(cache0: map<Key, Article>, gone: set<Key>, bad: set<Key>)
    requires gone <= bad
    requires Dependents(cache0 - gone, bad) == {}
    ensures Closed(cache0, bad)
  {
    forall k | k in cache0 && k !in gone
      ensures !Hits(cache0[k], bad)
    {
      assert k in cache0 - gone && (cache0 - gone)[k] == cache0[k];
      assert k !in Dependents(cache0 - gone, bad);
    }
  }

  /** The articles found by a scan after `gone` was removed fail anyway. */
  lemma DependentsFail(cache0: map<Key, Article>, gone: set<Key>, bad: set<Key>, more: set<Key>)
    requires more == Dependents(cache0 - gone, bad)
    ensures more <= Closure(cache0, bad)
  {
    forall n | n in more
      ensures n in Closure(cache0, bad)
    {
      assert Hits(cache0[n], Closure(cache0, bad));
    }
  }

  /** The measure of `errors` drops from a call to its recursive call. */
  lemma CacheShrinks(keys: set<Key>, failed: seq<TypError>)
    ensures |keys - Slugs(failed)| < |keys| + (if failed != [] && Slugs(failed) <= keys then 0 else 1)
  {
    if failed != [] && Slugs(failed) <= keys {
      assert failed[0].slug in Slugs(failed);
      ShrinkingDifference(keys, {}, Slugs(failed));
      assert keys - {} == keys;
    } else {
      SubsetCard(keys - Slugs(failed), keys);
    }
  }

  class ArticleCache {
    /** Root of the persisted article records (`<cache>/article`). */
    const articleRoot: Path
    /** Root of the rendered html (`<cache>/html`), used for error paths. */
    const htmlRoot: Path
    /** The live cache, by slug. */
    var cache: map<Key, Article>
    /** The record files present under the records root. */
    var records: set<Path>

    constructor (cachePath: Path, records: set<Path>)
      ensures articleRoot == cachePath + ["article"] && htmlRoot == cachePath + ["html"]
      ensures cache == map[] && this.records == records
    {
      articleRoot := cachePath + ["article"];
      htmlRoot := cachePath + ["html"];
      cache := map[];
      this.records := records;
    }

    /** Every cached slug is registered. */
    predicate Consistent(registry: KeyRegistry)
      reads this, registry
    {
      cache.Keys <= registry.paths.Keys
    }

    /** `typ_to_html_path`: the html root joined with the source path, with
        extension "html". */
    function HtmlPath(path: Path): (r: Path)
      ensures |r| == |htmlRoot| + |path|
      ensures |path| > 0 ==> r[..|htmlRoot| + |path| - 1] == htmlRoot + path[..|path| - 1]
    {
      WithExtension(htmlRoot + path, "html")
    }

    /** `typ_to_json_path`: the records root joined with the source path,
        with extension "typ.json". */
    function JsonPath(path: Path): (r: Path)
      ensures |r| == |articleRoot| + |path|
      ensures |path| > 0 ==> r[..|articleRoot| + |path| - 1] == articleRoot + path[..|path| - 1]
    {
      WithExtension(articleRoot + path, "typ.json")
    }

    /** The record files of the registered slugs among `keys`. */
    function JsonPaths(paths: map<Key, Path>, keys: set<Key>): (r: set<Path>)
      ensures forall k :: k in keys && k in paths ==> JsonPath(paths[k]) in r
      ensures forall q :: q in r ==> exists k :: k in keys && k in paths && q == JsonPath(paths[k])
    {
      set k | k in keys && k in paths :: JsonPath(paths[k])
    }

    /** Dropping one more registered slug removes exactly its record file. */
    lemma RecordsDropOne(records0: set<Path>, paths: map<Key, Path>, keys: set<Key>, k: Key)
      requires k in paths
      ensures (records0 - JsonPaths(paths, keys)) - {JsonPath(paths[k])} == records0 - JsonPaths(paths, keys + {k})
    {
      assert JsonPaths(paths, keys + {k}) == JsonPaths(paths, keys) + {JsonPath(paths[k])};
    }

    /** The record file `write_cache` writes for an article at `path`. */
    function RecordPath(path: Path): (r: Path)
      ensures StartsWith(r, articleRoot)
      ensures |path| > 0 ==> |r| == |articleRoot| + |path| && r[..|r| - 1] == articleRoot + path[..|path| - 1]
      ensures |path| > 0 ==> Last(r) == Last(path) + ".json"
    {
      articleRoot + AppendJson(path)
    }

    /** `get`: the cached article of a slug, if any. */
    function Get(slug: Key): (r: Option<Article>)
      reads this
      ensures r.Some? <==> slug in cache
      ensures r.Some? ==> r.value == cache[slug]
    {
      if slug in cache then Some(cache[slug]) else None
    }

    /** One scan of the cache: every cached article that depends on a key of
        `failedKeys` becomes an error naming those of its dependencies, in
        whatever order the cache is visited. */
    method ScanFailed(failedKeys: set<Key>) returns (failed: seq<TypError>)
      ensures Slugs(failed) == Dependents(cache, failedKeys)
      ensures DistinctSlugs(failed)
      ensures forall i :: 0 <= i < |failed| ==>
                failed[i].slug in cache &&
                failed[i].reasons == MissingReasons(cache[failed[i].slug], failedKeys)
    {
      failed := [];
      var todo := cache.Keys;
      while todo != {}
        invariant todo <= cache.Keys
        invariant Slugs(failed) == Dependents(cache, failedKeys) - todo
        invariant DistinctSlugs(failed)
        invariant forall i :: 0 <= i < |failed| ==>
                    failed[i].slug in cache &&
                    failed[i].reasons == MissingReasons(cache[failed[i].slug], failedKeys)
        decreases todo
      {
        var slug :| slug in todo;
        var reasons := MissingReasons(cache[slug], failedKeys);
        if reasons != {} {
          SlugsAppend(failed, TypError(slug, reasons));
          failed := failed + [TypError(slug, reasons)];
        }
        todo := todo - {slug};
      }
    }

    /** One failed article: its path is looked up in the registry (which
        must know it), it is dropped from the registry, the cache and the
        record store, and reported under its html path. */
    method DropOne(registry: KeyRegistry, errs: map<Key, ErrorEntry>, err: TypError)
      returns (errs': map<Key, ErrorEntry>)
      requires err.slug in registry.paths
      modifies this, registry
      ensures registry.paths == old(registry.paths) - {err.slug}
      ensures cache == old(cache) - {err.slug}
      ensures records == old(records) - {JsonPath(old(registry.paths)[err.slug])}
      ensures errs' == errs[err.slug := (HtmlPath(old(registry.paths)[err.slug]), err)]
    {
      var slug := err.slug;
      var path := registry.PathOf(slug).value;
      registry.RemoveSlug(slug);
      cache := cache - {slug};
      records := records - {JsonPath(path)};
      errs' := errs[slug := (HtmlPath(path), err)];
    }

    /** The error map after reporting each of `failed`, in order, under the
        html path of its registered source path. */
    function Reported(errs: map<Key, ErrorEntry>, failed: seq<TypError>, paths: map<Key, Path>): map<Key, ErrorEntry>
      requires forall i :: 0 <= i < |failed| ==> failed[i].slug in paths
      decreases |failed|
    {
      if failed == [] then errs
      else
        var e := failed[0];
        Reported(errs[e.slug := (HtmlPath(paths[e.slug]), e)], failed[1..], paths)
    }

    /** Reporting adds exactly the failed slugs and keeps the other entries. */
    lemma {:induction false} ReportedKeeps(errs: map<Key, ErrorEntry>, failed: seq<TypError>, paths: map<Key, Path>)
      requires forall i :: 0 <= i < |failed| ==> failed[i].slug in paths
      ensures Reported(errs, failed, paths).Keys == errs.Keys + Slugs(failed)
      ensures forall k :: k in errs && k !in Slugs(failed) ==> Reported(errs, failed, paths)[k] == errs[k]
      decreases |failed|
    {
      if failed != [] {
        var e := failed[0];
        var rest := failed[1..];
        var errs1 := errs[e.slug := (HtmlPath(paths[e.slug]), e)];
        assert forall i :: 0 <= i < |rest| ==> rest[i] == failed[i + 1];
        ReportedKeeps(errs1, rest, paths);
        assert Slugs(failed) == {e.slug} + Slugs(rest) by {
          assert forall x :: x in failed <==> x == e || x in rest;
        }
        var r := Reported(errs, failed, paths);
        assert r == Reported(errs1, rest, paths);
        forall k | k in errs && k !in Slugs(failed)
          ensures r[k] == errs[k]
        {
          assert k in errs1 && k !in Slugs(rest) && errs1[k] == errs[k];
        }
      }
    }

    /** A failure whose slug no later failure repeats is reported under
        that slug. */
    lemma {:induction false} ReportedAt(errs: map<Key, ErrorEntry>, failed: seq<TypError>, paths: map<Key, Path>, i: nat)
      requires forall j :: 0 <= j < |failed| ==> failed[j].slug in paths
      requires i < |failed| && DistinctSlugs(failed)
      ensures failed[i].slug in Reported(errs, failed, paths)
      ensures Reported(errs, failed, paths)[failed[i].slug] == (HtmlPath(paths[failed[i].slug]), failed[i])
      decreases |failed|
    {
      var e := failed[0];
      var rest := failed[1..];
      var errs1 := errs[e.slug := (HtmlPath(paths[e.slug]), e)];
      assert forall j :: 0 <= j < |rest| ==> rest[j] == failed[j + 1];
      if i == 0 {
        ReportedKeeps(errs1, rest, paths);
        assert e.slug !in Slugs(rest);
      } else {
        ReportedAt(errs1, rest, paths, i - 1);
      }
    }

    /** Reporting distinct slugs adds exactly those slugs, records each
        failure under its own slug and keeps the other entries. */
    lemma ReportedEntries(errs: map<Key, ErrorEntry>, failed: seq<TypError>, paths: map<Key, Path>)
      requires forall i :: 0 <= i < |failed| ==> failed[i].slug in paths
      requires DistinctSlugs(failed)
      ensures Reported(errs, failed, paths).Keys == errs.Keys + Slugs(failed)
      ensures forall k :: k in errs && k !in Slugs(failed) ==> Reported(errs, failed, paths)[k] == errs[k]
      ensures forall i :: 0 <= i < |failed| ==>
                Reported(errs, failed, paths)[failed[i].slug] == (HtmlPath(paths[failed[i].slug]), failed[i])
    {
      ReportedKeeps(errs, failed, paths);
      forall i | 0 <= i < |failed|
        ensures Reported(errs, failed, paths)[failed[i].slug] == (HtmlPath(paths[failed[i].slug]), failed[i])
      {
        ReportedAt(errs, failed, paths, i);
      }
    }

    /** What one step of the loop in `DropFailed` needs to know. */
    lemma DropStep(failed: seq<TypError>, i: nat, paths: map<Key, Path>)
      requires i < |failed| && DistinctSlugs(failed)
      requires forall j :: 0 <= j < |failed| ==> failed[j].slug in paths
      ensures Slugs(failed[..i + 1]) == Slugs(failed[..i]) + {failed[i].slug}
      ensures failed[i].slug !in Slugs(failed[..i])
      ensures failed[i..][0] == failed[i] && failed[i..][1..] == failed[i + 1..]
    {
      assert failed[..i + 1] == failed[..i] + [failed[i]];
      SlugsAppend(failed[..i], failed[i]);
    }

    /** The first half of `errors`: each failed article is looked up in the
        registry (which must know it), dropped from the registry, the cache
        and the record store, and reported under its html path. */
    method DropFailed(registry: KeyRegistry, errs: map<Key, ErrorEntry>, failed: seq<TypError>)
      returns (errs': map<Key, ErrorEntry>)
      requires DistinctSlugs(failed)
      requires Slugs(failed) <= registry.paths.Keys
      modifies this, registry
      ensures errs' == Reported(errs, failed, old(registry.paths))
      ensures cache == old(cache) - Slugs(failed)
      ensures registry.paths == old(registry.paths) - Slugs(failed)
      ensures records == old(records) - JsonPaths(old(registry.paths), Slugs(failed))
    {
      ghost var paths0, cache0, records0 := registry.paths, cache, records;
      errs' := errs;
      var i := 0;
      ghost var done: set<Key> := {};
      while i < |failed|
        invariant 0 <= i <= |failed| && done == Slugs(failed[..i])
        invariant Reported(errs', failed[i..], paths0) == Reported(errs, failed, paths0)
        invariant cache == cache0 - done
        invariant registry.paths == paths0 - done
        invariant records == records0 - JsonPaths(paths0, done)
      {
        var err := failed[i];
        DropStep(failed, i, paths0);
        MapRemoveStep(cache0, done, err.slug);
        MapRemoveStep(paths0, done, err.slug);
        RecordsDropOne(records0, paths0, done, err.slug);
        errs' := DropOne(registry, errs', err);
        done := done + {err.slug};
        i := i + 1;
      }
      assert failed[..|failed|] == failed;
      assert failed[|failed|..] == [];
    }

    /** What `errors` leaves behind, for a call with error map `errs` and
        failures `failed` on cache `cache0`, registry map `paths0` and record
        store `records0`:
        - the reported slugs are the failure closure of the slugs already
          reported and the failed ones;
        - every newly reported slug was registered;
        - the reported slugs are gone from the cache, the newly reported
          ones from the registry, and their record files from the store;
        - entries already reported are kept;
        - each failure is reported under its own slug and html path;
        - each article that failed only because of its dependencies is
          reported with one "not found" per failed dependency;
        - and those are exactly its dependencies failed before the scan
          that found it. */
    ghost predicate Cascaded(errs: map<Key, ErrorEntry>, failed: seq<TypError>,
                             cache0: map<Key, Article>, paths0: map<Key, Path>, records0: set<Path>,
                             errs': map<Key, ErrorEntry>, cache': map<Key, Article>, paths': map<Key, Path>, records': set<Path>)
    {
      CascadedState(errs.Keys, Slugs(failed), cache0, paths0, records0, errs'.Keys, cache', paths', records') &&
      CascadedEntries(errs, failed, cache0, paths0, errs') &&
      CascadedReasons(errs.Keys, failed, cache0, errs')
    }

    /** The first four points of `Cascaded`, on the reported keys only. */
    ghost predicate CascadedState(keys: set<Key>, gone: set<Key>,
                                  cache0: map<Key, Article>, paths0: map<Key, Path>, records0: set<Path>,
                                  keys': set<Key>, cache': map<Key, Article>, paths': map<Key, Path>, records': set<Path>)
    {
      keys' == Closure(cache0, keys + gone) &&
      keys' - keys <= paths0.Keys &&
      cache' == cache0 - keys' &&
      paths' == paths0 - (keys' - keys) &&
      records' == records0 - JsonPaths(paths0, keys' - keys)
    }

    /** The last three points of `Cascaded`: what is reported under each
        slug. */
    ghost predicate CascadedEntries(errs: map<Key, ErrorEntry>, failed: seq<TypError>,
                                    cache0: map<Key, Article>, paths0: map<Key, Path>, errs': map<Key, ErrorEntry>)
    {
      (forall k :: k in errs ==> k in errs' && errs'[k] == errs[k]) &&
      (forall i :: 0 <= i < |failed| && failed[i].slug in paths0 ==>
         failed[i].slug in errs' && errs'[failed[i].slug] == (HtmlPath(paths0[failed[i].slug]), failed[i])) &&
      (forall k :: k in errs'.Keys - errs.Keys - Slugs(failed) ==>
         k in cache0 && k in paths0 && CascadeEntry(errs'[k], k, cache0[k], HtmlPath(paths0[k]), errs'.Keys))
    }

    /** The last point of `Cascaded`: an article that failed because of its
        dependencies was found by some scan, and its error names exactly its
        dependencies failed before that scan. */
    ghost predicate CascadedReasons(keys: set<Key>, failed: seq<TypError>,
                                    cache0: map<Key, Article>, errs': map<Key, ErrorEntry>)
    {
      forall k :: k in errs'.Keys - keys - Slugs(failed) ==>
        k in cache0 &&
        exists n: nat :: FoundAt(cache0, keys + Slugs(failed), k, n) &&
          errs'[k].1 == TypError(k, MissingReasons(cache0[k], Level(cache0, keys + Slugs(failed), n)))
    }

    /** `errors`: every failed article is dropped from the registry, the
        cache and the record store and reported; then every cached article
        that depends on any reported slug fails in turn, until none does. */
    method Errors(registry: KeyRegistry, errs: map<Key, ErrorEntry>, failed: seq<TypError>)
      returns (errs': map<Key, ErrorEntry>)
      requires Consistent(registry)
      requires cache.Keys !! errs.Keys
      requires DistinctSlugs(failed)
      requires Slugs(failed) <= registry.paths.Keys && Slugs(failed) !! errs.Keys
      modifies this, registry
      decreases |cache.Keys| + (if failed != [] && Slugs(failed) <= cache.Keys then 0 else 1)
      ensures Cascaded(errs, failed, old(cache), old(registry.paths), old(records),
                       errs', cache, registry.paths, records)
    {
      ghost var cache0, paths0, records0 := cache, registry.paths, records;
      errs' := DropFailed(registry, errs, failed);
      ghost var cache1, paths1, records1, errs1 := cache, registry.paths, records, errs';
      var next := ScanFailed(errs'.Keys);
      if next == [] {
        ErrorsBase(errs, failed, cache0, paths0, records0, errs1, cache1, paths1, records1);
      } else {
        CacheShrinks(cache0.Keys, failed);
        ReportedEntries(errs, failed, paths0);
        errs' := Errors(registry, errs', next);
        ErrorsStep(errs, failed, cache0, paths0, records0, errs1, cache1, paths1, records1,
                   next, errs', cache, registry.paths, records);
      }
    }

    /** `errors` when the scan finds nothing: the dropped failures are all
        that is reported. */
    lemma ErrorsBase(errs: map<Key, ErrorEntry>, failed: seq<TypError>,
                     cache0: map<Key, Article>, paths0: map<Key, Path>, records0: set<Path>,
                     errs1: map<Key, ErrorEntry>, cache1: map<Key, Article>, paths1: map<Key, Path>, records1: set<Path>)
      requires cache0.Keys !! errs.Keys
      requires DistinctSlugs(failed) && Slugs(failed) <= paths0.Keys && Slugs(failed) !! errs.Keys
      requires errs1 == Reported(errs, failed, paths0)
      requires cache1 == cache0 - Slugs(failed) && paths1 == paths0 - Slugs(failed)
      requires records1 == records0 - JsonPaths(paths0, Slugs(failed))
      requires Dependents(cache1, errs1.Keys) == {}
      ensures Cascaded(errs, failed, cache0, paths0, records0, errs1, cache1, paths1, records1)
    {
      var gone := Slugs(failed);
      ReportedEntries(errs, failed, paths0);
      NothingDependsClosed(cache0, gone, errs.Keys + gone);
      ClosureOfClosed(cache0, errs.Keys + gone);
      MapRemoveSame(cache0, gone, errs1.Keys);
      assert errs1.Keys - errs.Keys == gone;
    }

    /** `errors` when the scan finds more failures: the recursive call's
        outcome, read against the state before the failed articles were
        dropped. */
    lemma ErrorsStep(errs: map<Key, ErrorEntry>, failed: seq<TypError>,
                     cache0: map<Key, Article>, paths0: map<Key, Path>, records0: set<Path>,
                     errs1: map<Key, ErrorEntry>, cache1: map<Key, Article>, paths1: map<Key, Path>, records1: set<Path>,
                     next: seq<TypError>,
                     errs2: map<Key, ErrorEntry>, cache2: map<Key, Article>, paths2: map<Key, Path>, records2: set<Path>)
      requires cache0.Keys !! errs.Keys
      requires DistinctSlugs(failed) && Slugs(failed) <= paths0.Keys && Slugs(failed) !! errs.Keys
      requires errs1 == Reported(errs, failed, paths0)
      requires cache1 == cache0 - Slugs(failed) && paths1 == paths0 - Slugs(failed)
      requires records1 == records0 - JsonPaths(paths0, Slugs(failed))
      requires Slugs(next) == Dependents(cache1, errs1.Keys)
      requires forall i :: 0 <= i < |next| ==>
                 next[i].slug in cache1 && next[i].reasons == MissingReasons(cache1[next[i].slug], errs1.Keys)
      requires Cascaded(errs1, next, cache1, paths1, records1, errs2, cache2, paths2, records2)
      ensures Cascaded(errs, failed, cache0, paths0, records0, errs2, cache2, paths2, records2)
    {
      ReportedKeeps(errs, failed, paths0);
      ErrorsStepState(errs.Keys, Slugs(failed), cache0, paths0, records0, errs1.Keys, paths1, records1,
                      Slugs(next), errs2.Keys, cache2, paths2, records2);
      ErrorsStepEntries(errs, failed, cache0, paths0, errs1, next, errs2);
      ErrorsStepReasons(errs, failed, cache0, paths0, errs1.Keys, next, errs2);
    }

    /** The reasons half of `ErrorsStep`: an article the first scan finds
        names the failures so far; one a later scan finds is found one scan
        later counted from the original failures. */
    lemma ErrorsStepReasons(errs: map<Key, ErrorEntry>, failed: seq<TypError>,
                            cache0: map<Key, Article>, paths0: map<Key, Path>,
                            keys1: set<Key>, next: seq<TypError>, errs2: map<Key, ErrorEntry>)
      requires cache0.Keys !! errs.Keys && keys1 == errs.Keys + Slugs(failed)
      requires keys1 + Slugs(next) <= errs2.Keys && errs2.Keys - errs.Keys <= paths0.Keys
      requires Slugs(next) == Dependents(cache0 - Slugs(failed), keys1)
      requires forall i :: 0 <= i < |next| ==>
                 next[i].slug in cache0 - Slugs(failed) &&
                 next[i].reasons == MissingReasons((cache0 - Slugs(failed))[next[i].slug], keys1)
      requires forall i :: 0 <= i < |next| && next[i].slug in paths0 - Slugs(failed) ==>
                 next[i].slug in errs2 && errs2[next[i].slug].1 == next[i]
      requires CascadedReasons(keys1, next, cache0 - Slugs(failed), errs2)
      ensures CascadedReasons(errs.Keys, failed, cache0, errs2)
    {
      var gone := Slugs(failed);
      var cache1 := cache0 - gone;
      var more := Slugs(next);
      assert Level(cache1, keys1, 1) == keys1 + more;
      forall k | k in errs2.Keys - errs.Keys - gone
        ensures k in cache0 &&
                exists n: nat :: FoundAt(cache0, keys1, k, n) &&
                  errs2[k].1 == TypError(k, MissingReasons(cache0[k], Level(cache0, keys1, n)))
      {
        if k in more {
          var i :| 0 <= i < |next| && next[i].slug == k;
          assert FoundAt(cache0, keys1, k, 0);
        } else {
          var m: nat :| FoundAt(cache1, keys1 + more, k, m) &&
                        errs2[k].1 == TypError(k, MissingReasons(cache1[k], Level(cache1, keys1 + more, m)));
          LevelShift(cache1, keys1, m);
          LevelWithout(cache0, gone, keys1, m + 1);
          assert FoundAt(cache0, keys1, k, m + 1);
        }
      }
    }

    /** The state half of `ErrorsStep`: the closure, the cache, the registry
        and the record store. */
    lemma ErrorsStepState(keys: set<Key>, gone: set<Key>,
                          cache0: map<Key, Article>, paths0: map<Key, Path>, records0: set<Path>,
                          keys1: set<Key>, paths1: map<Key, Path>, records1: set<Path>, more: set<Key>,
                          keys2: set<Key>, cache2: map<Key, Article>, paths2: map<Key, Path>, records2: set<Path>)
      requires gone <= paths0.Keys && gone !! keys && keys1 == keys + gone
      requires paths1 == paths0 - gone && records1 == records0 - JsonPaths(paths0, gone)
      requires more == Dependents(cache0 - gone, keys1)
      requires CascadedState(keys1, more, cache0 - gone, paths1, records1, keys2, cache2, paths2, records2)
      ensures CascadedState(keys, gone, cache0, paths0, records0, keys2, cache2, paths2, records2)
    {
      var bad := keys + gone;
      DependentsFail(cache0, gone, bad, more);
      ClosureWithout(cache0, gone, bad + more);
      ClosureAbsorbs(cache0, bad, more);
      KeysSplit(keys, gone, keys1, keys2);
      MapRemoveTwice(cache0, gone, keys2, keys2);
      MapRemoveTwice(paths0, gone, keys2 - keys1, keys2 - keys);
      RecordsRemoved(records0, gone, keys2 - keys1, paths0, paths1);
    }

    /** The entries half of `ErrorsStep`: earlier entries, the failures
        and the cascaded articles. */
    lemma ErrorsStepEntries(errs: map<Key, ErrorEntry>, failed: seq<TypError>,
                            cache0: map<Key, Article>, paths0: map<Key, Path>,
                            errs1: map<Key, ErrorEntry>, next: seq<TypError>, errs2: map<Key, ErrorEntry>)
      requires DistinctSlugs(failed) && Slugs(failed) <= paths0.Keys && Slugs(failed) !! errs.Keys
      requires errs1 == Reported(errs, failed, paths0)
      requires errs1.Keys + Slugs(next) <= errs2.Keys && errs2.Keys - errs.Keys <= paths0.Keys
      requires Slugs(next) == Dependents(cache0 - Slugs(failed), errs1.Keys)
      requires forall i :: 0 <= i < |next| ==>
                 next[i].slug in cache0 - Slugs(failed) &&
                 next[i].reasons == MissingReasons((cache0 - Slugs(failed))[next[i].slug], errs1.Keys)
      requires CascadedEntries(errs1, next, cache0 - Slugs(failed), paths0 - Slugs(failed), errs2)
      ensures CascadedEntries(errs, failed, cache0, paths0, errs2)
    {
      ReportedKeeps(errs, failed, paths0);
      forall i | 0 <= i < |failed| && failed[i].slug in paths0
        ensures failed[i].slug in errs2 && errs2[failed[i].slug] == (HtmlPath(paths0[failed[i].slug]), failed[i])
      {
        ReportedAt(errs, failed, paths0, i);
      }
      CascadeEntries(cache0, paths0, Slugs(failed), errs.Keys, errs1.Keys, next, errs2);
    }

    /** The cascade entries of the recursive call, read against the cache
        and registry before the failed articles were dropped. */
    lemma CascadeEntries(cache0: map<Key, Article>, paths0: map<Key, Path>, gone: set<Key>,
                         keys: set<Key>, keys1: set<Key>, next: seq<TypError>, errs2: map<Key, ErrorEntry>)
      requires keys1 == keys + gone && keys1 + Slugs(next) <= errs2.Keys
      requires errs2.Keys - keys <= paths0.Keys
      requires Slugs(next) == Dependents(cache0 - gone, keys1)
      requires forall i :: 0 <= i < |next| ==>
                 next[i].slug in cache0 - gone &&
                 next[i].reasons == MissingReasons((cache0 - gone)[next[i].slug], keys1)
      requires forall i :: 0 <= i < |next| && next[i].slug in paths0 - gone ==>
                 errs2[next[i].slug] == (HtmlPath((paths0 - gone)[next[i].slug]), next[i])
      requires forall k :: k in errs2.Keys - keys1 - Slugs(next) ==>
                 k in cache0 - gone &&
                 CascadeEntry(errs2[k], k, (cache0 - gone)[k], HtmlPath((paths0 - gone)[k]), errs2.Keys)
      ensures forall k :: k in errs2.Keys - keys - gone ==>
                k in cache0 && CascadeEntry(errs2[k], k, cache0[k], HtmlPath(paths0[k]), errs2.Keys)
    {
      forall k | k in errs2.Keys - keys - gone
        ensures k in cache0 && CascadeEntry(errs2[k], k, cache0[k], HtmlPath(paths0[k]), errs2.Keys)
      {
        if k in Slugs(next) {
          var j :| 0 <= j < |next| && next[j].slug == k;
          assert Hits((cache0 - gone)[k], keys1);
        }
      }
    }

    lemma RecordsRemoved(records0: set<Path>, gone: set<Key>, later: set<Key>, paths0: map<Key, Path>, paths1: map<Key, Path>)
      requires paths1 == paths0 - gone && gone !! later
      ensures (records0 - JsonPaths(paths0, gone)) - JsonPaths(paths1, later) == records0 - JsonPaths(paths0, gone + later)
    {
      assert JsonPaths(paths1, later) == JsonPaths(paths0, later);
      assert JsonPaths(paths0, gone + later) == JsonPaths(paths0, gone) + JsonPaths(paths0, later);
    }

    /** The error report: html path to error, one entry per reported
        article (entries that share an html path keep one of them). */
    method Report(errs: map<Key, ErrorEntry>) returns (report: map<Path, TypError>)
      ensures report.Keys == set k | k in errs :: errs[k].0
      ensures forall p :: p in report ==> exists k :: k in errs && errs[k] == (p, report[p])
    {
      report := map[];
      var todo := errs.Keys;
      while todo != {}
        invariant todo <= errs.Keys
        invariant report.Keys == set k | k in errs.Keys - todo :: errs[k].0
        invariant forall p :: p in report ==> exists k :: k in errs && errs[k] == (p, report[p])
        decreases todo
      {
        var slug :| slug in todo;
        report := report[errs[slug].0 := errs[slug].1];
        todo := todo - {slug};
      }
    }

    /** No article left in the cache depends on a reported slug. */
    lemma CascadedSurvivors(errs: map<Key, ErrorEntry>, failed: seq<TypError>,
                            cache0: map<Key, Article>, paths0: map<Key, Path>, records0: set<Path>,
                            errs': map<Key, ErrorEntry>, cache': map<Key, Article>, paths': map<Key, Path>, records': set<Path>)
      requires Cascaded(errs, failed, cache0, paths0, records0, errs', cache', paths', records')
      ensures forall k :: k in cache' ==> cache'[k].depending !! errs'.Keys
    {
      forall k | k in cache'
        ensures cache'[k].depending !! errs'.Keys
      {
        assert k in cache0 && k !in errs'.Keys && cache'[k] == cache0[k];
      }
    }

    /** Every newly reported slug has left the cache, the registry and the
        record store, and is reported under the html path of its source
        path. */
    lemma CascadedRemoved(errs: map<Key, ErrorEntry>, failed: seq<TypError>,
                          cache0: map<Key, Article>, paths0: map<Key, Path>, records0: set<Path>,
                          errs': map<Key, ErrorEntry>, cache': map<Key, Article>, paths': map<Key, Path>, records': set<Path>)
      requires Cascaded(errs, failed, cache0, paths0, records0, errs', cache', paths', records')
      ensures forall k :: k in errs'.Keys - errs.Keys ==>
                k !in cache' && k !in paths' && k in paths0 && JsonPath(paths0[k]) !in records' &&
                errs'[k].0 == HtmlPath(paths0[k]) && errs'[k].1.slug == k
    {
      var gone := errs'.Keys - errs.Keys;
      assert cache' == cache0 - errs'.Keys && paths' == paths0 - gone;
      assert records' == records0 - JsonPaths(paths0, gone);
      forall k | k in gone
        ensures k in paths0 && errs'[k].0 == HtmlPath(paths0[k]) && errs'[k].1.slug == k
      {
        if k in Slugs(failed) {
          var i :| 0 <= i < |failed| && failed[i].slug == k;
        } else {
          assert CascadeEntry(errs'[k], k, cache0[k], HtmlPath(paths0[k]), errs'.Keys);
        }
      }
    }

    /** Nothing else changes: a cached article that does not transitively
        depend on a failed slug stays in the cache as it was. */
    lemma CascadedKeeps(errs: map<Key, ErrorEntry>, failed: seq<TypError>,
                        cache0: map<Key, Article>, paths0: map<Key, Path>, records0: set<Path>,
                        errs': map<Key, ErrorEntry>, cache': map<Key, Article>, paths': map<Key, Path>, records': set<Path>,
                        k: Key)
      requires Cascaded(errs, failed, cache0, paths0, records0, errs', cache', paths', records')
      requires k in cache0
      requires forall n: nat :: !Reaches(cache0, k, errs.Keys + Slugs(failed), n)
      ensures k in cache' && cache'[k] == cache0[k]
    {
      ClosureIsReachability(cache0, errs.Keys + Slugs(failed), k);
    }

    /** Transitive invalidation: along a chain of cached articles each
        depending on the next, ending in a failed slug, every slug of the
        chain is reported. */
    lemma CascadedChain(errs: map<Key, ErrorEntry>, failed: seq<TypError>,
                        cache0: map<Key, Article>, paths0: map<Key, Path>, records0: set<Path>,
                        errs': map<Key, ErrorEntry>, cache': map<Key, Article>, paths': map<Key, Path>, records': set<Path>,
                        chain: seq<Key>)
      requires Cascaded(errs, failed, cache0, paths0, records0, errs', cache', paths', records')
      requires |chain| > 0 && chain[|chain| - 1] in Slugs(failed)
      requires forall i :: 0 <= i < |chain| - 1 ==> chain[i] in cache0 && chain[i + 1] in cache0[chain[i]].depending
      ensures forall i :: 0 <= i < |chain| ==> chain[i] in errs'
    {
      ChainFails(cache0, errs.Keys + Slugs(failed), chain);
    }

    /** `load`: the record files of the deleted sources are removed; the
        records found in the store (their source paths `pures`, read and
        parsed elsewhere) are registered; `built[i]`, the article or error
        reconstructed from `pures[i]`, is inserted into the cache when it is
        an article; the errors cascade; the report maps each reported html
        path to its error. */
    method Load(registry: KeyRegistry, deleted: seq<Path>, pures: seq<Path>, built: seq<Result<Article, TypError>>)
      returns (report: map<Path, TypError>, ghost errs: map<Key, ErrorEntry>)
      requires Consistent(registry)
      requires |built| == |pures|
      requires forall i :: 0 <= i < |built| ==> ResultSlug(built[i]) == registry.slugOf(pures[i])
      requires DistinctSlugs(Failures(built))
      modifies this, registry
      ensures Cascaded(map[], Failures(built), Inserted(old(cache), Articles(built)),
                       Registered(old(registry.paths), registry.slugOf, pures),
                       old(records) - DeletedRecords(deleted), errs, cache, registry.paths, records)
      ensures report.Keys == set k | k in errs :: errs[k].0
      ensures forall p :: p in report ==> exists k :: k in errs && errs[k] == (p, report[p])
    {
      records := records - DeletedRecords(deleted);
      registry.RegisterPaths(pures);
      LoadRegistered(registry.slugOf, pures, built);
      cache := Inserted(cache, Articles(built));
      var errorArticles := Errors(registry, map[], Failures(built));
      errs := errorArticles;
      report := Report(errorArticles);
    }

    /** The record files of deleted source paths. */
    function DeletedRecords(deleted: seq<Path>): (r: set<Path>)
      ensures forall i :: 0 <= i < |deleted| ==> JsonPath(deleted[i]) in r
      ensures forall q :: q in r ==> exists i :: 0 <= i < |deleted| && q == JsonPath(deleted[i])
    {
      set p | p in deleted :: JsonPath(p)
    }

    /** `write_cache`: each given article leaves the cache and its record
        file is written (the source panics on a slug that is not cached). */
    method WriteCache(slugs: map<Key, CacheLists>)
      requires slugs.Keys <= cache.Keys
      modifies this
      ensures cache == old(cache) - slugs.Keys
      ensures records == old(records) + Written(old(cache), slugs.Keys)
    {
      var todo := slugs.Keys;
      ghost var done: set<Key> := {};
      while todo != {}
        invariant done + todo == slugs.Keys && done !! todo
        invariant cache == old(cache) - done
        invariant records == old(records) + Written(old(cache), done)
        decreases todo
      {
        var slug :| slug in todo;
        var article := cache[slug];
        MapRemoveStep(old(cache), done, slug);
        WrittenAdd(old(cache), done, slug);
        cache := cache - {slug};
        records := records + {RecordPath(article.path)};
        done, todo := done + {slug}, todo - {slug};
      }
    }

    /** The record files `write_cache` writes for the cached articles of
        `keys`. */
    function Written(cache: map<Key, Article>, keys: set<Key>): (r: set<Path>)
      ensures forall k :: k in keys && k in cache ==> RecordPath(cache[k].path) in r
      ensures forall q :: q in r ==> exists k :: k in keys * cache.Keys && q == RecordPath(cache[k].path)
    {
      set k | k in keys && k in cache :: RecordPath(cache[k].path)
    }

    /** Writing one more cached article adds exactly its record file. */
    lemma WrittenAdd(cache: map<Key, Article>, keys: set<Key>, k: Key)
      requires k in cache
      ensures Written(cache, keys + {k}) == Written(cache, keys) + {RecordPath(cache[k].path)}
    {
    }

    /** A `.typ` source's record is written exactly where `load` and
        `errors` delete it. */
    lemma RecordPathIsJsonPath(path: Path)
      requires WellFormed(path) && FileExt(path) == Some("typ")
      ensures RecordPath(path) == JsonPath(path)
    {
      var name := Last(path);
      var full := articleRoot + path;
      assert Last(full) == name;
      assert name == Stem(name) + ".typ";
      assert Stem(name) + "." + "typ.json" == name + ".json";
      assert full[..|full| - 1] == articleRoot + path[..|path| - 1];
    }

    /** An error page path lies under the html root, keeps the source's
        file stem and has extension "html". */
    lemma HtmlPathIsHtml(path: Path)
      requires WellFormed(htmlRoot + path) && |path| > 0 && Last(path) != ".."
      ensures StartsWith(HtmlPath(path), htmlRoot)
      ensures FileExt(HtmlPath(path)) == Some("html")
      ensures Stem(Last(HtmlPath(path))) == Stem(Last(path))
    {
      assert Last(htmlRoot + path) == Last(path);
      WithExtensionSetsExtension(htmlRoot + path, "html");
      WithExtensionKeepsStem(htmlRoot + path, "html");
      assert HtmlPath(path)[..|htmlRoot|] == (htmlRoot + path[..|path| - 1])[..|htmlRoot|];
    }

    /** `drain`: hands over every cached article and leaves the cache
        empty. */
    method Drain() returns (drained: map<Key, Article>)
      modifies this
      ensures drained == old(cache) && cache == map[]
      ensures records == old(records)
    {
      drained := cache;
      cache := map[];
    }

    /** `refresh`: each pair's slug is registered under its path and its
        article inserted, in order. */
    method Refresh(registry: KeyRegistry, pairs: seq<(Key, Article)>)
      modifies this, registry
      ensures cache == Inserted(old(cache), pairs)
      ensures registry.paths.Keys == old(registry.paths).Keys + PairKeys(pairs)
      ensures forall k :: k in registry.paths ==>
                registry.paths[k] == if k in PairKeys(pairs) then registry.pathOf(k) else old(registry.paths)[k]
      ensures old(Consistent(registry)) ==> Consistent(registry)
      ensures records == old(records)
    {
      ghost var paths0 := registry.paths;
      var i := 0;
      while i < |pairs|
        invariant 0 <= i <= |pairs|
        invariant cache == Inserted(old(cache), pairs[..i])
        invariant records == old(records)
        invariant registry.paths.Keys == paths0.Keys + PairKeys(pairs[..i])
        invariant forall k :: k in registry.paths ==>
                    registry.paths[k] == if k in PairKeys(pairs[..i]) then registry.pathOf(k) else paths0[k]
      {
        var (slug, article) := pairs[i];
        InsertedStep(old(cache), pairs, i);
        registry.RegisterSlug(slug);
        cache := cache[slug := article];
        i := i + 1;
      }
      assert pairs[..|pairs|] == pairs;
    }
  }

  /** Every slug `load` hands to the cache or to `errors` has been
      registered from the records read. */
  lemma LoadRegistered(slugOf: Path -> Key, pures: seq<Path>, built: seq<Result<Article, TypError>>)
    requires |built| == |pures|
    requires forall i :: 0 <= i < |built| ==> ResultSlug(built[i]) == slugOf(pures[i])
    ensures Slugs(Failures(built)) <= set p | p in pures :: slugOf(p)
    ensures PairKeys(Articles(built)) <= set p | p in pures :: slugOf(p)
  {
    forall e | e in Failures(built)
      ensures e.slug in set p | p in pures :: slugOf(p)
    {
      var i :| 0 <= i < |built| && built[i] == Err(e);
      assert ResultSlug(built[i]) == e.slug;
    }
    forall k | k in PairKeys(Articles(built))
      ensures k in set p | p in pures :: slugOf(p)
    {
      var j :| 0 <= j < |Articles(built)| && Articles(built)[j].0 == k;
      var a := Articles(built)[j].1;
      assert Ok(a) in built;
      var i :| 0 <= i < |built| && built[i] == Ok(a);
      assert ResultSlug(built[i]) == k;
    }
  }
}

/** The change-set decision made when a build starts: which typst sources
    to recompile, whether everything must be rebuilt, which asset files
    changed, and whether there is anything to do at all. The file-system
    scans, the configuration loaders and the global options are replaced by
    the values they produce. */
module Initializer {
  import opened Results
  import opened Paths

  /** The typst sources the monitor found: all of them, the changed ones and
      the deleted ones. */
  datatype TypstDelta = TypstDelta(all: seq<Path>, changed: seq<Path>, deleted: seq<Path>)

  /** Changed and deleted files of one kind. */
  datatype Delta = Delta(changed: seq<Path>, deleted: seq<Path>)

  /** What a build starts from (`Input`, without the monitor and the loaded
      configuration). */
  datatype Input = Input(
    changedTypst: seq<Path>, deletedTypst: seq<Path>,
    changedConfig: seq<Path>, deletedConfig: seq<Path>,
    changedNonTypst: seq<Path>, deletedNonTypst: seq<Path>,
    changedAssets: seq<Path>, deletedAssets: seq<Path>,
    retryHtml: seq<Path>,
    overall: bool)

  /** Why `initialize` gave up: a monitor scan failed, the configuration at
      `configPath` could not be loaded ("try to init Typsite first"), or the
      project options could not be loaded. */
  datatype InitError = MonitorFailed(reason: string) | ConfigLoadFailed(configPath: Path) | OptionsFailed(reason: string)

  /** The paths kept by `keep`, in their original order. */
  function Filter(paths: seq<Path>, keep: Path -> bool): (r: seq<Path>)
    ensures |r| <= |paths|
    ensures forall p :: p in r <==> p in paths && keep(p)
  {
    if paths == [] then []
    else
      var prev := Filter(paths[..|paths| - 1], keep);
      var last := paths[|paths| - 1];
      assert forall p :: p in paths <==> p in paths[..|paths| - 1] || p == last;
      if keep(last) then prev + [last] else prev
  }

  /** Filtering keeps the order: filtering a concatenation concatenates the
      filtered parts. */
  lemma {:induction false} FilterAppend(a: seq<Path>, b: seq<Path>, keep: Path -> bool)
    ensures Filter(a + b, keep) == Filter(a, keep) + Filter(b, keep)
    decreases |b|
  {
    if b != [] {
      var b' := b[..|b| - 1];
      assert (a + b)[..|a + b| - 1] == a + b';
      var last := b[|b| - 1];
      assert (a + b)[|a + b| - 1] == last;
      var tail := if keep(last) then [last] else [];
      assert Filter(a + b, keep) == Filter(a + b', keep) + tail;
      assert Filter(b, keep) == Filter(b', keep) + tail;
      FilterAppend(a, b', keep);
    } else {
      assert a + b == a;
    }
  }

  /** A changed configuration file that is the project options. */
  predicate OptionsFile(p: Path, sep: char) {
    EndsWith(Display(p, sep), "options.toml")
  }

  /** A changed configuration file under "components", matched as written
      with a backslash separator only. */
  predicate ComponentsFile(p: Path, sep: char) {
    Contains(Display(p, sep), "components\\")
  }

  predicate OptionsChanged(changed: seq<Path>, sep: char) {
    exists i :: 0 <= i < |changed| && OptionsFile(changed[i], sep)
  }

  /** Only paths that are not the options file are tested for components. */
  predicate ComponentsChanged(changed: seq<Path>, sep: char) {
    exists i :: 0 <= i < |changed| && !OptionsFile(changed[i], sep) && ComponentsFile(changed[i], sep)
  }

  /** The scan of the changed configuration files for the two flags; it
      stops as soon as both are set. */
  method ScanConfig(changed: seq<Path>, sep: char) returns (optionsChanged: bool, componentsChanged: bool)
    ensures optionsChanged <==> OptionsChanged(changed, sep)
    ensures componentsChanged <==> ComponentsChanged(changed, sep)
  {
    optionsChanged, componentsChanged := false, false;
    var i := 0;
    while i < |changed|
      invariant 0 <= i <= |changed|
      invariant optionsChanged <==> exists j :: 0 <= j < i && OptionsFile(changed[j], sep)
      invariant componentsChanged <==>
                  exists j :: 0 <= j < i && !OptionsFile(changed[j], sep) && ComponentsFile(changed[j], sep)
    {
      if optionsChanged && componentsChanged {
        break;
      }
      var name := Display(changed[i], sep);
      if EndsWith(name, "options.toml") {
        optionsChanged := true;
      } else if Contains(name, "components\\") {
        componentsChanged := true;
      }
      i := i + 1;
    }
  }

  /** With '/' as separator and no backslash in any component name, the
      components flag is never set. */
  lemma {:induction false} NoBackslashNoComponents(changed: seq<Path>, sep: char)
    requires sep != '\\'
    requires forall i, j, k :: 0 <= i < |changed| && 0 <= j < |changed[i]| && 0 <= k < |changed[i][j]| ==> changed[i][j][k] != '\\'
    ensures !ComponentsChanged(changed, sep)
  {
    forall i | 0 <= i < |changed|
      ensures !ComponentsFile(changed[i], sep)
    {
      var name := Display(changed[i], sep);
      NoBackslashInDisplay(changed[i], sep);
      forall n | 0 <= n <= |name| - |"components\\"|
        ensures !OccursAt(name, "components\\", n)
      {
        assert name[n..n + 11][10] == name[n + 10] != "components\\"[10];
      }
    }
  }

  lemma {:induction false} NoBackslashInDisplay(p: Path, sep: char)
    requires sep != '\\'
    requires forall j, k :: 0 <= j < |p| && 0 <= k < |p[j]| ==> p[j][k] != '\\'
    ensures forall k :: 0 <= k < |Display(p, sep)| ==> Display(p, sep)[k] != '\\'
  {
    if |p| > 1 {
      NoBackslashInDisplay(p[..|p| - 1], sep);
    }
  }

  /** The typst source is under `typstPath` and, relative to it, is one of
      the library paths. */
  predicate LibPath(p: Path, typstPath: Path, libPaths: set<string>, sep: char) {
    match StripPrefix(p, typstPath)
    case Some(rest) => Display(rest, sep) in libPaths
    case None => false
  }

  /** `libs_changed`: some path, taken in order, is a library path; paths
      outside `typstPath` are skipped. */
  function LibsChanged(paths: seq<Path>, typstPath: Path, libPaths: set<string>, sep: char): bool
    decreases |paths|
  {
    if paths == [] then false
    else LibPath(paths[0], typstPath, libPaths, sep) || LibsChanged(paths[1..], typstPath, libPaths, sep)
  }

  lemma {:induction false} LibsChangedIff(paths: seq<Path>, typstPath: Path, libPaths: set<string>, sep: char)
    ensures LibsChanged(paths, typstPath, libPaths, sep) <==>
            exists i :: 0 <= i < |paths| && LibPath(paths[i], typstPath, libPaths, sep)
    decreases |paths|
  {
    if paths != [] {
      LibsChangedIff(paths[1..], typstPath, libPaths, sep);
      assert forall i :: 0 <= i < |paths| - 1 ==> paths[1..][i] == paths[i + 1];
      if LibPath(paths[0], typstPath, libPaths, sep) {
        assert 0 < |paths|;
      }
      if exists i :: 0 <= i < |paths| && LibPath(paths[i], typstPath, libPaths, sep) {
        var i :| 0 <= i < |paths| && LibPath(paths[i], typstPath, libPaths, sep);
        if i > 0 {
          assert LibPath(paths[1..][i - 1], typstPath, libPaths, sep);
        }
      }
    }
  }

  /** Every path lies under `root`. */
  predicate Under(paths: seq<Path>, root: Path) {
    forall i :: 0 <= i < |paths| ==> StartsWith(paths[i], root)
  }

  /** An asset file: under `assetsPath`, and not an html file. */
  predicate AssetFile(p: Path, assetsPath: Path) {
    StartsWith(p, assetsPath) && FileExt(p) != Some("html")
  }

  /** The decision `initialize` makes once every scan and load succeeded. */
  function Decided(typstPath: Path, assetsPath: Path, sep: char, cacheExists: bool,
                   typst: TypstDelta, config: Delta, nonTypst: Delta, retry: seq<Path>,
                   libPaths: set<string>): Input
  {
    var overall := !cacheExists || OptionsChanged(config.changed, sep) || ComponentsChanged(config.changed, sep) ||
                   LibsChanged(typst.changed + typst.deleted, typstPath, libPaths, sep);
    var notLib := p => !LibPath(p, typstPath, libPaths, sep);
    var isAsset := p => AssetFile(p, assetsPath);
    Input(Filter(if overall then typst.all else typst.changed, notLib), Filter(typst.deleted, notLib),
          config.changed, config.deleted, nonTypst.changed, nonTypst.deleted,
          Filter(config.changed, isAsset), Filter(config.deleted, isAsset),
          retry, overall)
  }

  /** `initialize`: runs the scans in order, stopping at the first failure,
      then decides. `retain` unwraps the prefix strip, so the changed and
      deleted typst paths, and all of them on a full rebuild, must lie
      under `typstPath`. */
  method Initialize(typstPath: Path, assetsPath: Path, configPath: Path, sep: char, cacheExists: bool,
                    typstScan: Result<TypstDelta, string>, configScan: Result<Delta, string>,
                    nonTypstScan: Result<Delta, string>, retry: seq<Path>, configLoads: bool,
                    options: Result<set<string>, string>)
    returns (r: Result<Input, InitError>)
    requires typstScan.Ok? ==>
               Under(typstScan.value.all, typstPath) && Under(typstScan.value.changed, typstPath) &&
               Under(typstScan.value.deleted, typstPath)
    ensures typstScan.Err? ==> r == Err(MonitorFailed(typstScan.error))
    ensures typstScan.Ok? && configScan.Err? ==> r == Err(MonitorFailed(configScan.error))
    ensures typstScan.Ok? && configScan.Ok? && nonTypstScan.Err? ==> r == Err(MonitorFailed(nonTypstScan.error))
    ensures typstScan.Ok? && configScan.Ok? && nonTypstScan.Ok? && !configLoads ==> r == Err(ConfigLoadFailed(configPath))
    ensures typstScan.Ok? && configScan.Ok? && nonTypstScan.Ok? && configLoads && options.Err? ==>
              r == Err(OptionsFailed(options.error))
    ensures typstScan.Ok? && configScan.Ok? && nonTypstScan.Ok? && configLoads && options.Ok? ==>
              r == Ok(Decided(typstPath, assetsPath, sep, cacheExists, typstScan.value, configScan.value,
                              nonTypstScan.value, retry, options.value))
  {
    if typstScan.Err? {
      return Err(MonitorFailed(typstScan.error));
    }
    var allTypst, changedTypst, deletedTypst := typstScan.value.all, typstScan.value.changed, typstScan.value.deleted;
    if configScan.Err? {
      return Err(MonitorFailed(configScan.error));
    }
    var config := configScan.value;
    if nonTypstScan.Err? {
      return Err(MonitorFailed(nonTypstScan.error));
    }
    if !configLoads {
      return Err(ConfigLoadFailed(configPath));
    }
    var optionsChanged, componentsChanged := ScanConfig(config.changed, sep);
    if options.Err? {
      return Err(OptionsFailed(options.error));
    }
    var libPaths := options.value;
    var libsChanged := LibsChanged(changedTypst + deletedTypst, typstPath, libPaths, sep);
    var overall := !cacheExists || optionsChanged || componentsChanged || libsChanged;
    if overall {
      changedTypst := allTypst;
    }
    changedTypst := Filter(changedTypst, p => !LibPath(p, typstPath, libPaths, sep));
    deletedTypst := Filter(deletedTypst, p => !LibPath(p, typstPath, libPaths, sep));
    var changedAssets := Filter(config.changed, p => AssetFile(p, assetsPath));
    var deletedAssets := Filter(config.deleted, p => AssetFile(p, assetsPath));
    r := Ok(Input(changedTypst, deletedTypst, config.changed, config.deleted,
                  nonTypstScan.value.changed, nonTypstScan.value.deleted,
                  changedAssets, deletedAssets, retry, overall));
  }

  /** A full rebuild is needed exactly when the cache is missing, the
      options or components changed, or a library source changed or was
      deleted; then every non-library source is recompiled, otherwise only
      the changed ones. */
  lemma DecidedOverall(typstPath: Path, assetsPath: Path, sep: char, cacheExists: bool,
                       typst: TypstDelta, config: Delta, nonTypst: Delta, retry: seq<Path>,
                       libPaths: set<string>)
    ensures var input := Decided(typstPath, assetsPath, sep, cacheExists, typst, config, nonTypst, retry, libPaths);
            (input.overall <==>
               !cacheExists || OptionsChanged(config.changed, sep) || ComponentsChanged(config.changed, sep) ||
               exists p :: p in typst.changed + typst.deleted && LibPath(p, typstPath, libPaths, sep)) &&
            (forall p :: p in input.changedTypst <==>
               p in (if input.overall then typst.all else typst.changed) && !LibPath(p, typstPath, libPaths, sep))
  {
    var paths := typst.changed + typst.deleted;
    LibsChangedIff(paths, typstPath, libPaths, sep);
    if exists p :: p in paths && LibPath(p, typstPath, libPaths, sep) {
      var p :| p in paths && LibPath(p, typstPath, libPaths, sep);
      var i :| 0 <= i < |paths| && paths[i] == p;
    }
  }

  /** No library source is left to compile or delete, and the asset lists
      are the configuration changes under the assets root that are not
      html files. */
  lemma DecidedFilters(typstPath: Path, assetsPath: Path, sep: char, cacheExists: bool,
                       typst: TypstDelta, config: Delta, nonTypst: Delta, retry: seq<Path>,
                       libPaths: set<string>)
    ensures var input := Decided(typstPath, assetsPath, sep, cacheExists, typst, config, nonTypst, retry, libPaths);
            (forall p :: p in input.changedTypst + input.deletedTypst ==> !LibPath(p, typstPath, libPaths, sep)) &&
            (forall p :: p in input.deletedTypst <==> p in typst.deleted && !LibPath(p, typstPath, libPaths, sep)) &&
            (forall p :: p in input.changedAssets <==> p in config.changed && AssetFile(p, assetsPath)) &&
            (forall p :: p in input.deletedAssets <==> p in config.deleted && AssetFile(p, assetsPath))
  {
  }

  /** `unchanged`: nothing changed or was deleted among the typst, config
      and non-typst files, and outside watch mode nothing waits for a
      retry. The asset lists are not consulted. */
  predicate Unchanged(input: Input, watch: bool) {
    input.changedTypst == [] && input.deletedTypst == [] &&
    input.changedConfig == [] && input.deletedConfig == [] &&
    input.changedNonTypst == [] && input.deletedNonTypst == [] &&
    (watch || input.retryHtml == [])
  }

  /** Without a cache there is always work when some source is not a
      library, even if the monitor reports no change at all. */
  lemma NoCacheNotUnchanged(typstPath: Path, assetsPath: Path, sep: char,
                            typst: TypstDelta, config: Delta, nonTypst: Delta, retry: seq<Path>,
                            libPaths: set<string>, watch: bool, p: Path)
    requires p in typst.all && !LibPath(p, typstPath, libPaths, sep)
    ensures var input := Decided(typstPath, assetsPath, sep, false, typst, config, nonTypst, retry, libPaths);
            input.overall && !Unchanged(input, watch)
  {
    var input := Decided(typstPath, assetsPath, sep, false, typst, config, nonTypst, retry, libPaths);
    assert p in input.changedTypst;
  }

  /** With a cache and no reported change, there is nothing to do, unless
      html pages wait for a retry outside watch mode. */
  lemma QuietStartUnchanged(typstPath: Path, assetsPath: Path, sep: char,
                            all: seq<Path>, retry: seq<Path>, libPaths: set<string>, watch: bool)
    ensures var input := Decided(typstPath, assetsPath, sep, true, TypstDelta(all, [], []), Delta([], []),
                                 Delta([], []), retry, libPaths);
            !input.overall && (Unchanged(input, watch) <==> watch || retry == [])
  {
  }
}

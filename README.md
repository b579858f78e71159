# Typsite incremental-build core in Dafny

This project models the two pieces of Typsite's incremental build that decide
what must be recompiled.

**The article cache** (`ArticleCache`, src/compile/compiler/cache/article.rs):
- It holds compiled articles by slug, each with its forward dependency set.
- It keeps the persisted `.typ.json` records behind them.
- Its central operation is the failure cascade `errors`. A failed article is dropped from:
  - the key registry;
  - the cache;
  - the record store.

  It is then reported under its html error path. Every cached article that depends on any slug reported so far then fails in turn, until a scan finds nothing.
- `load` builds on the cascade:
  - it deletes the records of deleted sources;
  - it registers the records read back;
  - it inserts the articles reconstructed from them;
  - it cascades the reconstruction failures;
  - it returns the report, which maps each html path to its error.
- The other operations are `write_cache`, `get`, `drain`, `refresh` and the two path helpers.

**The change-set decision** (`initialize` and `Input::unchanged`, src/compile/compiler/initializer.rs):
- A scan of the changed configuration files sets two flags:
  - the options flag, for a path ending in "options.toml";
  - the components flag, for a path containing `components\`.
- `libs_changed` holds when a changed or deleted source is a typst library file.
- A full rebuild replaces the changed sources with all sources.
- Library files are removed from the changed and deleted sources.
- Asset files are picked out of the configuration changes.
- `unchanged` tells whether there is anything to do.

Files:
- `results.dfy`: `Option` and `Result`.
- `paths.dfy`: paths as component sequences. It covers the `std::path` operations the core relies on: `join`, `with_extension`, `extension`, `starts_with`, `strip_prefix` and `to_string_lossy` (joining with a separator given as a parameter).
- `registry.dfy`: the key registry as a class over a map from slug to source path.
- `cascade.dfy`: articles and errors, plus the failure cascade as a specification. `Closure` is the least set of keys that contains the failed keys and is closed under "depends on". Lemmas show that it is:
  - least;
  - justified;
  - the same as transitive reachability;
  - unchanged by removing failed keys beforehand.
- `article_cache.dfy`: the `ArticleCache` class. Its methods change `cache`, `records` and the registry in place, and are proved against the specification.
- `initializer.dfy`: the flag scan as a loop, and the decision. `initialize` is proved equal to the function `Decided`, and the lemmas state what `Decided` promises.

Two behaviours follow the code rather than what one might expect:
- **Components flag.** The name `components_changed` suggests any change under a components directory. The code tests `contains("components\\")`, which matches only a backslash separator, and tests only paths that do not end in "options.toml".
- **`write_cache` with an unknown slug.** This is not a failure of that entry alone: the code panics (`expect`), so here it is a precondition.

## Model

| member | source | states |
|---|---|---|
| Paths.Stem | src/compile/compiler/cache/article.rs:37 | the stem is a prefix of the file name, non-empty for a non-empty name, and the whole name when it has no extension |
| Paths.Extension | src/compile/compiler/cache/article.rs:37 | an extension exists exactly when the name has a non-leading dot and is not ".."; it is dot-free and the name is stem + "." + extension |
| Paths.WithExtension | src/compile/compiler/cache/article.rs:34-43 | `with_extension` keeps every component but the last and the length of the path |
| Paths.WithExtensionSetsExtension | src/compile/compiler/cache/article.rs:34-38 | after `with_extension(ext)` the path's extension is `ext` |
| Paths.WithExtensionKeepsStem | src/compile/compiler/cache/article.rs:34-43 | `with_extension` keeps the file stem: only the extension changes |
| Paths.Display | src/compile/compiler/initializer.rs:61 | `to_string_lossy`: the components joined with the platform separator (no contract; characterised by `DisplayEnds`) |
| Paths.DisplayEnds | src/compile/compiler/initializer.rs:61-67 | the displayed path begins with the first component and ends with the file name, so a file named "options.toml" sets the options flag |
| Paths.StripPrefix | src/compile/compiler/initializer.rs:80 | succeeds exactly when the base is a component prefix, and base + rest is the path |
| Registry.KeyRegistry.PathOf | src/compile/compiler/cache/article.rs:53 | the lookup succeeds exactly for registered slugs and returns their path |
| Registry.KeyRegistry.RemoveSlug | src/compile/compiler/cache/article.rs:54 | the slug is unregistered and nothing else changes |
| Registry.KeyRegistry.RegisterSlug | src/compile/compiler/cache/article.rs:179 | the slug is registered under its configured path and nothing else changes |
| Registry.KeyRegistry.RegisterPaths | src/compile/compiler/cache/article.rs:111 | every path is registered under its slug, in order |
| Registry.Registered | src/compile/compiler/cache/article.rs:111 | the registered slugs are the old ones plus the slugs of the given paths |
| Registry.RegisteredLast | src/compile/compiler/cache/article.rs:111 | a slug is registered under the last given path that carries it |
| Registry.RegisteredUntouched | src/compile/compiler/cache/article.rs:111 | a slug no given path carries keeps its registered path |
| Cascade.Dependents | src/compile/compiler/cache/article.rs:61-81 | exactly the cached articles depending on some key of the failed set |
| Cascade.Closure | src/compile/compiler/cache/article.rs:61-85 | the failing keys contain the failed ones, lie within failed + cached, and no cached article outside them depends on one of them |
| Cascade.ClosureLeast | src/compile/compiler/cache/article.rs:61-85 | nothing fails that does not have to: the closure lies in every closed superset |
| Cascade.ClosureOfClosed | src/compile/compiler/cache/article.rs:75-85 | when no article depends on a failed key, nothing more fails |
| Cascade.ClosureJustified | src/compile/compiler/cache/article.rs:61-80 | every key failing by cascade is a cached article depending on a failing key |
| Cascade.ClosureWithout | src/compile/compiler/cache/article.rs:55 | removing failed keys from the cache before the scan does not change what fails |
| Cascade.ClosureAbsorbs | src/compile/compiler/cache/article.rs:83-85 | adding keys that fail anyway to the failed set does not change what fails |
| Cascade.ReachesInClosure | src/compile/compiler/cache/article.rs:61-85 | a key reaching a failed key through dependency edges fails |
| Cascade.ClosureReaches | src/compile/compiler/cache/article.rs:61-85 | every failing key reaches a failed key through dependency edges |
| Cascade.ClosureIsReachability | src/compile/compiler/cache/article.rs:61-85 | a key fails if and only if it transitively depends on a failed key |
| Cascade.ChainFails | src/compile/compiler/cache/article.rs:61-85 | along a dependency chain ending in a failed key, every key fails |
| Cascade.Level | src/compile/compiler/cache/article.rs:61-85 | the keys failed after n scans contain the failed keys; each scan adds the cached dependents of the keys failed so far |
| Cascade.LevelInClosure | src/compile/compiler/cache/article.rs:61-85 | every scan stays inside the failure closure |
| Cascade.LevelShift | src/compile/compiler/cache/article.rs:82-85 | the recursive call's m scans, started after one scan, are scans 1 to m + 1 of the outer call |
| Cascade.LevelWithout | src/compile/compiler/cache/article.rs:55 | removing failed keys from the cache before the scans changes none of them |
| ArticleCaching.Slugs | src/compile/compiler/cache/article.rs:51-52 | exactly the slugs of the given errors |
| ArticleCaching.MissingReasons | src/compile/compiler/cache/article.rs:65-75 | exactly one "not found" per dependency that is a reported slug, and nothing else; empty exactly when the article depends on no reported slug |
| ArticleCaching.Articles | src/compile/compiler/cache/article.rs:114-125 | exactly the successfully built articles, keyed by their own slugs |
| ArticleCaching.Failures | src/compile/compiler/cache/article.rs:114-130 | exactly the errors among the build results |
| ArticleCaching.Inserted | src/compile/compiler/cache/article.rs:126 | the cache keys grow by exactly the inserted keys |
| ArticleCaching.InsertedLastWins | src/compile/compiler/cache/article.rs:178-181 | a key holds the article of the last pair carrying it |
| ArticleCaching.InsertedUntouched | src/compile/compiler/cache/article.rs:178-181 | a key no pair carries keeps its article |
| ArticleCaching.CacheShrinks | src/compile/compiler/cache/article.rs:55 | each recursive call of `errors` is on a strictly smaller cache measure, so the cascade terminates |
| ArticleCaching.NothingDependsClosed | src/compile/compiler/cache/article.rs:83 | an empty scan means the reported set is closed in the cache as it was before the removals |
| ArticleCaching.DependentsFail | src/compile/compiler/cache/article.rs:61-81 | articles found by a scan after the removals fail in the specification too |
| ArticleCaching.LoadRegistered | src/compile/compiler/cache/article.rs:111-133 | every slug `load` inserts into the cache or cascades was registered first, so the unwrap at line 53 cannot fail |
| ArticleCaching.ArticleCache.constructor | src/compile/compiler/cache/article.rs:24-32 | records root is cache/article, html root is cache/html, the cache is empty |
| ArticleCaching.ArticleCache.HtmlPath | src/compile/compiler/cache/article.rs:34-38 | the html root joined with the source path, all components but the last kept |
| ArticleCaching.ArticleCache.HtmlPathIsHtml | src/compile/compiler/cache/article.rs:34-38 | an error page path lies under the html root, keeps the source's file stem and has extension "html" |
| ArticleCaching.ArticleCache.JsonPath | src/compile/compiler/cache/article.rs:39-43 | the records root joined with the source path, all components but the last kept |
| ArticleCaching.ArticleCache.RecordPath | src/compile/compiler/cache/article.rs:149-151 | the record root joined with the source path, ".json" appended to its file name |
| ArticleCaching.ArticleCache.RecordPathIsJsonPath | src/compile/compiler/cache/article.rs:39-43 | for a `.typ` source, the record `write_cache` writes is the file `errors` and `load` delete |
| ArticleCaching.ArticleCache.Get | src/compile/compiler/cache/article.rs:166-168 | returns the cached article exactly when the slug is cached |
| ArticleCaching.ArticleCache.ScanFailed | src/compile/compiler/cache/article.rs:61-81 | the scan finds exactly the cached articles depending on a reported slug, each once, with its "not found" reasons |
| ArticleCaching.ArticleCache.DropOne | src/compile/compiler/cache/article.rs:52-59 | one failed slug leaves registry, cache and record store and is reported under its html path |
| ArticleCaching.ArticleCache.Reported | src/compile/compiler/cache/article.rs:51-60 | the error map after reporting each failure in order (no contract; characterised by `ReportedEntries`) |
| ArticleCaching.ArticleCache.ReportedKeeps | src/compile/compiler/cache/article.rs:51-60 | reporting adds exactly the failed slugs and keeps every other entry |
| ArticleCaching.ArticleCache.ReportedAt | src/compile/compiler/cache/article.rs:51-60 | with distinct slugs, each failure is reported under its own slug and html path |
| ArticleCaching.ArticleCache.ReportedEntries | src/compile/compiler/cache/article.rs:51-60 | reporting distinct slugs adds exactly them, each under its own html path, keeping other entries |
| ArticleCaching.ArticleCache.DropFailed | src/compile/compiler/cache/article.rs:51-60 | the failed slugs leave cache, registry and record store, and are reported |
| ArticleCaching.ArticleCache.Errors | src/compile/compiler/cache/article.rs:45-86 | the reported slugs are the failure closure; they leave cache, registry and store; earlier entries are kept; each failure is reported under its slug; each cascaded article was found by some scan n and its error names exactly its dependencies failed before scan n |
| ArticleCaching.ArticleCache.ErrorsBase | src/compile/compiler/cache/article.rs:61-85 | an empty scan ends the cascade with the specification's result |
| ArticleCaching.ArticleCache.ErrorsStep | src/compile/compiler/cache/article.rs:82-85 | the recursive call's result meets the specification for the outer call |
| ArticleCaching.ArticleCache.ErrorsStepState | src/compile/compiler/cache/article.rs:82-85 | after the recursive call, the reported keys are the closure of the original failures and cache, registry and store lost exactly them |
| ArticleCaching.ArticleCache.ErrorsStepEntries | src/compile/compiler/cache/article.rs:82-85 | after the recursive call, earlier entries, the failures and the cascaded articles are reported as specified |
| ArticleCaching.ArticleCache.ErrorsStepReasons | src/compile/compiler/cache/article.rs:61-85 | an article the first scan finds names the failures so far; one the recursive call's scan m finds is found by scan m + 1 of the outer call, with the same reasons |
| ArticleCaching.ArticleCache.CascadeEntries | src/compile/compiler/cache/article.rs:65-79 | each cascaded article is reported with only "not found" reasons for failed dependencies |
| ArticleCaching.ArticleCache.CascadedSurvivors | src/compile/compiler/cache/article.rs:61-85 | after the cascade, no cached article depends on a reported slug |
| ArticleCaching.ArticleCache.CascadedRemoved | src/compile/compiler/cache/article.rs:51-60 | every reported slug has left cache, registry and record store and sits under its html path |
| ArticleCaching.ArticleCache.CascadedKeeps | src/compile/compiler/cache/article.rs:51-86 | an article not transitively depending on a failed slug stays cached unchanged |
| ArticleCaching.ArticleCache.CascadedChain | src/compile/compiler/cache/article.rs:61-85 | if C fails and B depends on C and A on B, both A and B are reported |
| ArticleCaching.ArticleCache.Report | src/compile/compiler/cache/article.rs:134-137 | the report's paths are exactly the reported html paths, each with an error reported under it |
| ArticleCaching.ArticleCache.Load | src/compile/compiler/cache/article.rs:88-138 | deleted records removed, records registered, built articles inserted, failures cascaded (each cascaded article naming exactly its dependencies failed before the scan that found it), report of exactly the reported html paths |
| ArticleCaching.ArticleCache.DeletedRecords | src/compile/compiler/cache/article.rs:94-97 | exactly the record files of the deleted sources |
| ArticleCaching.ArticleCache.WriteCache | src/compile/compiler/cache/article.rs:141-164 | every given slug leaves the cache and its record is written; other entries untouched |
| ArticleCaching.ArticleCache.Written | src/compile/compiler/cache/article.rs:148-151 | exactly the record files of the written articles |
| ArticleCaching.ArticleCache.Drain | src/compile/compiler/cache/article.rs:169-171 | returns every cached article and leaves the cache empty; the record store is untouched |
| ArticleCaching.ArticleCache.Refresh | src/compile/compiler/cache/article.rs:173-182 | each pair is registered and inserted in order, later pairs overwriting earlier ones; registration of every cached slug is kept; the record store is untouched |
| Initializer.Filter | src/compile/compiler/initializer.rs:98-113 | keeps exactly the paths satisfying the test |
| Initializer.FilterAppend | src/compile/compiler/initializer.rs:98-113 | filtering keeps the original order |
| Initializer.ScanConfig | src/compile/compiler/initializer.rs:55-67 | options flag iff some path ends in "options.toml"; components flag iff some other path contains `components\`; the early break changes neither |
| Initializer.NoBackslashNoComponents | src/compile/compiler/initializer.rs:64 | with '/' as separator and no backslash in names, the components flag is never set |
| Initializer.LibsChanged | src/compile/compiler/initializer.rs:77-84 | the `any` over changed and deleted sources (no contract; characterised by `LibsChangedIff`) |
| Initializer.LibsChangedIff | src/compile/compiler/initializer.rs:77-84 | `libs_changed` iff some changed or deleted source, stripped of the typst root, is a library path |
| Initializer.Initialize | src/compile/compiler/initializer.rs:28-129 | each failing scan or load is reported in order; otherwise the result is the decision |
| Initializer.Decided | src/compile/compiler/initializer.rs:76-127 | the input built once every scan and load succeeded (no contract; characterised by `DecidedOverall` and `DecidedFilters`) |
| Initializer.DecidedOverall | src/compile/compiler/initializer.rs:76-95 | full rebuild iff cache missing or options, components or a library changed; then all non-library sources are recompiled, otherwise the changed ones |
| Initializer.DecidedFilters | src/compile/compiler/initializer.rs:97-113 | no library source remains; deleted non-library sources are kept; assets are the changes under the assets root that are not html |
| Initializer.Unchanged | src/compile/compiler/initializer.rs:132-141 | `unchanged`: the six typst, config and non-typst lists are empty, and watch mode is on or no retry waits; assets not consulted (no contract; its consequences are the two lemmas below) |
| Initializer.NoCacheNotUnchanged | src/compile/compiler/initializer.rs:90-95 | without a cache root there is work even with empty deltas, as soon as one source is not a library |
| Initializer.QuietStartUnchanged | src/compile/compiler/initializer.rs:132-141 | with a cache and empty deltas, nothing is to do unless html pages wait for a retry outside watch mode |

## Left out

- File-system I/O:
  - The record store is a set of record paths, without contents.
  - Reading and parsing the records (`walk_glob!`, `read_to_string`, serde) is not modelled; `load` receives the source paths of the records that parsed.
  - Failures to remove or write a file are only logged by the source, so they are not modelled.
- `Article::from`, `PureArticle::from` and serialisation are not part of this model:
  - `load` receives the build results as a parameter.
  - Each result is assumed to carry the slug the registry assigns to its record's source path.
- `TypError`'s message formatting is not part of this model:
  - The report maps each html path to the error itself.
  - An error's reasons are a set, because the source collects them in hash-map order.
- `KeyRegistry` and the configuration are not part of this model. The slug of a path, and the path of a slug, are fixed functions given to the registry.
- Parallel iteration (rayon) and hash-map iteration order are not modelled:
  - The scan in `errors` visits the cache in an arbitrary order.
  - `load` inserts the built articles in the order given.
- Report: when two reported slugs share an html path, one of their errors is kept; which one is not specified.
- WriteCache: the three string lists written with each article are not stored.
- WriteCache: the source always returns `Ok(())`, so no result is modelled.
- Drain: the lazy `Drain` iterator is modelled as handing over the whole map at once.
- Paths:
  - Paths are relative component sequences; absolute roots and non-UTF-8 names are not modelled.
  - The separator used by `to_string_lossy` is a parameter.
- Initializer: the `util::path::file_ext` helper is not part of this model. It is taken to be the extension of the file name.
- Initialize: the monitor and the loaded configuration are not kept in the result.
- Initialize: the progress messages are not modelled.
- Load: requires the failing build results to have distinct slugs. On a repeated one the source panics at article.rs line 53, because the first occurrence has already unregistered the slug.
- Errors: requires distinct failing slugs, registered, not yet reported, and every cached slug registered. These are what the `unwrap` at article.rs line 53 needs, here and in the recursive calls.
- Unchanged: `compile_options().unwrap()` is assumed to succeed; its watch flag enters as the parameter `watch`.
- Initialize: `Monitor`, `TypsiteConfig::load`, `init_options_toml`, `proj_options` and `compile_options` are not modelled. They enter as their outcomes, a value or an error message.
- Initialize: requires all typst sources to lie under the typst root even when no full rebuild uses them. This is slightly more than the `unwrap` at line 100 needs.
- The syntax highlighter (src/pass/rewrite/code/highlighter.rs) wraps an external library and is not part of this model.

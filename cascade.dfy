/** Articles, their errors, and the failure cascade as a specification:
    which keys must fail once some keys have failed. An article that depends
    on a failed key fails too, transitively; dependencies are stored forward
    only, on each article. */
module Cascade {
  import opened Results
  import opened Paths
  import opened Registry

  /** A compiled article: its slug, its source path, the slugs it depends
      on (`get_depending_articles`) and its compiled content. */
  datatype Article = Article(slug: Key, path: Path, depending: set<Key>, content: string)

  /** Why an article failed: a compile or reconstruction error, or a missing
      article it references ("Article {slug} not found"). */
  datatype Reason = Failure(text: string) | NotFound(missing: Key)

  /** A failed article and the reasons it failed. */
  datatype TypError = TypError(slug: Key, reasons: set<Reason>)

  /** The article depends on at least one key of `bad`. */
  predicate Hits(a: Article, bad: set<Key>) {
    !(a.depending !! bad)
  }

  /** No cached article outside `s` depends on a key of `s`. */
  ghost predicate Closed(cache: map<Key, Article>, s: set<Key>) {
    forall k :: k in cache && Hits(cache[k], s) ==> k in s
  }

  /** The cached articles that depend on a key of `bad`. */
  function Dependents(cache: map<Key, Article>, bad: set<Key>): (r: set<Key>)
    ensures r <= cache.Keys
    ensures forall k :: k in r <==> k in cache && Hits(cache[k], bad)
  {
    set k | k in cache && Hits(cache[k], bad)
  }

  lemma {:induction false} SubsetCard<T>(a: set<T>, b: set<T>)
    requires a <= b
    ensures |a| <= |b|
    decreases a
  {
    if a != {} {
      var y :| y in a;
      SubsetCard(a - {y}, b - {y});
    }
  }

  /** Growing `b` to `c` inside `a` shrinks what is left of `a`. */
  lemma ShrinkingDifference<T>(a: set<T>, b: set<T>, c: set<T>)
    requires b <= c && b != c && c - b <= a
    ensures |a - c| < |a - b|
  {
    assert c - b != {};
    var x :| x in c - b;
    assert x in a - b;
    SubsetCard(a - c, (a - b) - {x});
  }

  /** The keys that fail once the keys of `bad` have failed: the least
      superset of `bad` that is closed under "depends on" in `cache`. */
  function Closure(cache: map<Key, Article>, bad: set<Key>): (r: set<Key>)
    ensures bad <= r <= bad + cache.Keys
    ensures Closed(cache, r)
    decreases |cache.Keys - bad|
  {
    var next := bad + Dependents(cache, bad);
    if next <= bad then bad
    else
      ShrinkingDifference(cache.Keys, bad, next);
      Closure(cache, next)
  }

  /** Nothing fails that does not have to: the closure lies inside every
      closed superset of `bad`. */
  lemma {:induction false} ClosureLeast(cache: map<Key, Article>, bad: set<Key>, s: set<Key>)
    requires bad <= s && Closed(cache, s)
    ensures Closure(cache, bad) <= s
    decreases |cache.Keys - bad|
  {
    var next := bad + Dependents(cache, bad);
    if next != bad {
      ShrinkingDifference(cache.Keys, bad, next);
      ClosureLeast(cache, next, s);
    }
  }

  /** If no article depends on a failed key, nothing more fails. */
  lemma ClosureOfClosed(cache: map<Key, Article>, bad: set<Key>)
    requires Closed(cache, bad)
    ensures Closure(cache, bad) == bad
  {
    ClosureLeast(cache, bad, bad);
  }

  /** Every key that fails without having failed to begin with is a cached
      article that depends on a failed key. */
  lemma ClosureJustified(cache: map<Key, Article>, bad: set<Key>, k: Key)
    requires k in Closure(cache, bad) - bad
    ensures k in cache && Hits(cache[k], Closure(cache, bad))
  {
    var r := Closure(cache, bad);
    var s := bad + set j | j in r && j in cache && Hits(cache[j], r);
    ClosureLeast(cache, bad, s);
  }

  /** Taking failed keys out of the cache before the scan changes nothing. */
  lemma ClosureWithout(cache: map<Key, Article>, gone: set<Key>, bad: set<Key>)
    requires gone <= bad
    ensures Closure(cache - gone, bad) == Closure(cache, bad)
  {
    var r1 := Closure(cache - gone, bad);
    var r2 := Closure(cache, bad);
    ClosureLeast(cache - gone, bad, r2);
    ClosureLeast(cache, bad, r1);
  }

  /** Adding keys that fail anyway to the failed set changes nothing. */
  lemma ClosureAbsorbs(cache: map<Key, Article>, bad: set<Key>, more: set<Key>)
    requires more <= Closure(cache, bad)
    ensures Closure(cache, bad + more) == Closure(cache, bad)
  {
    ClosureLeast(cache, bad + more, Closure(cache, bad));
    ClosureLeast(cache, bad, Closure(cache, bad + more));
  }

  /** The keys failed after `n` scans: each scan adds the cached articles
      that depend on a key failed so far. */
  function Level(cache: map<Key, Article>, bad: set<Key>, n: nat): (r: set<Key>)
    ensures bad <= r
    decreases n
  {
    if n == 0 then bad
    else
      var prev := Level(cache, bad, n - 1);
      prev + Dependents(cache, prev)
  }

  /** `k` is first found by scan number `n` (counting from 0): it is a cached
      article outside the keys failed so far that depends on one of them. */
  ghost predicate FoundAt(cache: map<Key, Article>, bad: set<Key>, k: Key, n: nat) {
    k in cache && k !in Level(cache, bad, n) && Hits(cache[k], Level(cache, bad, n))
  }

  /** Every scan stays inside the closure. */
  lemma {:induction false} LevelInClosure(cache: map<Key, Article>, bad: set<Key>, n: nat)
    ensures Level(cache, bad, n) <= Closure(cache, bad)
    decreases n
  {
    if n > 0 {
      var prev := Level(cache, bad, n - 1);
      var c := Closure(cache, bad);
      LevelInClosure(cache, bad, n - 1);
      forall k | k in Dependents(cache, prev)
        ensures k in c
      {
        assert Hits(cache[k], c);
      }
    }
  }

  /** Scanning `m` more times after one scan is scanning `m + 1` times. */
  lemma {:induction false} LevelShift(cache: map<Key, Article>, bad: set<Key>, m: nat)
    ensures Level(cache, Level(cache, bad, 1), m) == Level(cache, bad, m + 1)
    decreases m
  {
    if m > 0 {
      LevelShift(cache, bad, m - 1);
    }
  }

  /** Taking failed keys out of the cache before the scans changes none of
      them. */
  lemma {:induction false} LevelWithout(cache: map<Key, Article>, gone: set<Key>, bad: set<Key>, n: nat)
    requires gone <= bad
    ensures Level(cache - gone, bad, n) == Level(cache, bad, n)
    decreases n
  {
    if n > 0 {
      LevelWithout(cache, gone, bad, n - 1);
      var prev := Level(cache, bad, n - 1);
      forall k | k in Dependents(cache, prev) && k !in prev
        ensures k in Dependents(cache - gone, prev)
      {
        assert k !in gone && (cache - gone)[k] == cache[k];
      }
    }
  }

  /** `k` reaches a key of `bad` through at most `n` dependency edges between
      cached articles. */
  ghost predicate Reaches(cache: map<Key, Article>, k: Key, bad: set<Key>, n: nat)
    decreases n
  {
    k in bad ||
    (n > 0 && k in cache &&
     exists d :: d in cache[k].depending && Reaches(cache, d, bad, n - 1))
  }

  lemma {:induction false} ReachesInClosure(cache: map<Key, Article>, k: Key, bad: set<Key>, n: nat)
    requires Reaches(cache, k, bad, n)
    ensures k in Closure(cache, bad)
    decreases n
  {
    if k !in bad {
      var d :| d in cache[k].depending && Reaches(cache, d, bad, n - 1);
      ReachesInClosure(cache, d, bad, n - 1);
      assert Hits(cache[k], Closure(cache, bad));
    }
  }

  /** Every failed key has failed to begin with or reaches a failed key. */
  lemma ClosureReaches(cache: map<Key, Article>, bad: set<Key>, k: Key)
    requires k in Closure(cache, bad)
    ensures exists n: nat :: Reaches(cache, k, bad, n)
  {
    var s := set j | j in bad + cache.Keys && exists n: nat :: Reaches(cache, j, bad, n);
    forall j | j in cache && Hits(cache[j], s)
      ensures j in s
    {
      var d :| d in cache[j].depending && d in s;
      var n: nat :| Reaches(cache, d, bad, n);
      assert Reaches(cache, j, bad, n + 1);
    }
    forall j | j in bad ensures j in s {
      assert Reaches(cache, j, bad, 0);
    }
    ClosureLeast(cache, bad, s);
    assert k in s;
  }

  /** A key fails exactly when it has failed or transitively depends on a
      failed key through cached articles. */
  lemma ClosureIsReachability(cache: map<Key, Article>, bad: set<Key>, k: Key)
    ensures k in Closure(cache, bad) <==> exists n: nat :: Reaches(cache, k, bad, n)
  {
    if k in Closure(cache, bad) {
      ClosureReaches(cache, bad, k);
    }
    if exists n: nat :: Reaches(cache, k, bad, n) {
      var n: nat :| Reaches(cache, k, bad, n);
      ReachesInClosure(cache, k, bad, n);
    }
  }

  /** Transitive invalidation along a chain: when every article of `chain`
      is cached and depends on the next one, and the last one has failed,
      every key of the chain fails. */
  lemma {:induction false} ChainFails(cache: map<Key, Article>, bad: set<Key>, chain: seq<Key>)
    requires |chain| > 0 && chain[|chain| - 1] in bad
    requires forall i :: 0 <= i < |chain| - 1 ==> chain[i] in cache && chain[i + 1] in cache[chain[i]].depending
    ensures forall i :: 0 <= i < |chain| ==> chain[i] in Closure(cache, bad)
  {
    if |chain| > 1 {
      ChainFails(cache, bad, chain[1..]);
      assert chain[1] in Closure(cache, bad);
      assert Hits(cache[chain[0]], Closure(cache, bad));
      forall i | 0 <= i < |chain| ensures chain[i] in Closure(cache, bad) {
        if i > 0 { assert chain[i] == chain[1..][i - 1]; }
      }
    }
  }
}

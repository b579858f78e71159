/** The key registry the article cache talks to: a map from article keys
    (slugs) to source paths. How a slug is derived from a path, and a path
    from a slug, depends on the project configuration and is not part of this
    model; the two derivations are fixed when the registry is made. */
module Registry {
  import opened Results
  import opened Paths

  /** An article's identity, its slug. */
  type Key = string

  class KeyRegistry {
    /** The slug the configuration assigns to a source path. */
    const slugOf: Path -> Key
    /** The source path the configuration assigns to a slug. */
    const pathOf: Key -> Path
    /** The registered slugs and their source paths. */
    var paths: map<Key, Path>

    constructor (slugOf: Path -> Key, pathOf: Key -> Path, paths: map<Key, Path>)
      ensures this.slugOf == slugOf && this.pathOf == pathOf && this.paths == paths
    {
      this.slugOf := slugOf;
      this.pathOf := pathOf;
      this.paths := paths;
    }

    /** `path(slug)`: the registered source path of a slug, if any. */
    function PathOf(slug: Key): (r: Option<Path>)
      reads this
      ensures r.Some? <==> slug in paths
      ensures r.Some? ==> r.value == paths[slug]
    {
      if slug in paths then Some(paths[slug]) else None
    }

    /** `remove_slug`: the slug is no longer registered. */
    method RemoveSlug(slug: Key)
      modifies this
      ensures paths == old(paths) - {slug}
    {
      paths := paths - {slug};
    }

    /** `register_slug`: the slug becomes registered under its path. */
    method RegisterSlug(slug: Key)
      modifies this
      ensures paths == old(paths)[slug := pathOf(slug)]
    {
      paths := paths[slug := pathOf(slug)];
    }

    /** `register_paths`: every path is registered under its slug, in order. */
    method RegisterPaths(ps: seq<Path>)
      modifies this
      ensures paths == Registered(old(paths), slugOf, ps)
    {
      var i := 0;
      while i < |ps|
        invariant 0 <= i <= |ps|
        invariant paths == Registered(old(paths), slugOf, ps[..i])
      {
        assert ps[..i + 1][..i] == ps[..i];
        paths := paths[slugOf(ps[i]) := ps[i]];
        i := i + 1;
      }
      assert ps[..|ps|] == ps;
    }
  }

  /** The registry's map after registering `ps` in order. */
  function Registered(paths: map<Key, Path>, slugOf: Path -> Key, ps: seq<Path>): (r: map<Key, Path>)
    ensures r.Keys == paths.Keys + set p | p in ps :: slugOf(p)
  {
    if ps == [] then paths
    else
      var prev := Registered(paths, slugOf, ps[..|ps| - 1]);
      assert forall p :: p in ps <==> p in ps[..|ps| - 1] || p == ps[|ps| - 1];
      prev[slugOf(ps[|ps| - 1]) := ps[|ps| - 1]]
  }

  /** A slug is registered under the last path of `ps` that carries it. */
  lemma {:induction false} RegisteredLast(paths: map<Key, Path>, slugOf: Path -> Key, ps: seq<Path>, i: nat)
    requires i < |ps|
    requires forall j :: i < j < |ps| ==> slugOf(ps[j]) != slugOf(ps[i])
    ensures Registered(paths, slugOf, ps)[slugOf(ps[i])] == ps[i]
  {
    if i < |ps| - 1 {
      var init := ps[..|ps| - 1];
      assert forall j :: i < j < |init| ==> init[j] == ps[j];
      RegisteredLast(paths, slugOf, init, i);
    }
  }

  /** A slug no path of `ps` carries keeps its registered path. */
  lemma {:induction false} RegisteredUntouched(paths: map<Key, Path>, slugOf: Path -> Key, ps: seq<Path>, k: Key)
    requires k in paths && forall j :: 0 <= j < |ps| ==> slugOf(ps[j]) != k
    ensures Registered(paths, slugOf, ps)[k] == paths[k]
  {
    if ps != [] {
      var init := ps[..|ps| - 1];
      assert forall j :: 0 <= j < |init| ==> init[j] == ps[j];
      RegisteredUntouched(paths, slugOf, init, k);
    }
  }
}

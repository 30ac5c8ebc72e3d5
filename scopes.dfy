/**
 * The query scopes of the resource service, written as data instead of
 * query-builder closures: filters on the resources table, the version
 * preload, the result-size limit, and the three orderings (resources by
 * rating then name, tags by name, versions by their integer-array key).
 */
module Scopes {
  import opened Wrappers
  import opened Text
  import opened VersionOrder
  import opened Sorting
  import Model

  /** A Where clause on the resources table; `Noop` adds none. Arguments are stored lower-cased. */
  datatype Filter = Noop | TypeIs(lowered: string) | NameIs(lowered: string) | NameLike(lowered: string)

  predicate Accepts(f: Filter, r: Model.ResourceRow)
  {
    match f
    case Noop => true
    case TypeIs(t) => Lower(r.kind) == t
    case NameIs(n) => Lower(r.name) == n
    case NameLike(n) => Contains(Lower(r.name), n)
  }

  /** Filters combine by conjunction. */
  predicate AcceptsAll(fs: seq<Filter>, r: Model.ResourceRow)
  {
    forall i :: 0 <= i < |fs| ==> Accepts(fs[i], r)
  }

  /** Case-insensitive equality on the type; the empty type filters nothing. */
  function FilterByType(t: string): (f: Filter)
    ensures t == "" ==> f == Noop
    ensures forall r :: Accepts(f, r) <==> t == "" || Lower(r.kind) == Lower(t)
  {
    if t == "" then Noop else TypeIs(Lower(t))
  }

  /** Case-insensitive equality on the name; the empty name filters nothing. */
  function FilterByName(name: string): (f: Filter)
    ensures name == "" ==> f == Noop
    ensures forall r :: Accepts(f, r) <==> name == "" || Lower(r.name) == Lower(name)
  {
    if name == "" then Noop else NameIs(Lower(name))
  }

  /** Case-insensitive substring match on the name; the empty name filters nothing. */
  function MatchesName(name: string): (f: Filter)
    ensures name == "" ==> f == Noop
    ensures forall r :: Accepts(f, r) <==> name == "" || Contains(Lower(r.name), Lower(name))
  {
    if name == "" then Noop else NameLike(Lower(name))
  }

  /** A Where clause on the resource_versions table. */
  datatype VersionFilter = ResourceIdIs(id: nat) | VersionIs(version: string)

  predicate AcceptsVersion(f: VersionFilter, v: Model.ResourceVersion)
  {
    match f
    case ResourceIdIs(id) => v.resourceId == id
    case VersionIs(s) => v.version == s
  }

  predicate AcceptsAllVersions(fs: seq<VersionFilter>, v: Model.ResourceVersion)
  {
    forall i :: 0 <= i < |fs| ==> AcceptsVersion(fs[i], v)
  }

  /** Exact match on the owning resource. */
  function FilterByResourceID(id: nat): (f: VersionFilter)
    ensures forall v :: AcceptsVersion(f, v) <==> v.resourceId == id
  {
    ResourceIdIs(id)
  }

  /** How a resource query loads versions: not at all, all of them ordered by version, or only those with one version string. */
  datatype VersionPreload = NoVersions | AllVersions | VersionEquals(version: string)

  /**
   * A query on the resources table. Every such query in the service lists
   * resources by rating, then name, and loads catalog and tags (tags ordered by name).
   */
  datatype ResourceQuery = ResourceQuery(filters: seq<Filter>, versions: VersionPreload, limit: Option<nat>)

  const Unscoped := ResourceQuery([], NoVersions, None)

  function Where(q: ResourceQuery, f: Filter): (r: ResourceQuery)
    ensures r.filters == q.filters + [f] && r.versions == q.versions && r.limit == q.limit
  {
    q.(filters := q.filters + [f])
  }

  function Limit(q: ResourceQuery, n: nat): (r: ResourceQuery)
    ensures r.limit == Some(n) && r.filters == q.filters && r.versions == q.versions
  {
    q.(limit := Some(n))
  }

  /** Resource details: every version, ordered by version. */
  function WithResourceDetails(q: ResourceQuery): (r: ResourceQuery)
    ensures r.versions == AllVersions && r.filters == q.filters && r.limit == q.limit
  {
    q.(versions := AllVersions)
  }

  /**
   * Resource details with only the versions whose string equals `version`.
   * The second preload of the same association replaces the first, so these
   * versions are not ordered by version.
   */
  function WithVersionInfo(version: string, q: ResourceQuery): (r: ResourceQuery)
    ensures r.versions == VersionEquals(version) && r.filters == q.filters && r.limit == q.limit
  {
    WithResourceDetails(q).(versions := VersionEquals(version))
  }

  // The orderings.

  /** Rating descending, then name ascending. */
  predicate ByRatingThenName(a: Model.ResourceRow, b: Model.ResourceRow)
  {
    a.rating > b.rating || (a.rating == b.rating && LeqString(a.name, b.name))
  }

  /** Tag name ascending. */
  predicate ByTagName(a: Model.Tag, b: Model.Tag)
  {
    LeqString(a.name, b.name)
  }

  /** The integer-array key of a version row; only consulted once every row's key parses. */
  function VersionKey(v: Model.ResourceVersion): seq<nat>
  {
    match ParseVersion(v.version)
    case Some(k) => k
    case None => []
  }

  /** Version ascending by integer-array key. */
  predicate ByVersion(a: Model.ResourceVersion, b: Model.ResourceVersion)
  {
    LeqVersion(VersionKey(a), VersionKey(b))
  }

  lemma ByRatingThenNameIsPreorder()
    ensures Total(ByRatingThenName) && Transitive(ByRatingThenName)
  {
    forall a, b ensures ByRatingThenName(a, b) || ByRatingThenName(b, a) {
      LeqStringTotal(a.name, b.name);
    }
    forall a, b, c | ByRatingThenName(a, b) && ByRatingThenName(b, c)
      ensures ByRatingThenName(a, c)
    {
      if a.rating == b.rating && b.rating == c.rating {
        LeqStringTransitive(a.name, b.name, c.name);
      }
    }
  }

  lemma ByTagNameIsPreorder()
    ensures Total(ByTagName) && Transitive(ByTagName)
  {
    forall a, b ensures ByTagName(a, b) || ByTagName(b, a) {
      LeqStringTotal(a.name, b.name);
    }
    forall a, b, c | ByTagName(a, b) && ByTagName(b, c) ensures ByTagName(a, c) {
      LeqStringTransitive(a.name, b.name, c.name);
    }
  }

  lemma ByVersionIsPreorder()
    ensures Total(ByVersion) && Transitive(ByVersion)
  {
    forall a, b ensures ByVersion(a, b) || ByVersion(b, a) {
      LeqVersionTotal(VersionKey(a), VersionKey(b));
    }
    forall a, b, c | ByVersion(a, b) && ByVersion(b, c) ensures ByVersion(a, c) {
      LeqVersionTransitive(VersionKey(a), VersionKey(b), VersionKey(c));
    }
  }

  lemma LowerExamples()
    ensures Lower("Foo") == "foo" && Lower("foobar") == "foobar" && Lower("barbaz") == "barbaz"
  {
  }

  lemma NoFooInBarbaz()
    ensures !Contains("barbaz", "foo")
  {
    var l := "barbaz";
    forall i: nat | i <= |l| ensures !OccursAt(l, "foo", i) {
      if i + 3 <= |l| {
        assert l[i..i + 3][0] == l[i];
      }
    }
  }

  /** `Foo` finds `foobar` but not `barbaz`: the match ignores case and may start anywhere. */
  lemma MatchesNameExample(r: Model.ResourceRow)
    requires r.name == "foobar" || r.name == "barbaz"
    ensures Accepts(MatchesName("Foo"), r) <==> r.name == "foobar"
  {
    LowerExamples();
    if r.name == "foobar" {
      assert OccursAt("foobar", "foo", 0);
    } else {
      NoFooInBarbaz();
    }
  }
}

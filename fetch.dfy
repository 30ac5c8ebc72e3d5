/**
 * What the store returns for a query: the model's stand-in for PostgreSQL
 * behind the ORM. A resource query selects the rows that pass every
 * filter, orders them by rating then name, applies the limit, and then
 * preloads each row's tags (ordered by name) and versions. A version query
 * selects rows of resource_versions and orders them by version. Ordering by
 * version casts every selected version string to an integer array, so one
 * malformed version fails the whole query, as does an unreachable store.
 */
module Fetch {
  import opened Wrappers
  import opened VersionOrder
  import opened Sorting
  import opened Scopes
  import Model

  /** RecordNotFound: a query into a single record found no row; QueryFailed: anything else. */
  datatype StoreError = RecordNotFound | QueryFailed

  datatype Fetched<T> = Found(value: T) | Failed(error: StoreError)

  /** The rows that pass every filter, in table order. */
  function Select(rows: seq<Model.ResourceRow>, fs: seq<Filter>): (r: seq<Model.ResourceRow>)
    ensures forall x :: multiset(r)[x] == if AcceptsAll(fs, x) then multiset(rows)[x] else 0
  {
    if rows == [] then []
    else
      assert rows == [rows[0]] + rows[1..];
      (if AcceptsAll(fs, rows[0]) then [rows[0]] else []) + Select(rows[1..], fs)
  }

  /** The version rows that pass every filter, in table order. */
  function SelectVersions(vs: seq<Model.ResourceVersion>, fs: seq<VersionFilter>): (r: seq<Model.ResourceVersion>)
    ensures forall x :: multiset(r)[x] == if AcceptsAllVersions(fs, x) then multiset(vs)[x] else 0
  {
    if vs == [] then []
    else
      assert vs == [vs[0]] + vs[1..];
      (if AcceptsAllVersions(fs, vs[0]) then [vs[0]] else []) + SelectVersions(vs[1..], fs)
  }

  /** Every version string casts to an integer array. */
  predicate WellFormed(vs: seq<Model.ResourceVersion>)
  {
    forall i :: 0 <= i < |vs| ==> ParseVersion(vs[i].version).Some?
  }

  /** A query on resource_versions, ordered by version. */
  function FindVersions(db: Model.Database, fs: seq<VersionFilter>): Fetched<seq<Model.ResourceVersion>>
  {
    if !db.reachable then Failed(QueryFailed)
    else
      var matched := SelectVersions(db.versions, fs);
      if WellFormed(matched) then Found(SortBy(matched, ByVersion)) else Failed(QueryFailed)
  }

  /** The resource rows a query returns before preloading: filtered, ordered, limited. */
  function Page(db: Model.Database, q: ResourceQuery): seq<Model.ResourceRow>
  {
    var ordered := SortBy(Select(db.resources, q.filters), ByRatingThenName);
    match q.limit
    case None => ordered
    case Some(n) => Take(ordered, n)
  }

  /** Preloads the tags and the versions of one resource row. */
  function Load(db: Model.Database, row: Model.ResourceRow, p: VersionPreload): Fetched<Model.Resource>
  {
    var tags := SortBy(row.tags, ByTagName);
    match p
    case NoVersions => Found(Model.Resource(row, tags, []))
    case AllVersions =>
      (match FindVersions(db, [ResourceIdIs(row.id)])
       case Found(vs) => Found(Model.Resource(row, tags, vs))
       case Failed(e) => Failed(e))
    case VersionEquals(s) =>
      Found(Model.Resource(row, tags, SelectVersions(db.versions, [ResourceIdIs(row.id), VersionIs(s)])))
  }

  /** Preloads every row; one failing preload fails the whole result. */
  function LoadAll(db: Model.Database, rows: seq<Model.ResourceRow>, p: VersionPreload): (f: Fetched<seq<Model.Resource>>)
    ensures f.Found? <==> forall i :: 0 <= i < |rows| ==> Load(db, rows[i], p).Found?
    ensures f.Found? ==> |f.value| == |rows| && forall i :: 0 <= i < |rows| ==> Load(db, rows[i], p) == Found(f.value[i])
    ensures f.Failed? ==> exists i :: 0 <= i < |rows| && Load(db, rows[i], p) == Failed(f.error)
  {
    if rows == [] then Found([])
    else
      match (Load(db, rows[0], p), LoadAll(db, rows[1..], p))
      case (Failed(e), _) => Failed(e)
      case (Found(_), Failed(e)) =>
        assert exists i :: 0 <= i < |rows[1..]| && Load(db, rows[1..][i], p) == Failed(e);
        var i :| 0 <= i < |rows[1..]| && Load(db, rows[1..][i], p) == Failed(e);
        assert Load(db, rows[i + 1], p) == Failed(e);
        Failed(e)
      case (Found(r), Found(rs)) =>
        assert forall i :: 1 <= i < |rows| ==> rows[i] == rows[1..][i - 1];
        Found([r] + rs)
  }

  /** A query into a list of resources. An empty result is not an error here. */
  function FindAll(db: Model.Database, q: ResourceQuery): Fetched<seq<Model.Resource>>
  {
    if !db.reachable then Failed(QueryFailed) else LoadAll(db, Page(db, q), q.versions)
  }

  /**
   * A query into a single resource: no row is RecordNotFound. Otherwise
   * every row is scanned over the same record, so the LAST row of the page
   * is the one kept and loaded.
   */
  function FindOne(db: Model.Database, q: ResourceQuery): Fetched<Model.Resource>
  {
    if !db.reachable then Failed(QueryFailed)
    else
      var page := Page(db, q);
      if page == [] then Failed(RecordNotFound) else Load(db, page[|page| - 1], q.versions)
  }

  // The store round trips the service makes: each runs one query and hands
  // back what the store answered.

  /** Runs a version query (`Find` into a slice of versions). */
  method RunFindVersions(db: Model.Database, fs: seq<VersionFilter>) returns (f: Fetched<seq<Model.ResourceVersion>>)
    ensures f == FindVersions(db, fs)
  {
    f := FindVersions(db, fs);
  }

  /** Runs a resource query (`Find` into a slice of resources). */
  method RunFindAll(db: Model.Database, q: ResourceQuery) returns (f: Fetched<seq<Model.Resource>>)
    ensures f == FindAll(db, q)
  {
    f := FindAll(db, q);
  }

  /** Runs a resource query (`Find` into a single resource). */
  method RunFindOne(db: Model.Database, q: ResourceQuery) returns (f: Fetched<Model.Resource>)
    ensures f == FindOne(db, q)
  {
    f := FindOne(db, q);
  }

  // What the store guarantees about the rows it returns.

  /** Filters that are all `Noop` select every row, in table order. */
  lemma {:induction false} SelectNoops(rows: seq<Model.ResourceRow>, fs: seq<Filter>)
    requires forall i :: 0 <= i < |fs| ==> fs[i] == Noop
    ensures Select(rows, fs) == rows
  {
    if rows != [] {
      SelectNoops(rows[1..], fs);
      assert AcceptsAll(fs, rows[0]);
      assert rows == [rows[0]] + rows[1..];
    }
  }

  /**
   * A version query fails exactly when the store is unreachable or a
   * selected version is malformed; otherwise it returns exactly the selected
   * rows, each as often as it is stored, ordered by version.
   */
  lemma FindVersionsSpec(db: Model.Database, fs: seq<VersionFilter>)
    ensures FindVersions(db, fs).Failed? <==> !db.reachable || !WellFormed(SelectVersions(db.versions, fs))
    ensures FindVersions(db, fs).Failed? ==> FindVersions(db, fs).error == QueryFailed
    ensures FindVersions(db, fs).Found? ==>
      var vs := FindVersions(db, fs).value;
      && SortedBy(vs, ByVersion)
      && WellFormed(vs)
      && forall x :: multiset(vs)[x] == if AcceptsAllVersions(fs, x) then multiset(db.versions)[x] else 0
  {
    var matched := SelectVersions(db.versions, fs);
    if db.reachable && WellFormed(matched) {
      var vs := SortBy(matched, ByVersion);
      ByVersionIsPreorder();
      SortBySorted(matched, ByVersion);
      forall i | 0 <= i < |vs| ensures ParseVersion(vs[i].version).Some? {
        assert vs[i] in multiset(matched);
        var j :| 0 <= j < |matched| && matched[j] == vs[i];
      }
    }
  }

  /**
   * The last row of a version query holds the greatest version: every stored
   * row the query selects has a version key at most the last row's.
   */
  lemma LastVersionIsMaximum(db: Model.Database, fs: seq<VersionFilter>)
    requires FindVersions(db, fs).Found? && FindVersions(db, fs).value != []
    ensures
      var vs := FindVersions(db, fs).value;
      var last := vs[|vs| - 1];
      && ParseVersion(last.version).Some?
      && forall v :: v in db.versions && AcceptsAllVersions(fs, v) ==>
           ParseVersion(v.version).Some? && LeqVersion(ParseVersion(v.version).value, ParseVersion(last.version).value)
  {
    var vs := FindVersions(db, fs).value;
    var last := vs[|vs| - 1];
    FindVersionsSpec(db, fs);
    ByVersionIsPreorder();
    LastIsMaximum(vs, ByVersion);
    forall v | v in db.versions && AcceptsAllVersions(fs, v)
      ensures ParseVersion(v.version).Some? && LeqVersion(ParseVersion(v.version).value, ParseVersion(last.version).value)
    {
      assert multiset(vs)[v] > 0;
      var i :| 0 <= i < |vs| && vs[i] == v;
      assert ByVersion(vs[i], last);
    }
  }

  /** A resource's version query returns exactly its stored version rows, as many as are stored. */
  lemma ResourceVersionRows(db: Model.Database, id: nat, vs: seq<Model.ResourceVersion>)
    requires FindVersions(db, [ResourceIdIs(id)]) == Found(vs)
    ensures |vs| == |SelectVersions(db.versions, [ResourceIdIs(id)])|
    ensures forall v :: v in vs <==> v in db.versions && v.resourceId == id
  {
    var fs := [ResourceIdIs(id)];
    FindVersionsSpec(db, fs);
    forall v ensures v in vs <==> v in db.versions && v.resourceId == id {
      assert AcceptsAllVersions(fs, v) <==> AcceptsVersion(fs[0], v);
      assert v in vs <==> multiset(vs)[v] > 0;
      assert v in db.versions <==> multiset(db.versions)[v] > 0;
    }
  }

  /**
   * The version string of the last row of a resource's version query is
   * the greatest stored for the resource: it parses, and so does every
   * version row of the resource, none above it.
   */
  lemma LatestKeyIsMaximum(db: Model.Database, id: nat, key: string)
    requires FindVersions(db, [ResourceIdIs(id)]).Found? && FindVersions(db, [ResourceIdIs(id)]).value != []
    requires key == FindVersions(db, [ResourceIdIs(id)]).value[|FindVersions(db, [ResourceIdIs(id)]).value| - 1].version
    ensures ParseVersion(key).Some?
    ensures forall v :: v in db.versions && v.resourceId == id ==>
      ParseVersion(v.version).Some? && LeqVersion(ParseVersion(v.version).value, ParseVersion(key).value)
  {
    var fs := [ResourceIdIs(id)];
    LastVersionIsMaximum(db, fs);
    forall v | v in db.versions && v.resourceId == id
      ensures AcceptsAllVersions(fs, v)
    {
      assert AcceptsVersion(fs[0], v);
    }
  }

  /**
   * The rows of a resource query: each one stored and passing every filter,
   * ordered by rating then name, no more than the limit, and every matching
   * row when there is no limit or the limit is not reached.
   */
  lemma PageSpec(db: Model.Database, q: ResourceQuery)
    ensures SortedBy(Page(db, q), ByRatingThenName)
    ensures forall x :: x in Page(db, q) ==> x in db.resources && AcceptsAll(q.filters, x)
    ensures q.limit.Some? ==> |Page(db, q)| <= q.limit.value
    ensures q.limit.None? || |Select(db.resources, q.filters)| <= q.limit.value ==>
      multiset(Page(db, q)) == multiset(Select(db.resources, q.filters))
    ensures Page(db, q) == [] <==> Select(db.resources, q.filters) == [] || q.limit == Some(0)
    ensures q.limit.Some? && q.limit.value <= |Select(db.resources, q.filters)| ==> |Page(db, q)| == q.limit.value
  {
    var selected := Select(db.resources, q.filters);
    var ordered := SortBy(selected, ByRatingThenName);
    ByRatingThenNameIsPreorder();
    SortBySorted(selected, ByRatingThenName);
    if q.limit.Some? {
      PrefixSorted(ordered, |Page(db, q)|, ByRatingThenName);
    }
    forall x | x in Page(db, q) ensures x in db.resources && AcceptsAll(q.filters, x) {
      assert x in ordered;
      assert multiset(selected)[x] > 0;
    }
  }

  /** When the limit does not cut it, the page holds every stored row that passes the filters. */
  lemma PageComplete(db: Model.Database, q: ResourceQuery)
    requires q.limit.None? || |Select(db.resources, q.filters)| <= q.limit.value
    ensures forall x :: x in db.resources && AcceptsAll(q.filters, x) ==> x in Page(db, q)
  {
    PageSpec(db, q);
    forall x | x in db.resources && AcceptsAll(q.filters, x) ensures x in Page(db, q) {
      assert multiset(db.resources)[x] > 0;
      assert multiset(Select(db.resources, q.filters))[x] > 0;
    }
  }

  /**
   * The page holds the top rows: a stored row that passes the filters but
   * is left off the page ranks, by rating then name, at or below every row
   * on it.
   */
  lemma PageTop(db: Model.Database, q: ResourceQuery)
    ensures forall x, i :: x in db.resources && AcceptsAll(q.filters, x) && x !in Page(db, q) && 0 <= i < |Page(db, q)| ==>
      ByRatingThenName(Page(db, q)[i], x)
  {
    var selected := Select(db.resources, q.filters);
    var ordered := SortBy(selected, ByRatingThenName);
    var page := Page(db, q);
    ByRatingThenNameIsPreorder();
    SortBySorted(selected, ByRatingThenName);
    SortedPairs(ordered, ByRatingThenName);
    assert page == ordered[..|page|];
    forall x, i | x in db.resources && AcceptsAll(q.filters, x) && x !in page && 0 <= i < |page|
      ensures ByRatingThenName(page[i], x)
    {
      assert multiset(db.resources)[x] > 0;
      assert multiset(ordered)[x] > 0;
      var j :| 0 <= j < |ordered| && ordered[j] == x;
      assert page[i] == ordered[i];
    }
  }

  /**
   * With no limit, the last row of a non-empty page is a stored row that
   * passes the filters, and every such row ranks at or above it.
   */
  lemma PageLast(db: Model.Database, q: ResourceQuery)
    requires q.limit.None? && Page(db, q) != []
    ensures Page(db, q)[|Page(db, q)| - 1] in db.resources && AcceptsAll(q.filters, Page(db, q)[|Page(db, q)| - 1])
    ensures forall x :: x in db.resources && AcceptsAll(q.filters, x) ==> ByRatingThenName(x, Page(db, q)[|Page(db, q)| - 1])
  {
    var page := Page(db, q);
    PageSpec(db, q);
    PageComplete(db, q);
    assert page[|page| - 1] in page;
    ByRatingThenNameIsPreorder();
    LastIsMaximum(page, ByRatingThenName);
  }

  /** The page is empty exactly when the limit is zero or no stored row passes the filters. */
  lemma PageEmpty(db: Model.Database, q: ResourceQuery)
    ensures Page(db, q) == [] <==>
      q.limit == Some(0) || forall x :: x in db.resources ==> !AcceptsAll(q.filters, x)
  {
    var selected := Select(db.resources, q.filters);
    PageSpec(db, q);
    if selected != [] {
      assert multiset(selected)[selected[0]] > 0;
    } else {
      forall x | x in db.resources ensures !AcceptsAll(q.filters, x) {
        assert multiset(selected)[x] == 0;
      }
    }
  }

  /** A query into a list of resources can only fail with QueryFailed. */
  lemma FindAllFailure(db: Model.Database, q: ResourceQuery)
    requires FindAll(db, q).Failed?
    ensures FindAll(db, q).error == QueryFailed
  {
    if db.reachable {
      var page := Page(db, q);
      var i :| 0 <= i < |page| && Load(db, page[i], q.versions) == Failed(FindAll(db, q).error);
      if q.versions == AllVersions {
        FindVersionsSpec(db, [ResourceIdIs(page[i].id)]);
      }
    }
  }

  /**
   * What a loaded resource holds: its row; the row's tags, each as often as
   * linked, ordered by name; with all versions, exactly the resource's
   * stored version rows, as many as are stored and ordered by version; with
   * one version string, the resource's stored rows with that string.
   */
  lemma LoadedContents(db: Model.Database, row: Model.ResourceRow, p: VersionPreload, r: Model.Resource)
    requires Load(db, row, p) == Found(r)
    ensures r.row == row
    ensures multiset(r.tags) == multiset(row.tags) && SortedBy(r.tags, ByTagName)
    ensures p == AllVersions ==>
      && SortedBy(r.versions, ByVersion)
      && |r.versions| == |SelectVersions(db.versions, [ResourceIdIs(row.id)])|
      && forall v :: v in r.versions <==> v in db.versions && v.resourceId == row.id
    ensures p.VersionEquals? ==>
      forall v :: v in r.versions <==> v in db.versions && v.resourceId == row.id && v.version == p.version
  {
    LoadedTagsSorted(db, row, p);
    if p == AllVersions {
      FindVersionsSpec(db, [ResourceIdIs(row.id)]);
      ResourceVersionRows(db, row.id, r.versions);
    }
    if p.VersionEquals? {
      VersionSelection(db.versions, row.id, p.version);
    }
  }

  /** Selecting a resource's rows with a version string keeps exactly the stored rows of the resource with that string. */
  lemma VersionSelection(vs: seq<Model.ResourceVersion>, id: nat, version: string)
    ensures forall v :: v in SelectVersions(vs, [ResourceIdIs(id), VersionIs(version)]) <==>
      v in vs && v.resourceId == id && v.version == version
  {
    var fs := [ResourceIdIs(id), VersionIs(version)];
    SelectedVersionsStored(vs, fs);
    forall v ensures AcceptsAllVersions(fs, v) <==> v.resourceId == id && v.version == version {
      assert AcceptsAllVersions(fs, v) <==> AcceptsVersion(fs[0], v) && AcceptsVersion(fs[1], v);
    }
  }

  /**
   * A query into a single resource returns the last row of its page,
   * loaded; it fails with RecordNotFound exactly when the store is
   * reachable and the page is empty.
   */
  lemma FindOneSpec(db: Model.Database, q: ResourceQuery)
    ensures FindOne(db, q).Found? ==>
      && db.reachable && Page(db, q) != []
      && Load(db, Page(db, q)[|Page(db, q)| - 1], q.versions) == Found(FindOne(db, q).value)
    ensures FindOne(db, q) == Failed(RecordNotFound) <==> db.reachable && Page(db, q) == []
  {
    var page := Page(db, q);
    if db.reachable && page != [] && q.versions == AllVersions {
      FindVersionsSpec(db, [ResourceIdIs(page[|page| - 1].id)]);
    }
  }

  /** Every version row a version selection keeps is stored and passes every filter. */
  lemma SelectedVersionsStored(vs: seq<Model.ResourceVersion>, fs: seq<VersionFilter>)
    ensures forall x :: x in SelectVersions(vs, fs) <==> x in vs && AcceptsAllVersions(fs, x)
  {
    forall x ensures x in SelectVersions(vs, fs) <==> x in vs && AcceptsAllVersions(fs, x) {
      assert x in SelectVersions(vs, fs) <==> multiset(SelectVersions(vs, fs))[x] > 0;
      assert x in vs <==> multiset(vs)[x] > 0;
    }
  }

  /**
   * A resource query returns one loaded resource per row of its page, in
   * page order, with the tags ordered by name and the versions loaded as
   * the preload asks.
   */
  lemma FindAllSpec(db: Model.Database, q: ResourceQuery)
    requires FindAll(db, q).Found?
    ensures |FindAll(db, q).value| == |Page(db, q)|
    ensures forall i :: 0 <= i < |Page(db, q)| ==> Load(db, Page(db, q)[i], q.versions) == Found(FindAll(db, q).value[i])
  {
  }

  /** The resource has a stored version row whose version string does not cast. */
  predicate HasUncastableVersion(db: Model.Database, id: nat)
  {
    exists v :: v in db.versions && v.resourceId == id && ParseVersion(v.version).None?
  }

  /** Some row of the page belongs to a resource with an uncastable version row. */
  predicate PageHasUncastable(db: Model.Database, q: ResourceQuery)
  {
    exists row :: row in Page(db, q) && HasUncastableVersion(db, row.id)
  }

  /** The version rows selected for a resource all cast exactly when every stored version row of it casts. */
  lemma SelectedWellFormed(vs: seq<Model.ResourceVersion>, id: nat)
    ensures WellFormed(SelectVersions(vs, [ResourceIdIs(id)])) <==>
      forall v :: v in vs && v.resourceId == id ==> ParseVersion(v.version).Some?
  {
    var fs := [ResourceIdIs(id)];
    var selected := SelectVersions(vs, fs);
    SelectedVersionsStored(vs, fs);
    forall v ensures AcceptsAllVersions(fs, v) <==> v.resourceId == id {
      assert AcceptsAllVersions(fs, v) <==> AcceptsVersion(fs[0], v);
    }
    if !WellFormed(selected) {
      var i :| 0 <= i < |selected| && ParseVersion(selected[i].version).None?;
      assert selected[i] in selected;
    }
  }

  /**
   * Preloading all the versions of a row fails exactly when the store is
   * unreachable or one of the resource's stored version rows does not cast;
   * the other preloads never fail.
   */
  lemma LoadFailure(db: Model.Database, row: Model.ResourceRow, p: VersionPreload)
    ensures p == AllVersions ==> (Load(db, row, p).Failed? <==> !db.reachable || HasUncastableVersion(db, row.id))
    ensures p != AllVersions ==> Load(db, row, p).Found?
  {
    SelectedWellFormed(db.versions, row.id);
  }

  /** On a reachable store, one of the rows fails its preload of all versions exactly when one belongs to a resource with an uncastable version row. */
  lemma RowsLoadFailure(db: Model.Database, rows: seq<Model.ResourceRow>)
    requires db.reachable
    ensures (exists i :: 0 <= i < |rows| && Load(db, rows[i], AllVersions).Failed?) <==>
      exists row :: row in rows && HasUncastableVersion(db, row.id)
  {
    if exists i :: 0 <= i < |rows| && Load(db, rows[i], AllVersions).Failed? {
      var i :| 0 <= i < |rows| && Load(db, rows[i], AllVersions).Failed?;
      LoadFailure(db, rows[i], AllVersions);
      assert rows[i] in rows;
    }
    if exists row :: row in rows && HasUncastableVersion(db, row.id) {
      var row :| row in rows && HasUncastableVersion(db, row.id);
      var i :| 0 <= i < |rows| && rows[i] == row;
      LoadFailure(db, row, AllVersions);
    }
  }

  /**
   * A resource query fails exactly when the store is unreachable or, with
   * all versions preloaded, a resource on its page has a version row that
   * does not cast; it is empty exactly when the store is reachable and the
   * page is empty.
   */
  lemma FindAllOutcome(db: Model.Database, q: ResourceQuery)
    ensures !db.reachable ==> FindAll(db, q) == Failed(QueryFailed)
    ensures q.versions == AllVersions ==> (FindAll(db, q).Failed? <==> !db.reachable || PageHasUncastable(db, q))
    ensures q.versions != AllVersions ==> (FindAll(db, q).Failed? <==> !db.reachable)
    ensures FindAll(db, q) == Found([]) <==> db.reachable && Page(db, q) == []
  {
    var page := Page(db, q);
    if db.reachable && page != [] && FindAll(db, q).Found? {
      FindAllSpec(db, q);
    }
    if db.reachable && q.versions == AllVersions {
      RowsLoadFailure(db, page);
    }
    if db.reachable && q.versions != AllVersions {
      forall i | 0 <= i < |page| ensures Load(db, page[i], q.versions).Found? {
        LoadFailure(db, page[i], q.versions);
      }
    }
  }

  /** Loaded tags are the row's tags, each as often, ordered by name. */
  lemma LoadedTagsSorted(db: Model.Database, row: Model.ResourceRow, p: VersionPreload)
    requires Load(db, row, p).Found?
    ensures SortedBy(Load(db, row, p).value.tags, ByTagName)
    ensures multiset(Load(db, row, p).value.tags) == multiset(row.tags)
  {
    ByTagNameIsPreorder();
    SortBySorted(row.tags, ByTagName);
  }

  /** In a valid store, the versions found for a stored resource are never empty. */
  lemma StoredRowHasVersions(db: Model.Database, row: Model.ResourceRow)
    requires Model.Valid(db) && row in db.resources
    requires FindVersions(db, [ResourceIdIs(row.id)]).Found?
    ensures FindVersions(db, [ResourceIdIs(row.id)]).value != []
  {
    var k :| 0 <= k < |db.resources| && db.resources[k] == row;
    assert Model.HasVersion(db.versions, row.id);
    var j :| 0 <= j < |db.versions| && db.versions[j].resourceId == row.id;
    var v := db.versions[j];
    assert AcceptsAllVersions([ResourceIdIs(row.id)], v);
    FindVersionsSpec(db, [ResourceIdIs(row.id)]);
    assert multiset(FindVersions(db, [ResourceIdIs(row.id)]).value)[v] > 0;
  }

  /** In a valid store, every resource a query loads with all its versions has at least one. */
  lemma LoadedVersionsNonEmpty(db: Model.Database, q: ResourceQuery)
    requires Model.Valid(db) && q.versions == AllVersions && FindAll(db, q).Found?
    ensures forall i :: 0 <= i < |FindAll(db, q).value| ==> FindAll(db, q).value[i].versions != []
  {
    var page, rs := Page(db, q), FindAll(db, q).value;
    FindAllSpec(db, q);
    PageSpec(db, q);
    forall i | 0 <= i < |rs| ensures rs[i].versions != [] {
      assert Load(db, page[i], q.versions) == Found(rs[i]);
      StoredRowHasVersions(db, page[i]);
    }
  }
}

/**
 * What the four operations promise their callers, stated over the store
 * and proved from the outcome predicates the operations satisfy: which
 * resources and versions come back, in which order, what they carry, and
 * exactly when the answer is NotFound or Internal.
 */
module ServiceProperties {
  import opened Wrappers
  import opened Text
  import opened VersionOrder
  import opened Sorting
  import opened RawUrl
  import opened Scopes
  import opened Fetch
  import opened Assemble
  import opened Service
  import Model
  import Api

  /** The fields of a collection item that come from the resource row itself. */
  predicate ItemOfRow(item: Api.Resource, row: Model.ResourceRow)
  {
    && item.id == row.id && item.name == row.name && item.kind == row.kind && item.rating == row.rating
    && item.catalog == Api.Catalog(row.catalog.id, row.catalog.catalogType)
  }

  /**
   * The latest version of an item is the greatest version stored for its
   * resource: it parses, and so does every version row of the resource,
   * none above it.
   */
  predicate LatestIsGreatest(db: Model.Database, item: Api.Resource)
  {
    && item.latestVersion.Some?
    && ParseVersion(item.latestVersion.value.version).Some?
    && forall v :: v in db.versions && v.resourceId == item.id ==>
         ParseVersion(v.version).Some?
         && LeqVersion(ParseVersion(v.version).value, ParseVersion(item.latestVersion.value.version).value)
  }

  /** What an item assembled from a stored row carries: its fields, its tags by name, its greatest version. */
  predicate ItemFromRow(db: Model.Database, row: Model.ResourceRow, item: Api.Resource)
  {
    && ItemOfRow(item, row)
    && item.tags == TagViews(SortBy(row.tags, ByTagName))
    && LatestIsGreatest(db, item)
  }

  /** Items assembled from the rows of a page: one per row, in page order. */
  predicate AssembledFrom(db: Model.Database, q: ResourceQuery, items: seq<Api.Resource>)
  {
    && |items| == |Page(db, q)|
    && forall i :: 0 <= i < |items| ==> ItemFromRow(db, Page(db, q)[i], items[i])
  }

  // Collections (Query and List, through resourcesForQuery).

  /** The collection item of a resource loaded with all its versions. */
  lemma ItemFromLoaded(db: Model.Database, row: Model.ResourceRow, r: Model.Resource)
    requires Load(db, row, AllVersions) == Found(r) && r.versions != []
    ensures ItemFromRow(db, row, ResourceItem(r))
  {
    var item := ResourceItem(r);
    ItemFieldsOfLoaded(row, r);
    LatestOfVersions(db, row.id, r.versions, item);
  }

  /** The collection item of a resource carries its row's fields and its tags, in the order loaded. */
  lemma ItemFieldsOfLoaded(row: Model.ResourceRow, r: Model.Resource)
    requires r.row == row && r.tags == SortBy(row.tags, ByTagName) && r.versions != []
    ensures ItemOfRow(ResourceItem(r), row)
    ensures ResourceItem(r).tags == TagViews(SortBy(row.tags, ByTagName))
    ensures ResourceItem(r).id == row.id && ResourceItem(r).latestVersion.Some?
    ensures ResourceItem(r).latestVersion.value.version == r.versions[|r.versions| - 1].version
  {
  }

  /** An item whose latest version is the last of its resource's version query has the greatest version. */
  lemma LatestOfVersions(db: Model.Database, id: nat, vs: seq<Model.ResourceVersion>, item: Api.Resource)
    requires FindVersions(db, [ResourceIdIs(id)]) == Found(vs) && vs != []
    requires item.id == id && item.latestVersion.Some? && item.latestVersion.value.version == vs[|vs| - 1].version
    ensures LatestIsGreatest(db, item)
  {
    LatestKeyIsMaximum(db, id, vs[|vs| - 1].version);
  }

  /** A successful collection is assembled from the page of its query. */
  lemma CollectionFromPage(db: Model.Database, q: ResourceQuery, res: Result<seq<Api.Resource>, Api.Err>)
    requires q.versions == AllVersions && IsCollectionFor(FindAll(db, q), res) && res.Success?
    ensures AssembledFrom(db, q, res.value)
  {
    var page, rs := Page(db, q), FindAll(db, q).value;
    FindAllSpec(db, q);
    forall i | 0 <= i < |res.value| ensures ItemFromRow(db, page[i], res.value[i]) {
      assert Load(db, page[i], q.versions) == Found(rs[i]);
      ItemFromLoaded(db, page[i], rs[i]);
    }
  }

  /** Assembled items are ordered by rating, highest first, and then by name. */
  lemma AssembledOrdered(db: Model.Database, q: ResourceQuery, items: seq<Api.Resource>)
    requires AssembledFrom(db, q, items)
    ensures forall i :: 0 <= i < |items| - 1 ==>
      || items[i].rating > items[i + 1].rating
      || (items[i].rating == items[i + 1].rating && LeqString(items[i].name, items[i + 1].name))
  {
    var page := Page(db, q);
    PageSpec(db, q);
    forall i | 0 <= i < |items| - 1
      ensures || items[i].rating > items[i + 1].rating
              || (items[i].rating == items[i + 1].rating && LeqString(items[i].name, items[i + 1].name))
    {
      assert ItemFromRow(db, page[i], items[i]) && ItemFromRow(db, page[i + 1], items[i + 1]);
      assert ByRatingThenName(page[i], page[i + 1]);
    }
  }

  /** The tags of every assembled item are ordered by name. */
  lemma AssembledTagsSorted(db: Model.Database, q: ResourceQuery, items: seq<Api.Resource>)
    requires AssembledFrom(db, q, items)
    ensures forall i, j :: 0 <= i < |items| && 0 <= j < |items[i].tags| - 1 ==>
      LeqString(items[i].tags[j].name, items[i].tags[j + 1].name)
  {
    var page := Page(db, q);
    ByTagNameIsPreorder();
    forall i, j | 0 <= i < |items| && 0 <= j < |items[i].tags| - 1
      ensures LeqString(items[i].tags[j].name, items[i].tags[j + 1].name)
    {
      assert ItemFromRow(db, page[i], items[i]);
      var sorted := SortBy(page[i].tags, ByTagName);
      SortBySorted(page[i].tags, ByTagName);
      assert ByTagName(sorted[j], sorted[j + 1]);
    }
  }

  /** Every assembled item comes from a stored row that passes every filter; there are no more than the limit. */
  lemma AssembledFiltered(db: Model.Database, q: ResourceQuery, items: seq<Api.Resource>)
    requires AssembledFrom(db, q, items)
    ensures q.limit.Some? ==> |items| <= q.limit.value
    ensures q.limit.Some? && q.limit.value <= |Select(db.resources, q.filters)| ==> |items| == q.limit.value
    ensures forall i :: 0 <= i < |items| ==>
      exists row :: row in db.resources && AcceptsAll(q.filters, row) && ItemOfRow(items[i], row)
  {
    var page := Page(db, q);
    PageSpec(db, q);
    forall i | 0 <= i < |items|
      ensures exists row :: row in db.resources && AcceptsAll(q.filters, row) && ItemOfRow(items[i], row)
    {
      assert page[i] in page;
      assert ItemFromRow(db, page[i], items[i]);
    }
  }

  /** Two answers that both fit what the store returned are the same answer. */
  lemma CollectionDeterminate(fetched: Fetched<seq<Model.Resource>>, a: Result<seq<Api.Resource>, Api.Err>, b: Result<seq<Api.Resource>, Api.Err>)
    requires IsCollectionFor(fetched, a) && IsCollectionFor(fetched, b)
    ensures a == b
  {
    if fetched.Found? && fetched.value != [] {
      assert a.value == b.value;
    }
  }

  /**
   * A resource query answers Internal exactly when the store is unreachable
   * or, with all versions preloaded, a resource on the page has a version
   * row that does not cast; NotFound exactly when the store is reachable and
   * the page is empty; and a collection in every other case.
   */
  lemma CollectionOutcome(db: Model.Database, q: ResourceQuery, res: Result<seq<Api.Resource>, Api.Err>)
    requires IsCollectionFor(FindAll(db, q), res)
    ensures !db.reachable ==> res == Failure(Api.Internal)
    ensures q.versions == AllVersions ==> (res == Failure(Api.Internal) <==> !db.reachable || PageHasUncastable(db, q))
    ensures q.versions != AllVersions ==> (res == Failure(Api.Internal) <==> !db.reachable)
    ensures res == Failure(Api.NotFound) <==> db.reachable && Page(db, q) == []
    ensures q.versions == AllVersions ==>
      (res.Success? <==> db.reachable && Page(db, q) != [] && !PageHasUncastable(db, q))
  {
    FindAllOutcome(db, q);
  }

  /** The item is listed, carrying the row's own fields. */
  predicate Listed(items: seq<Api.Resource>, row: Model.ResourceRow)
  {
    exists i :: 0 <= i < |items| && ItemOfRow(items[i], row)
  }

  /** The item ranks at or above the row: a higher rating, or the same rating and a name not after the row's. */
  predicate Outranks(item: Api.Resource, row: Model.ResourceRow)
  {
    item.rating > row.rating || (item.rating == row.rating && LeqString(item.name, row.name))
  }

  /** Every row of the page has its item. */
  lemma PageListed(db: Model.Database, q: ResourceQuery, items: seq<Api.Resource>)
    requires AssembledFrom(db, q, items)
    ensures forall x :: x in Page(db, q) ==> Listed(items, x)
  {
    var page := Page(db, q);
    forall x | x in page ensures Listed(items, x) {
      var k :| 0 <= k < |page| && page[k] == x;
      assert ItemFromRow(db, page[k], items[k]);
    }
  }

  /** When the limit does not cut the page, every stored row that passes the filters has an item. */
  lemma AssembledComplete(db: Model.Database, q: ResourceQuery, items: seq<Api.Resource>)
    requires AssembledFrom(db, q, items)
    requires q.limit.None? || |Select(db.resources, q.filters)| <= q.limit.value
    ensures forall row :: row in db.resources && AcceptsAll(q.filters, row) ==> Listed(items, row)
  {
    PageComplete(db, q);
    PageListed(db, q, items);
  }

  /**
   * When the limit cuts, the items are the top ones: every stored row that
   * passes the filters but has no item is outranked by every item.
   */
  lemma AssembledTop(db: Model.Database, q: ResourceQuery, items: seq<Api.Resource>)
    requires AssembledFrom(db, q, items)
    ensures forall x :: x in db.resources && AcceptsAll(q.filters, x) && !Listed(items, x) ==>
      forall i :: 0 <= i < |items| ==> Outranks(items[i], x)
  {
    var page := Page(db, q);
    PageListed(db, q, items);
    PageTop(db, q);
    forall x, i | x in db.resources && AcceptsAll(q.filters, x) && !Listed(items, x) && 0 <= i < |items|
      ensures Outranks(items[i], x)
    {
      assert x !in page;
      assert ItemFromRow(db, page[i], items[i]);
      assert ByRatingThenName(page[i], x);
    }
  }

  // Query.

  /** A stored resource Query selects: the type equals `kind` and the name contains `name`, ignoring case; empty arguments match everything. */
  predicate QueryMatches(name: string, kind: string, row: Model.ResourceRow)
  {
    && (kind == "" || Lower(row.kind) == Lower(kind))
    && (name == "" || Contains(Lower(row.name), Lower(name)))
  }

  /** The item comes from a stored resource that Query selects. */
  predicate FromQueryRow(db: Model.Database, name: string, kind: string, item: Api.Resource)
  {
    exists row :: row in db.resources && QueryMatches(name, kind, row) && ItemOfRow(item, row)
  }

  /** The filters Query builds accept exactly the rows it is meant to select. */
  lemma QueryFilters(name: string, kind: string, limit: nat, row: Model.ResourceRow)
    ensures QueryScopes(name, kind, limit).versions == AllVersions
    ensures QueryScopes(name, kind, limit).limit == Some(limit)
    ensures AcceptsAll(QueryScopes(name, kind, limit).filters, row) <==> QueryMatches(name, kind, row)
  {
    var fs := QueryScopes(name, kind, limit).filters;
    assert fs == [FilterByType(kind), MatchesName(name)];
    assert AcceptsAll(fs, row) <==> Accepts(fs[0], row) && Accepts(fs[1], row);
  }

  /** The page Query reads is empty exactly when the limit is zero or no stored resource matches. */
  lemma QueryPageEmpty(db: Model.Database, name: string, kind: string, limit: nat)
    ensures Page(db, QueryScopes(name, kind, limit)) == [] <==>
      limit == 0 || forall row :: row in db.resources ==> !QueryMatches(name, kind, row)
  {
    var q := QueryScopes(name, kind, limit);
    assert q.limit == Some(limit);
    PageEmpty(db, q);
    forall row ensures AcceptsAll(q.filters, row) <==> QueryMatches(name, kind, row) {
      QueryFilters(name, kind, limit, row);
    }
  }

  /** Assembled from the page of Query: stored, selected, no more than the limit. */
  lemma AssembledQueryMatch(db: Model.Database, name: string, kind: string, limit: nat, items: seq<Api.Resource>)
    requires AssembledFrom(db, QueryScopes(name, kind, limit), items)
    ensures |items| <= limit
    ensures limit <= |Select(db.resources, QueryScopes(name, kind, limit).filters)| ==> |items| == limit
    ensures forall i :: 0 <= i < |items| ==> FromQueryRow(db, name, kind, items[i])
  {
    var q := QueryScopes(name, kind, limit);
    assert q.limit == Some(limit);
    AssembledFiltered(db, q, items);
    forall i | 0 <= i < |items| ensures FromQueryRow(db, name, kind, items[i]) {
      var row :| row in db.resources && AcceptsAll(q.filters, row) && ItemOfRow(items[i], row);
      QueryFilters(name, kind, limit, row);
    }
  }

  /** Assembled from the page of Query, when the limit does not cut it: every selected resource is listed. */
  lemma AssembledQueryComplete(db: Model.Database, name: string, kind: string, limit: nat, items: seq<Api.Resource>)
    requires AssembledFrom(db, QueryScopes(name, kind, limit), items)
    requires |Select(db.resources, QueryScopes(name, kind, limit).filters)| <= limit
    ensures forall row :: row in db.resources && QueryMatches(name, kind, row) ==> Listed(items, row)
  {
    var q := QueryScopes(name, kind, limit);
    assert q.limit == Some(limit);
    AssembledComplete(db, q, items);
    forall row | row in db.resources && QueryMatches(name, kind, row) ensures Listed(items, row) {
      QueryFilters(name, kind, limit, row);
    }
  }

  /** Assembled from the page of Query: a matching stored resource with no item is outranked by every item. */
  lemma AssembledQueryTop(db: Model.Database, name: string, kind: string, limit: nat, items: seq<Api.Resource>)
    requires AssembledFrom(db, QueryScopes(name, kind, limit), items)
    ensures forall row :: row in db.resources && QueryMatches(name, kind, row) && !Listed(items, row) ==>
      forall i :: 0 <= i < |items| ==> Outranks(items[i], row)
  {
    var q := QueryScopes(name, kind, limit);
    AssembledTop(db, q, items);
    forall row | row in db.resources && QueryMatches(name, kind, row) && !Listed(items, row)
      ensures forall i :: 0 <= i < |items| ==> Outranks(items[i], row)
    {
      QueryFilters(name, kind, limit, row);
    }
  }

  /**
   * Every resource Query returns is stored and selected by its arguments.
   * There are no more than `limit`, exactly `limit` when at least that many
   * match, and they are the top ones: a matching resource left out is
   * outranked by every one returned.
   */
  lemma QueryItemsMatch(db: Model.Database, name: string, kind: string, limit: nat, res: Result<seq<Api.Resource>, Api.Err>)
    requires IsCollectionFor(FindAll(db, QueryScopes(name, kind, limit)), res) && res.Success?
    ensures 0 < |res.value| <= limit
    ensures limit <= |Select(db.resources, QueryScopes(name, kind, limit).filters)| ==> |res.value| == limit
    ensures forall i :: 0 <= i < |res.value| ==> FromQueryRow(db, name, kind, res.value[i])
    ensures forall row :: row in db.resources && QueryMatches(name, kind, row) && !Listed(res.value, row) ==>
      forall i :: 0 <= i < |res.value| ==> Outranks(res.value[i], row)
  {
    var q := QueryScopes(name, kind, limit);
    assert q.versions == AllVersions;
    CollectionFromPage(db, q, res);
    AssembledQueryMatch(db, name, kind, limit, res.value);
    AssembledQueryTop(db, name, kind, limit, res.value);
  }

  /**
   * When no more resources match than the limit allows, Query returns every
   * matching stored resource.
   */
  lemma QueryComplete(db: Model.Database, name: string, kind: string, limit: nat, res: Result<seq<Api.Resource>, Api.Err>)
    requires IsCollectionFor(FindAll(db, QueryScopes(name, kind, limit)), res) && res.Success?
    requires |Select(db.resources, QueryScopes(name, kind, limit).filters)| <= limit
    ensures forall row :: row in db.resources && QueryMatches(name, kind, row) ==> Listed(res.value, row)
  {
    var q := QueryScopes(name, kind, limit);
    assert q.versions == AllVersions;
    CollectionFromPage(db, q, res);
    AssembledQueryComplete(db, name, kind, limit, res.value);
  }

  /** The items of a resource query are ordered by rating, highest first, and then by name. */
  lemma CollectionOrdered(db: Model.Database, q: ResourceQuery, res: Result<seq<Api.Resource>, Api.Err>)
    requires q.versions == AllVersions && IsCollectionFor(FindAll(db, q), res) && res.Success?
    ensures forall i :: 0 <= i < |res.value| - 1 ==>
      || res.value[i].rating > res.value[i + 1].rating
      || (res.value[i].rating == res.value[i + 1].rating && LeqString(res.value[i].name, res.value[i + 1].name))
  {
    CollectionFromPage(db, q, res);
    AssembledOrdered(db, q, res.value);
  }

  /** The tags of every item of a resource query are ordered by name. */
  lemma CollectionTagsSorted(db: Model.Database, q: ResourceQuery, res: Result<seq<Api.Resource>, Api.Err>)
    requires q.versions == AllVersions && IsCollectionFor(FindAll(db, q), res) && res.Success?
    ensures forall i, j :: 0 <= i < |res.value| && 0 <= j < |res.value[i].tags| - 1 ==>
      LeqString(res.value[i].tags[j].name, res.value[i].tags[j + 1].name)
  {
    CollectionFromPage(db, q, res);
    AssembledTagsSorted(db, q, res.value);
  }

  /**
   * The latest version of every item of a resource query is the greatest
   * version stored for the resource.
   */
  lemma CollectionLatestIsGreatest(db: Model.Database, q: ResourceQuery, res: Result<seq<Api.Resource>, Api.Err>)
    requires q.versions == AllVersions && IsCollectionFor(FindAll(db, q), res) && res.Success?
    ensures forall i :: 0 <= i < |res.value| ==> LatestIsGreatest(db, res.value[i])
  {
    var page := Page(db, q);
    CollectionFromPage(db, q, res);
    forall i | 0 <= i < |res.value| ensures LatestIsGreatest(db, res.value[i]) {
      assert ItemFromRow(db, page[i], res.value[i]);
    }
  }

  /**
   * Query answers NotFound exactly when the store is reachable and the
   * limit is zero or no stored resource matches; Internal exactly when the
   * store is unreachable or a resource on the page has a version row that
   * does not cast; and a collection in every other case.
   */
  lemma QueryOutcome(db: Model.Database, name: string, kind: string, limit: nat, res: Result<seq<Api.Resource>, Api.Err>)
    requires IsCollectionFor(FindAll(db, QueryScopes(name, kind, limit)), res)
    ensures !db.reachable ==> res == Failure(Api.Internal)
    ensures res == Failure(Api.Internal) <==> !db.reachable || PageHasUncastable(db, QueryScopes(name, kind, limit))
    ensures res == Failure(Api.NotFound) <==>
      db.reachable && (limit == 0 || forall row :: row in db.resources ==> !QueryMatches(name, kind, row))
    ensures res.Success? <==>
      && db.reachable && limit != 0 && (exists row :: row in db.resources && QueryMatches(name, kind, row))
      && !PageHasUncastable(db, QueryScopes(name, kind, limit))
  {
    assert QueryScopes(name, kind, limit).versions == AllVersions;
    CollectionOutcome(db, QueryScopes(name, kind, limit), res);
    QueryPageEmpty(db, name, kind, limit);
  }

  /** With an empty name and an empty type, Query reads the same page as List. */
  lemma UnfilteredPage(db: Model.Database, limit: nat)
    ensures FindAll(db, QueryScopes("", "", limit)) == FindAll(db, ListScopes(limit))
  {
    var q, l := QueryScopes("", "", limit), ListScopes(limit);
    assert q.filters == [Noop, Noop] && q.versions == l.versions && q.limit == l.limit;
    SelectNoops(db.resources, q.filters);
    SelectNoops(db.resources, l.filters);
    assert Page(db, q) == Page(db, l);
  }

  /** Query with an empty name and an empty type answers as List does. */
  lemma QueryUnfilteredIsList(db: Model.Database, limit: nat, a: Result<seq<Api.Resource>, Api.Err>, b: Result<seq<Api.Resource>, Api.Err>)
    requires IsCollectionFor(FindAll(db, QueryScopes("", "", limit)), a)
    requires IsCollectionFor(FindAll(db, ListScopes(limit)), b)
    ensures a == b
  {
    UnfilteredPage(db, limit);
    CollectionDeterminate(FindAll(db, ListScopes(limit)), a, b);
  }

  // List.

  /** The page List reads holds every stored resource, unless the limit cuts it; it is empty exactly when the limit is zero or nothing is stored. */
  lemma ListPage(db: Model.Database, limit: nat)
    ensures Page(db, ListScopes(limit)) == [] <==> limit == 0 || db.resources == []
    ensures Select(db.resources, ListScopes(limit).filters) == db.resources
  {
    var q := ListScopes(limit);
    SelectNoops(db.resources, q.filters);
    PageEmpty(db, q);
    if db.resources != [] {
      assert AcceptsAll(q.filters, db.resources[0]);
    }
  }

  /**
   * List answers NotFound exactly when the store is reachable and holds no
   * resource or the limit is zero; Internal exactly when the store is
   * unreachable or a resource on the page has a version row that does not
   * cast; and a collection in every other case.
   */
  lemma ListOutcome(db: Model.Database, limit: nat, res: Result<seq<Api.Resource>, Api.Err>)
    requires IsCollectionFor(FindAll(db, ListScopes(limit)), res)
    ensures !db.reachable ==> res == Failure(Api.Internal)
    ensures res == Failure(Api.Internal) <==> !db.reachable || PageHasUncastable(db, ListScopes(limit))
    ensures res == Failure(Api.NotFound) <==> db.reachable && (limit == 0 || db.resources == [])
    ensures res.Success? <==> db.reachable && limit != 0 && db.resources != [] && !PageHasUncastable(db, ListScopes(limit))
  {
    assert ListScopes(limit).versions == AllVersions;
    CollectionOutcome(db, ListScopes(limit), res);
    ListPage(db, limit);
  }

  /**
   * A successful List holds stored resources, at least one and no more than
   * `limit`, exactly `limit` when at least that many are stored, and the top
   * ones: a stored resource left out is outranked by every one returned.
   */
  lemma ListItems(db: Model.Database, limit: nat, res: Result<seq<Api.Resource>, Api.Err>)
    requires IsCollectionFor(FindAll(db, ListScopes(limit)), res) && res.Success?
    ensures 0 < |res.value| <= limit
    ensures limit <= |db.resources| ==> |res.value| == limit
    ensures forall i :: 0 <= i < |res.value| ==> exists row :: row in db.resources && ItemOfRow(res.value[i], row)
    ensures forall row :: row in db.resources && !Listed(res.value, row) ==>
      forall i :: 0 <= i < |res.value| ==> Outranks(res.value[i], row)
  {
    var q, items := ListScopes(limit), res.value;
    assert q.versions == AllVersions;
    CollectionFromPage(db, q, res);
    assert |items| > 0;
    AssembledListStored(db, limit, items);
    AssembledListTop(db, limit, items);
  }

  /** When the stored resources fit the limit, List returns every one of them. */
  lemma ListComplete(db: Model.Database, limit: nat, res: Result<seq<Api.Resource>, Api.Err>)
    requires IsCollectionFor(FindAll(db, ListScopes(limit)), res) && res.Success?
    requires |db.resources| <= limit
    ensures forall row :: row in db.resources ==> Listed(res.value, row)
  {
    var q := ListScopes(limit);
    assert q.versions == AllVersions;
    CollectionFromPage(db, q, res);
    AssembledListAll(db, limit, res.value);
  }

  /** Assembled from the page of List: stored, no more than the limit, and exactly the limit when that many are stored. */
  lemma AssembledListStored(db: Model.Database, limit: nat, items: seq<Api.Resource>)
    requires AssembledFrom(db, ListScopes(limit), items)
    ensures |items| <= limit
    ensures limit <= |db.resources| ==> |items| == limit
    ensures forall i :: 0 <= i < |items| ==> exists row :: row in db.resources && ItemOfRow(items[i], row)
  {
    var q := ListScopes(limit);
    ListPage(db, limit);
    AssembledFiltered(db, q, items);
    forall i | 0 <= i < |items| ensures exists row :: row in db.resources && ItemOfRow(items[i], row) {
      var row :| row in db.resources && AcceptsAll(q.filters, row) && ItemOfRow(items[i], row);
    }
  }

  /** Assembled from the page of List: a stored resource with no item is outranked by every item. */
  lemma AssembledListTop(db: Model.Database, limit: nat, items: seq<Api.Resource>)
    requires AssembledFrom(db, ListScopes(limit), items)
    ensures forall row :: row in db.resources && !Listed(items, row) ==>
      forall i :: 0 <= i < |items| ==> Outranks(items[i], row)
  {
    var q := ListScopes(limit);
    assert q.filters == [];
    AssembledTop(db, q, items);
  }

  /** Assembled from the page of List: when the stored resources fit the limit, all of them. */
  lemma AssembledListAll(db: Model.Database, limit: nat, items: seq<Api.Resource>)
    requires AssembledFrom(db, ListScopes(limit), items)
    requires |db.resources| <= limit
    ensures forall row :: row in db.resources ==> Listed(items, row)
  {
    var q := ListScopes(limit);
    var page := Page(db, q);
    ListPage(db, limit);
    PageComplete(db, q);
    forall row | row in db.resources ensures Listed(items, row) {
      assert AcceptsAll(q.filters, row);
      var i :| 0 <= i < |page| && page[i] == row;
      assert ItemFromRow(db, page[i], items[i]);
    }
  }

  // VersionsByID.

  /** The query VersionsByID builds selects exactly the version rows of the resource. */
  lemma VersionsByIDFilters(id: nat, v: Model.ResourceVersion)
    ensures AcceptsAllVersions(VersionsByIDScopes(id), v) <==> v.resourceId == id
  {
    var fs := VersionsByIDScopes(id);
    assert fs == [FilterByResourceID(id)];
    assert AcceptsAllVersions(fs, v) <==> AcceptsVersion(fs[0], v);
  }

  /** VersionsByID lists the resource's versions in ascending version order, the last one as the latest. */
  lemma VersionsByIDOrdered(db: Model.Database, id: nat, res: Result<Api.Versions, Api.Err>)
    requires IsVersionsFor(FindVersions(db, VersionsByIDScopes(id)), res) && res.Success?
    ensures res.value.versions != [] && res.value.latest == res.value.versions[|res.value.versions| - 1]
    ensures forall i :: 0 <= i < |res.value.versions| ==> ParseVersion(res.value.versions[i].version).Some?
    ensures forall i :: 0 <= i < |res.value.versions| - 1 ==>
      LeqVersion(ParseVersion(res.value.versions[i].version).value, ParseVersion(res.value.versions[i + 1].version).value)
  {
    var fs := VersionsByIDScopes(id);
    var vs := FindVersions(db, fs).value;
    var items := res.value.versions;
    FindVersionsSpec(db, fs);
    forall i | 0 <= i < |items| ensures ParseVersion(items[i].version).Some? {
      assert items[i] == MinVersionInfo(vs[i]);
    }
    forall i | 0 <= i < |items| - 1
      ensures LeqVersion(ParseVersion(items[i].version).value, ParseVersion(items[i + 1].version).value)
    {
      assert items[i] == MinVersionInfo(vs[i]) && items[i + 1] == MinVersionInfo(vs[i + 1]);
      assert ByVersion(vs[i], vs[i + 1]);
    }
  }

  /** The latest version VersionsByID names is the greatest version stored for the resource. */
  lemma VersionsByIDLatestIsMaximum(db: Model.Database, id: nat, res: Result<Api.Versions, Api.Err>)
    requires IsVersionsFor(FindVersions(db, VersionsByIDScopes(id)), res) && res.Success?
    ensures ParseVersion(res.value.latest.version).Some?
    ensures forall v :: v in db.versions && v.resourceId == id ==>
      ParseVersion(v.version).Some? && LeqVersion(ParseVersion(v.version).value, ParseVersion(res.value.latest.version).value)
  {
    assert VersionsByIDScopes(id) == [ResourceIdIs(id)];
    LatestKeyIsMaximum(db, id, res.value.latest.version);
  }

  /**
   * VersionsByID returns one minimal version per stored version row of the
   * resource: each is the minimal form of such a row, and each such row
   * has its minimal form among them.
   */
  lemma VersionsByIDRows(db: Model.Database, id: nat, res: Result<Api.Versions, Api.Err>)
    requires IsVersionsFor(FindVersions(db, VersionsByIDScopes(id)), res) && res.Success?
    ensures |res.value.versions| == |SelectVersions(db.versions, VersionsByIDScopes(id))|
    ensures forall i :: 0 <= i < |res.value.versions| ==> MinimalFormOfRow(db, id, res.value.versions[i])
    ensures forall v :: v in db.versions && v.resourceId == id ==> MinVersionInfo(v) in res.value.versions
  {
    assert VersionsByIDScopes(id) == [ResourceIdIs(id)];
    var vs := FindVersions(db, VersionsByIDScopes(id)).value;
    ResourceVersionRows(db, id, vs);
    MinimalForms(db, id, vs, res.value.versions);
  }

  /** The version is the minimal form of a stored version row of the resource. */
  predicate MinimalFormOfRow(db: Model.Database, id: nat, item: Api.Version)
  {
    exists v :: v in db.versions && v.resourceId == id && item == MinVersionInfo(v)
  }

  /** Minimal forms of exactly the version rows of a resource, pointwise. */
  lemma MinimalForms(db: Model.Database, id: nat, vs: seq<Model.ResourceVersion>, items: seq<Api.Version>)
    requires forall v :: v in vs <==> v in db.versions && v.resourceId == id
    requires |items| == |vs| && forall i :: 0 <= i < |vs| ==> items[i] == MinVersionInfo(vs[i])
    ensures forall i :: 0 <= i < |items| ==> MinimalFormOfRow(db, id, items[i])
    ensures forall v :: v in db.versions && v.resourceId == id ==> MinVersionInfo(v) in items
  {
    forall i | 0 <= i < |items| ensures MinimalFormOfRow(db, id, items[i]) {
      assert vs[i] in vs;
      assert vs[i] in db.versions && vs[i].resourceId == id && items[i] == MinVersionInfo(vs[i]);
    }
    forall v | v in db.versions && v.resourceId == id
      ensures MinVersionInfo(v) in items
    {
      var i :| 0 <= i < |vs| && vs[i] == v;
      assert items[i] == MinVersionInfo(v);
    }
  }

  /**
   * VersionsByID answers Internal exactly when the store is unreachable or
   * one of the resource's version strings does not cast to an integer
   * array, and NotFound exactly when the store is reachable and holds no
   * version of the resource.
   */
  lemma VersionsByIDOutcome(db: Model.Database, id: nat, res: Result<Api.Versions, Api.Err>)
    requires IsVersionsFor(FindVersions(db, VersionsByIDScopes(id)), res)
    ensures res == Failure(Api.Internal) <==>
      !db.reachable || exists v :: v in db.versions && v.resourceId == id && ParseVersion(v.version).None?
    ensures res == Failure(Api.NotFound) <==>
      db.reachable && forall v :: v in db.versions ==> v.resourceId != id
  {
    var fs := VersionsByIDScopes(id);
    var selected := SelectVersions(db.versions, fs);
    FindVersionsSpec(db, fs);
    forall v | v in db.versions ensures v in selected <==> v.resourceId == id {
      VersionsByIDFilters(id, v);
      assert v in selected <==> multiset(selected)[v] > 0;
    }
    forall v | v in selected ensures v in db.versions {
      VersionsByIDFilters(id, v);
      assert multiset(selected)[v] > 0;
    }
    if !WellFormed(selected) {
      var i :| 0 <= i < |selected| && ParseVersion(selected[i].version).None?;
      assert selected[i] in selected;
    }
    if db.reachable && selected != [] {
      assert selected[0] in selected;
      if WellFormed(selected) {
        assert FindVersions(db, fs).value != [];
      }
    }
  }

  /** The three version strings of the example below parse as expected. */
  lemma ExampleVersionsParse()
    ensures ParseVersion("1.0") == Some([1, 0])
    ensures ParseVersion("1.2") == Some([1, 2])
    ensures ParseVersion("1.10") == Some([1, 10])
  {
    assert FormatVersion([1, 0]) == "1.0";
    ParseFormatRoundTrip([1, 0]);
    assert FormatVersion([1, 2]) == "1.2";
    ParseFormatRoundTrip([1, 2]);
    assert Decimal(10) == "10";
    assert FormatVersion([1, 10]) == "1.10";
    ParseFormatRoundTrip([1, 10]);
  }

  /**
   * A resource stored with versions among 1.0, 1.2 and 1.10, 1.10 among
   * them: VersionsByID succeeds and names 1.10 the latest, although "1.10"
   * sorts below "1.2" as text.
   */
  lemma VersionsByIDLatestExample(db: Model.Database, res: Result<Api.Versions, Api.Err>)
    requires db.reachable
    requires forall v :: v in db.versions ==> v.version == "1.0" || v.version == "1.2" || v.version == "1.10"
    requires exists v :: v in db.versions && v.resourceId == 1 && v.version == "1.10"
    requires IsVersionsFor(FindVersions(db, VersionsByIDScopes(1)), res)
    ensures res.Success? && res.value.latest.version == "1.10"
  {
    ExampleVersionsParse();
    var top :| top in db.versions && top.resourceId == 1 && top.version == "1.10";
    VersionsByIDOutcome(db, 1, res);
    assert res.Success?;
    VersionsByIDLatestIsMaximum(db, 1, res);
    var key := ParseVersion(res.value.latest.version).value;
    assert LeqVersion([1, 10], key);
    VersionsByIDOrdered(db, 1, res);
    VersionsByIDRows(db, 1, res);
    LatestAmongStored(db, res.value.latest, key);
  }

  /** A latest version at or above 1.10, drawn from rows holding 1.0, 1.2 or 1.10, is 1.10. */
  lemma LatestAmongStored(db: Model.Database, latest: Api.Version, key: seq<nat>)
    requires forall v :: v in db.versions ==> v.version == "1.0" || v.version == "1.2" || v.version == "1.10"
    requires exists v :: v in db.versions && latest == MinVersionInfo(v)
    requires ParseVersion(latest.version) == Some(key) && LeqVersion([1, 10], key)
    ensures latest.version == "1.10"
  {
    ExampleVersionsParse();
  }

  // ByTypeNameVersion.

  /** A stored resource ByTypeNameVersion selects: type and name equal, ignoring case; empty arguments match everything. */
  predicate TypeNameMatches(kind: string, name: string, row: Model.ResourceRow)
  {
    && (kind == "" || Lower(row.kind) == Lower(kind))
    && (name == "" || Lower(row.name) == Lower(name))
  }

  /** The filters ByTypeNameVersion builds accept exactly the rows it is meant to select. */
  lemma ByTypeNameVersionFilters(kind: string, name: string, version: string, row: Model.ResourceRow)
    ensures ByTypeNameVersionScopes(kind, name, version).versions == VersionEquals(version)
    ensures ByTypeNameVersionScopes(kind, name, version).limit == None
    ensures AcceptsAll(ByTypeNameVersionScopes(kind, name, version).filters, row) <==> TypeNameMatches(kind, name, row)
  {
    var fs := ByTypeNameVersionScopes(kind, name, version).filters;
    assert fs == [FilterByType(kind), FilterByName(name)];
    assert AcceptsAll(fs, row) <==> Accepts(fs[0], row) && Accepts(fs[1], row);
  }

  /** The page ByTypeNameVersion reads is empty exactly when no stored resource has the type and the name. */
  lemma MatchPageEmpty(db: Model.Database, kind: string, name: string, version: string)
    ensures Page(db, ByTypeNameVersionScopes(kind, name, version)) == [] <==>
      forall row :: row in db.resources ==> !TypeNameMatches(kind, name, row)
  {
    var q := ByTypeNameVersionScopes(kind, name, version);
    assert q.limit == None;
    PageEmpty(db, q);
    forall row ensures AcceptsAll(q.filters, row) <==> TypeNameMatches(kind, name, row) {
      ByTypeNameVersionFilters(kind, name, version, row);
    }
  }

  /**
   * The last row of the page ByTypeNameVersion reads, the one the
   * single-record scan keeps, is a stored resource with the type and the
   * name, and every such resource ranks at or above it by rating then name.
   */
  lemma LastMatch(db: Model.Database, kind: string, name: string, version: string)
    requires Page(db, ByTypeNameVersionScopes(kind, name, version)) != []
    ensures
      var page := Page(db, ByTypeNameVersionScopes(kind, name, version));
      && page[|page| - 1] in db.resources && TypeNameMatches(kind, name, page[|page| - 1])
      && forall row :: row in db.resources && TypeNameMatches(kind, name, row) ==> ByRatingThenName(row, page[|page| - 1])
  {
    var q := ByTypeNameVersionScopes(kind, name, version);
    var page := Page(db, q);
    var last := page[|page| - 1];
    assert q.limit == None;
    PageLast(db, q);
    ByTypeNameVersionFilters(kind, name, version, last);
    forall row | row in db.resources && TypeNameMatches(kind, name, row)
      ensures ByRatingThenName(row, last)
    {
      ByTypeNameVersionFilters(kind, name, version, row);
    }
  }

  /**
   * ByTypeNameVersion returns the requested version of a stored resource
   * of the requested type and name, the last such resource by rating then
   * name, in complete form with the resource embedded; the embedded
   * catalog's type is the resource's type.
   */
  lemma ByTypeNameVersionItem(db: Model.Database, kind: string, name: string, version: string, res: Result<Api.Version, Api.Err>)
    requires IsVersionFor(FindOne(db, ByTypeNameVersionScopes(kind, name, version)), res) && res.Success?
    ensures res.value.version == version && res.value.rawURL == RawURL(res.value.webURL)
    ensures res.value.resource.Some?
    ensures
      var e := res.value.resource.value;
      && e.latestVersion.None? && e.catalog.catalogType == e.kind
      && (exists row :: row in db.resources && TypeNameMatches(kind, name, row)
           && row.id == e.id && row.name == e.name && row.kind == e.kind && row.rating == e.rating
           && row.catalog.id == e.catalog.id)
      && (exists v :: v in db.versions && v.resourceId == e.id && v.version == version
           && res.value.id == v.id && res.value.webURL == v.url && res.value.description == Some(v.description))
      && forall row :: row in db.resources && TypeNameMatches(kind, name, row) ==>
           row.rating > e.rating || (row.rating == e.rating && LeqString(row.name, e.name))
  {
    var q := ByTypeNameVersionScopes(kind, name, version);
    var r := FindOne(db, q).value;
    ByTypeNameVersionFilters(kind, name, version, r.row);
    FindOneSpec(db, q);
    LastMatch(db, kind, name, version);
    var fs := [ResourceIdIs(r.row.id), VersionIs(version)];
    assert r.versions == SelectVersions(db.versions, fs);
    SelectedVersionsStored(db.versions, fs);
    var v := r.versions[0];
    assert v in r.versions;
    assert AcceptsVersion(fs[0], v) && AcceptsVersion(fs[1], v);
    assert res.value == VersionItem(r.(versions := [v]));
  }

  /**
   * ByTypeNameVersion answers Internal exactly when the store is
   * unreachable, and NotFound exactly when the store is reachable and
   * either no stored resource has the type and name or the last of them
   * by rating then name has no version row with the version string.
   */
  lemma ByTypeNameVersionOutcome(db: Model.Database, kind: string, name: string, version: string, res: Result<Api.Version, Api.Err>)
    requires IsVersionFor(FindOne(db, ByTypeNameVersionScopes(kind, name, version)), res)
    ensures res == Failure(Api.Internal) <==> !db.reachable
    ensures res == Failure(Api.NotFound) <==>
      && db.reachable
      && var page := Page(db, ByTypeNameVersionScopes(kind, name, version));
      || page == []
      || forall v :: v in db.versions ==> !(v.resourceId == page[|page| - 1].id && v.version == version)
  {
    var q := ByTypeNameVersionScopes(kind, name, version);
    var page := Page(db, q);
    ByTypeNameVersionFilters(kind, name, version, Model.ResourceRow(0, "", "", 0, Model.Catalog(0, ""), []));
    if db.reachable && page != [] {
      var last := page[|page| - 1];
      var fs := [ResourceIdIs(last.id), VersionIs(version)];
      var vs := SelectVersions(db.versions, fs);
      assert FindOne(db, q) == Found(Model.Resource(last, SortBy(last.tags, ByTagName), vs));
      VersionRowsOf(db.versions, last.id, version);
    }
  }

  /** The version rows of a resource with a version string: none is selected exactly when none is stored. */
  lemma VersionRowsOf(vs: seq<Model.ResourceVersion>, id: nat, version: string)
    ensures SelectVersions(vs, [ResourceIdIs(id), VersionIs(version)]) == [] <==>
      forall v :: v in vs ==> !(v.resourceId == id && v.version == version)
  {
    var fs := [ResourceIdIs(id), VersionIs(version)];
    var selected := SelectVersions(vs, fs);
    SelectedVersionsStored(vs, fs);
    forall v ensures AcceptsAllVersions(fs, v) <==> v.resourceId == id && v.version == version {
      assert AcceptsAllVersions(fs, v) <==> AcceptsVersion(fs[0], v) && AcceptsVersion(fs[1], v);
    }
    if selected != [] {
      assert selected[0] in selected;
    }
  }

  /**
   * When several version rows match, ByTypeNameVersion keeps the first:
   * the answer is the complete form of the resource as loaded, with every
   * row but the first ignored.
   */
  lemma DuplicateVersionsKeepFirst(db: Model.Database, kind: string, name: string, version: string, res: Result<Api.Version, Api.Err>)
    requires IsVersionFor(FindOne(db, ByTypeNameVersionScopes(kind, name, version)), res)
    requires FindOne(db, ByTypeNameVersionScopes(kind, name, version)).Found?
    requires |FindOne(db, ByTypeNameVersionScopes(kind, name, version)).value.versions| > 1
    ensures res == Success(VersionItem(FindOne(db, ByTypeNameVersionScopes(kind, name, version)).value))
    ensures res.value.id == FindOne(db, ByTypeNameVersionScopes(kind, name, version)).value.versions[0].id
  {
    var r := FindOne(db, ByTypeNameVersionScopes(kind, name, version)).value;
    var first := r.(versions := [r.versions[0]]);
    assert VersionItem(first) == VersionItem(r);
  }
}

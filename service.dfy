/**
 * The four operations of the resource service over a store: Query, List,
 * VersionsByID and ByTypeNameVersion, with resourcesForQuery shared by the
 * first two. Each operation builds its query from the scopes, runs it
 * against the store, classifies an empty result as NotFound and a store
 * failure as Internal, and assembles the response.
 */
module Service {
  import opened Wrappers
  import opened Text
  import opened VersionOrder
  import opened Sorting
  import opened RawUrl
  import opened Scopes
  import opened Fetch
  import opened Assemble
  import Model
  import Api

  // The queries the operations build.

  function QueryScopes(name: string, kind: string, limit: nat): ResourceQuery
  {
    Limit(Where(Where(WithResourceDetails(Unscoped), FilterByType(kind)), MatchesName(name)), limit)
  }

  function ListScopes(limit: nat): ResourceQuery
  {
    Limit(WithResourceDetails(Unscoped), limit)
  }

  function VersionsByIDScopes(id: nat): seq<VersionFilter>
  {
    [FilterByResourceID(id)]
  }

  function ByTypeNameVersionScopes(kind: string, name: string, version: string): ResourceQuery
  {
    Where(Where(WithVersionInfo(version, Unscoped), FilterByType(kind)), FilterByName(name))
  }

  // The outcome each operation promises for what the store returned.

  /** Store failure is Internal, no resource is NotFound, otherwise one collection item per resource, in order. */
  predicate IsCollectionFor(fetched: Fetched<seq<Model.Resource>>, res: Result<seq<Api.Resource>, Api.Err>)
  {
    match fetched
    case Failed(_) => res == Failure(Api.Internal)
    case Found(rs) =>
      if rs == [] then res == Failure(Api.NotFound)
      else
        && res.Success? && |res.value| == |rs|
        && forall i :: 0 <= i < |rs| ==> rs[i].versions != [] && res.value[i] == ResourceItem(rs[i])
  }

  /** Store failure is Internal, no row is NotFound, otherwise the minimal form of every row and of the last one. */
  predicate IsVersionsFor(fetched: Fetched<seq<Model.ResourceVersion>>, res: Result<Api.Versions, Api.Err>)
  {
    match fetched
    case Failed(_) => res == Failure(Api.Internal)
    case Found(vs) =>
      if vs == [] then res == Failure(Api.NotFound)
      else
        && res.Success?
        && res.value.latest == MinVersionInfo(vs[|vs| - 1])
        && |res.value.versions| == |vs|
        && forall i :: 0 <= i < |vs| ==> res.value.versions[i] == MinVersionInfo(vs[i])
  }

  /**
   * A missing record is NotFound, any other store failure Internal; a
   * resource with no matching version is NotFound; with one it is that
   * version's complete form; with several, only the first is kept.
   */
  predicate IsVersionFor(fetched: Fetched<Model.Resource>, res: Result<Api.Version, Api.Err>)
  {
    match fetched
    case Failed(RecordNotFound) => res == Failure(Api.NotFound)
    case Failed(QueryFailed) => res == Failure(Api.Internal)
    case Found(r) =>
      if |r.versions| == 0 then res == Failure(Api.NotFound)
      else if |r.versions| == 1 then res == Success(VersionItem(r))
      else res == Success(VersionItem(r.(versions := [r.versions[0]])))
  }

  // The operations.

  /** Assembles one collection item per loaded resource, in order. */
  method InitResources(rs: seq<Model.Resource>) returns (items: seq<Api.Resource>)
    requires forall i :: 0 <= i < |rs| ==> rs[i].versions != []
    ensures |items| == |rs|
    ensures forall i :: 0 <= i < |rs| ==> items[i] == ResourceItem(rs[i])
  {
    items := [];
    for i := 0 to |rs|
      invariant |items| == i
      invariant forall k :: 0 <= k < i ==> items[k] == ResourceItem(rs[k])
    {
      var item := InitResource(rs[i]);
      items := items + [item];
    }
  }

  /** Runs a resource query and assembles one collection item per resource found. */
  method ResourcesForQuery(db: Model.Database, q: ResourceQuery) returns (res: Result<seq<Api.Resource>, Api.Err>)
    requires Model.Valid(db) && q.versions == AllVersions
    ensures IsCollectionFor(FindAll(db, q), res)
  {
    var fetched := RunFindAll(db, q);
    if fetched.Failed? {
      return Failure(Api.Internal);
    }
    var rs := fetched.value;
    if |rs| == 0 {
      return Failure(Api.NotFound);
    }
    LoadedVersionsNonEmpty(db, q);
    var items := InitResources(rs);
    return Success(items);
  }

  /** Resources whose type equals `kind` and whose name contains `name`, ignoring case; empty arguments filter nothing. */
  method Query(db: Model.Database, name: string, kind: string, limit: nat) returns (res: Result<seq<Api.Resource>, Api.Err>)
    requires Model.Valid(db)
    ensures IsCollectionFor(FindAll(db, QueryScopes(name, kind, limit)), res)
  {
    var q := QueryScopes(name, kind, limit);
    res := ResourcesForQuery(db, q);
  }

  /** All resources, by rating then name, up to `limit`. */
  method List(db: Model.Database, limit: nat) returns (res: Result<seq<Api.Resource>, Api.Err>)
    requires Model.Valid(db)
    ensures IsCollectionFor(FindAll(db, ListScopes(limit)), res)
  {
    res := ResourcesForQuery(db, ListScopes(limit));
  }

  /** The minimal form of every version row, in order. */
  method MinVersions(all: seq<Model.ResourceVersion>) returns (allVersions: seq<Api.Version>)
    ensures |allVersions| == |all|
    ensures forall i :: 0 <= i < |all| ==> allVersions[i] == MinVersionInfo(all[i])
  {
    allVersions := [];
    for i := 0 to |all|
      invariant |allVersions| == i
      invariant forall k :: 0 <= k < i ==> allVersions[k] == MinVersionInfo(all[k])
    {
      allVersions := allVersions + [MinVersionInfo(all[i])];
    }
  }

  /** Every version of a resource, ordered by version, with the last as the latest. */
  method VersionsByID(db: Model.Database, id: nat) returns (res: Result<Api.Versions, Api.Err>)
    ensures IsVersionsFor(FindVersions(db, VersionsByIDScopes(id)), res)
  {
    var fetched := RunFindVersions(db, VersionsByIDScopes(id));
    if fetched.Failed? {
      return Failure(Api.Internal);
    }
    var all := fetched.value;
    if |all| == 0 {
      return Failure(Api.NotFound);
    }
    var allVersions := MinVersions(all);
    var latestVersion := MinVersionInfo(all[|all| - 1]);
    return Success(Api.Versions(latestVersion, allVersions));
  }

  /** One version of the resource with this type and name, in complete form with the resource embedded. */
  method ByTypeNameVersion(db: Model.Database, kind: string, name: string, version: string)
    returns (res: Result<Api.Version, Api.Err>)
    ensures IsVersionFor(FindOne(db, ByTypeNameVersionScopes(kind, name, version)), res)
  {
    var fetched := RunFindOne(db, ByTypeNameVersionScopes(kind, name, version));
    if fetched.Failed? {
      if fetched.error == RecordNotFound {
        return Failure(Api.NotFound);
      }
      return Failure(Api.Internal);
    }
    var r := fetched.value;
    var count := |r.versions|;
    if count == 1 {
      var v := CompleteVersionInfo(r);
      return Success(v);
    } else if count == 0 {
      return Failure(Api.NotFound);
    } else {
      r := r.(versions := [r.versions[0]]);
      var v := CompleteVersionInfo(r);
      return Success(v);
    }
  }
}

/**
 * Assembly of response records from loaded store records: the collection
 * item of a resource (with its latest version), the minimal form of a
 * version, and the complete form of a version with its resource embedded.
 */
module Assemble {
  import opened Wrappers
  import opened RawUrl
  import Model
  import Api

  function TagView(t: Model.Tag): Api.Tag
  {
    Api.Tag(t.id, t.name)
  }

  /** The tags, copied one by one, in the same order. */
  function TagViews(tags: seq<Model.Tag>): (r: seq<Api.Tag>)
    ensures |r| == |tags|
    ensures forall i :: 0 <= i < |tags| ==> r[i] == Api.Tag(tags[i].id, tags[i].name)
  {
    if tags == [] then [] else [TagView(tags[0])] + TagViews(tags[1..])
  }

  /**
   * The collection item of a resource: its own fields, its catalog, its
   * tags in order, and the last of its versions as the latest version, with
   * the raw URL derived from the web URL.
   */
  function ResourceItem(r: Model.Resource): (res: Api.Resource)
    requires r.versions != []
    ensures res.id == r.row.id && res.name == r.row.name && res.kind == r.row.kind && res.rating == r.row.rating
    ensures res.catalog == Api.Catalog(r.row.catalog.id, r.row.catalog.catalogType)
    ensures res.tags == TagViews(r.tags)
    ensures res.latestVersion.Some?
    ensures
      var lv, last := res.latestVersion.value, r.versions[|r.versions| - 1];
      && lv.id == last.id && lv.version == last.version
      && lv.description == last.description && lv.displayName == last.displayName
      && lv.minPipelinesVersion == last.minPipelinesVersion && lv.updatedAt == last.updatedAt
      && lv.webURL == last.url && lv.rawURL == RawURL(lv.webURL)
  {
    var lv := r.versions[|r.versions| - 1];
    Api.Resource(
      r.row.id, r.row.name,
      Api.Catalog(r.row.catalog.id, r.row.catalog.catalogType),
      r.row.kind, r.row.rating,
      Some(Api.LatestVersion(lv.id, lv.version, lv.description, lv.displayName,
                             lv.minPipelinesVersion, lv.url, RawURL(lv.url), lv.updatedAt)),
      TagViews(r.tags))
  }

  /** Builds the collection item of a resource; its last version must exist. */
  method InitResource(r: Model.Resource) returns (res: Api.Resource)
    requires r.versions != []
    ensures res == ResourceItem(r)
  {
    var lv := r.versions[|r.versions| - 1];
    var latest := Api.LatestVersion(lv.id, lv.version, lv.description, lv.displayName,
                                    lv.minPipelinesVersion, lv.url, RawURL(lv.url), lv.updatedAt);
    var tags: seq<Api.Tag> := [];
    for i := 0 to |r.tags|
      invariant |tags| == i
      invariant forall k :: 0 <= k < i ==> tags[k] == Api.Tag(r.tags[k].id, r.tags[k].name)
    {
      tags := tags + [Api.Tag(r.tags[i].id, r.tags[i].name)];
    }
    assert tags == TagViews(r.tags);
    res := Api.Resource(r.row.id, r.row.name,
                        Api.Catalog(r.row.catalog.id, r.row.catalog.catalogType),
                        r.row.kind, r.row.rating, Some(latest), tags);
  }

  /** The minimal form of a version: id, version, web URL and the raw URL derived from it. */
  function MinVersionInfo(v: Model.ResourceVersion): (res: Api.Version)
    ensures res.id == v.id && res.version == v.version && res.webURL == v.url
    ensures res.rawURL == RawURL(res.webURL)
    ensures res.description.None? && res.displayName.None? && res.minPipelinesVersion.None?
    ensures res.updatedAt.None? && res.resource.None?
  {
    Api.Version(v.id, v.version, None, None, None, v.url, RawURL(v.url), None, None)
  }

  /**
   * The complete form of a resource's first version, embedding a summary of
   * the resource without a latest version. The embedded catalog carries the
   * catalog's id but the RESOURCE's type.
   */
  function VersionItem(r: Model.Resource): (res: Api.Version)
    requires r.versions != []
    ensures
      var v := r.versions[0];
      && res.id == v.id && res.version == v.version
      && res.description == Some(v.description) && res.displayName == Some(v.displayName)
      && res.minPipelinesVersion == Some(v.minPipelinesVersion) && res.updatedAt == Some(v.updatedAt)
      && res.webURL == v.url && res.rawURL == RawURL(res.webURL)
    ensures res.resource.Some?
    ensures
      var e := res.resource.value;
      && e.id == r.row.id && e.name == r.row.name && e.kind == r.row.kind && e.rating == r.row.rating
      && e.tags == TagViews(r.tags) && e.latestVersion.None?
      && e.catalog == Api.Catalog(r.row.catalog.id, r.row.kind)
  {
    var v := r.versions[0];
    var summary := Api.Resource(r.row.id, r.row.name, Api.Catalog(r.row.catalog.id, r.row.kind),
                                r.row.kind, r.row.rating, None, TagViews(r.tags));
    Api.Version(v.id, v.version, Some(v.description), Some(v.displayName), Some(v.minPipelinesVersion),
                v.url, RawURL(v.url), Some(v.updatedAt), Some(summary))
  }

  /** Builds the complete form of a resource's first version. */
  method CompleteVersionInfo(r: Model.Resource) returns (res: Api.Version)
    requires r.versions != []
    ensures res == VersionItem(r)
  {
    var tags: seq<Api.Tag> := [];
    for i := 0 to |r.tags|
      invariant |tags| == i
      invariant forall k :: 0 <= k < i ==> tags[k] == Api.Tag(r.tags[k].id, r.tags[k].name)
    {
      tags := tags + [Api.Tag(r.tags[i].id, r.tags[i].name)];
    }
    assert tags == TagViews(r.tags);
    var summary := Api.Resource(r.row.id, r.row.name, Api.Catalog(r.row.catalog.id, r.row.kind),
                                r.row.kind, r.row.rating, None, tags);
    var v := r.versions[0];
    res := Api.Version(v.id, v.version, Some(v.description), Some(v.displayName), Some(v.minPipelinesVersion),
                       v.url, RawURL(v.url), Some(v.updatedAt), Some(summary));
  }
}

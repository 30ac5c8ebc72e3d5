/**
 * The response types of the resource service (the transport layer's
 * generated types, reduced to their fields) and its two error kinds.
 */
module Api {
  import opened Wrappers

  /** NotFound: the query matched nothing; Internal: the store failed. */
  datatype Err = NotFound | Internal

  datatype Catalog = Catalog(id: nat, catalogType: string)

  datatype Tag = Tag(id: nat, name: string)

  datatype LatestVersion = LatestVersion(
    id: nat,
    version: string,
    description: string,
    displayName: string,
    minPipelinesVersion: string,
    webURL: string,
    rawURL: string,
    updatedAt: string)

  /** A resource; `latestVersion` is absent when the resource is embedded in a version. */
  datatype Resource = Resource(
    id: nat,
    name: string,
    catalog: Catalog,
    kind: string,
    rating: int,
    latestVersion: Option<LatestVersion>,
    tags: seq<Tag>)

  /** A version; the optional fields are absent in the minimal form. */
  datatype Version = Version(
    id: nat,
    version: string,
    description: Option<string>,
    displayName: Option<string>,
    minPipelinesVersion: Option<string>,
    webURL: string,
    rawURL: string,
    updatedAt: Option<string>,
    resource: Option<Resource>)

  datatype Versions = Versions(latest: Version, versions: seq<Version>)
}

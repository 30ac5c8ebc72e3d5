/**
 * The store's records, as the resource service reads them. The store itself
 * is a value: the resources table (each row with its catalog and the tags
 * linked to it already resolved), the resource_versions table, and whether
 * the store can be reached at all.
 */
module Model {

  datatype Catalog = Catalog(id: nat, catalogType: string)

  datatype Tag = Tag(id: nat, name: string)

  /** One row of the resources table; `kind` is the resource's free-text type. */
  datatype ResourceRow = ResourceRow(
    id: nat,
    name: string,
    kind: string,
    rating: int,
    catalog: Catalog,
    tags: seq<Tag>)

  /** One row of the resource_versions table; `updatedAt` is kept as an opaque timestamp text. */
  datatype ResourceVersion = ResourceVersion(
    id: nat,
    resourceId: nat,
    version: string,
    description: string,
    displayName: string,
    minPipelinesVersion: string,
    url: string,
    updatedAt: string)

  /** A resource with its associations loaded: tags and versions in the order they were preloaded. */
  datatype Resource = Resource(row: ResourceRow, tags: seq<Tag>, versions: seq<ResourceVersion>)

  datatype Database = Database(
    resources: seq<ResourceRow>,
    versions: seq<ResourceVersion>,
    reachable: bool)

  predicate HasVersion(versions: seq<ResourceVersion>, id: nat)
  {
    exists j :: 0 <= j < |versions| && versions[j].resourceId == id
  }

  /** The catalog's invariant: every resource has at least one version row. */
  predicate Valid(db: Database)
  {
    forall i :: 0 <= i < |db.resources| ==> HasVersion(db.versions, db.resources[i].id)
  }
}

# Resource service of the Tekton hub, modelled in Dafny

The resource service answers four read-only questions about a catalog of
versioned, tagged resources:

- `Query`: resources whose type equals a given one and whose name contains a
  given string, ignoring case.
- `List`: every resource.
- `VersionsByID`: every version of one resource, with the latest one named.
- `ByTypeNameVersion`: one version of the resource with a given type and name,
  with the resource embedded.

Query and List order by rating (highest first) and then by name, and cut the
result at a limit. Versions are ordered by PostgreSQL's integer-array cast
`string_to_array(version, '.')::int[]`. Every version's raw-content URL is
derived from its GitHub web URL by a two-pair string replacer.

The model has these parts:

- **The store** (`Model`): a value holding the resources table, the
  resource_versions table, and whether the store can be reached.
- **The query scopes** (`Scopes`): data rather than query-builder closures.
  Filters, the version preload, the limit and the three orderings.
- **The store's answer** (`Fetch`): functions that state what a query
  returns. Rows are filtered, ordered, limited, and then tags and versions
  are preloaded. Ordering by version fails the whole query when one selected
  version string does not cast.
- **Assembly** (`Assemble`): `initResource`, `minVersionInfo` and
  `completeVersionInfo`. `initResource` and `completeVersionInfo` loop over
  the tags. Each becomes a function that states the result and a method with
  that loop, proved equal to it. `minVersionInfo` has no loop, so it is only
  a function. The loop that applies it to every row is in `VersionsByID`,
  and the model puts it in `Service.MinVersions`.
- **The operations** (`Service`): methods that run the store round trip and
  assemble the answer. Each one's `ensures` ties its answer to what the store
  returned.
- **Properties** (`ServiceProperties`): each operation's promises, stated
  over the store itself and proved from those `ensures`:
  - which resources and versions come back, and in which order;
  - that the latest version is the greatest stored one;
  - that the tags are sorted by name;
  - that nothing is missing when the limit does not cut;
  - that when the limit cuts, exactly `limit` items come back, and they are
    the top ones: a matching resource left out ranks at or below every item;
  - exactly when the answer is NotFound and when it is Internal.

A resource with no version row makes `initResource` panic
(`r.Versions[len(r.Versions)-1]`). The model follows the code here:
`Assemble.ResourceItem` requires a version, and `Query` and `List` require
`Model.Valid`, which says every stored resource has a version row. The
code does not skip such a resource or answer NotFound for it, so the model
does not either.

Store conventions the model adopts:

- A second `Preload("Versions", …)` replaces the first one with the same
  name. So `withVersionInfo` loads only the version rows whose string equals
  the requested one, with no ORDER BY at all; the model takes them in table
  order.
- A `Find` into a single struct with no row is `RecordNotFound`, which the
  service maps to NotFound. A `Find` into a slice with no row is not an error.
- A `Find` into a single struct scans every row of the result over the same
  struct, so the last row of `ORDER BY rating DESC, name` is the one kept.
  In `ByTypeNameVersion` this is the lowest-ranked resource with the type
  and name.
- Any other store failure is Internal.
- `string_to_array('', '.')` is the empty array. Every component must be a
  non-empty run of digits whose value fits a 4-byte integer.

## Model

| member | source | states |
|---|---|---|
| RawUrl.RawURL | api/pkg/service/resource/resource.go:21 | the two-pair replacer as one left-to-right scan: at each position the first pattern that starts there is replaced and the scan resumes after it; otherwise the character is copied; its meaning is proved by the RawURL lemmas below |
| RawUrl.RawURLUnchanged | api/pkg/service/resource/resource.go:21 | a URL in which neither "github.com" nor "/tree/" occurs is returned unchanged |
| RawUrl.RawURLPlainPrefix | api/pkg/service/resource/resource.go:21 | characters at which no pattern begins are copied through, so the rewrite of p+s is p followed by the rewrite of s |
| RawUrl.RawURLCopiesPlain | api/pkg/service/resource/resource.go:21 | a prefix with no 'g' and no "/t" is copied through unchanged |
| RawUrl.RawURLGitHubHttps | api/pkg/service/resource/resource.go:21 | the host of an https GitHub URL becomes raw.githubusercontent.com, and the rest is rewritten on its own |
| RawUrl.RawURLTree | api/pkg/service/resource/resource.go:21 | a "/tree/" segment collapses to a single "/" |
| RawUrl.RawURLAllPlain | api/pkg/service/resource/resource.go:21 | a string of plain characters is its own rewrite |
| RawUrl.RawURLTreePage | api/pkg/service/resource/resource.go:21 | a GitHub tree-page URL https://github.com{path}/tree/{rest} maps to https://raw.githubusercontent.com{path}/{rest} |
| RawUrl.RawURLExample | api/pkg/service/resource/resource.go:21 | https://github.com/a/b/tree/main/c becomes https://raw.githubusercontent.com/a/b/main/c |
| RawUrl.RawURLIdempotentWhenClean | api/pkg/service/resource/resource.go:21 | re-applying the rewrite changes nothing when the first application left no pattern behind |
| RawUrl.RawURLNotIdempotent | api/pkg/service/resource/resource.go:21 | the replacer is not idempotent in general: "/tree/tree/" gives "/tree/", which gives "/" |
| VersionOrder.ParseVersion | api/pkg/service/resource/resource.go:232 | `string_to_array(version, '.')::int[]`: the empty string gives the empty array; otherwise split on '.' and cast every component, failing if one fails; stated by ParseComponents and ParseFormatRoundTrip |
| VersionOrder.LeqVersion | api/pkg/service/resource/resource.go:232 | PostgreSQL's order on integer arrays: element by element, a proper prefix first; proved a total order by the three lemmas below |
| VersionOrder.ParseComponent | api/pkg/service/resource/resource.go:232 | one component casts exactly when it is a non-empty digit string with a value of at most 2147483647, and then to that value |
| VersionOrder.ParseComponents | api/pkg/service/resource/resource.go:232 | the array cast succeeds exactly when every component casts, and keeps their count and values |
| VersionOrder.LeqVersionTotal | api/pkg/service/resource/resource.go:232 | any two keys are comparable |
| VersionOrder.LeqVersionTransitive | api/pkg/service/resource/resource.go:232 | the key order is transitive |
| VersionOrder.LeqVersionAntisymmetric | api/pkg/service/resource/resource.go:232 | keys that are ordered both ways are equal |
| VersionOrder.ProperPrefixFirst | api/pkg/service/resource/resource.go:232 | a proper prefix sorts strictly before its extensions, so missing components are not zeros |
| VersionOrder.FirstDifferenceDecides | api/pkg/service/resource/resource.go:232 | the first differing component decides the order, whatever follows |
| VersionOrder.DecimalRoundTrip | api/pkg/service/resource/resource.go:232 | the canonical decimal spelling of n has the value n |
| VersionOrder.SplitFormatted | api/pkg/service/resource/resource.go:232 | splitting a formatted key on '.' gives back each component's spelling |
| VersionOrder.ParseFormatRoundTrip | api/pkg/service/resource/resource.go:232 | parsing a formatted key whose components fit an int4 gives the key back |
| VersionOrder.NumericNotTextual | api/pkg/service/resource/resource.go:232 | 1.9 < 1.10 < 2.0 as versions, although "1.10" sorts before "1.9" as text |
| VersionOrder.MalformedExamples | api/pkg/service/resource/resource.go:232 | "1.x", "1..2" and "1." do not cast |
| Text.LeqStringTotal | api/pkg/service/resource/resource.go:218 | the name order is total |
| Text.LeqStringTransitive | api/pkg/service/resource/resource.go:218 | the name order is transitive |
| Text.LeqStringAntisymmetric | api/pkg/service/resource/resource.go:218 | names ordered both ways are equal |
| Sorting.SortBy | api/pkg/service/resource/resource.go:218 | an ORDER BY returns a permutation of its input |
| Sorting.SortBySorted | api/pkg/service/resource/resource.go:218 | an ORDER BY by a total order returns its input sorted |
| Sorting.LastIsMaximum | api/pkg/service/resource/resource.go:71 | the last element of a sorted sequence is at or above every element |
| Sorting.FirstIsMinimum | api/pkg/service/resource/resource.go:218 | the first element of a sorted sequence is at or below every element |
| Sorting.SortedPairs | api/pkg/service/resource/resource.go:218 | in a sequence sorted by a total preorder, every element is at or below every later one |
| Sorting.Take | api/pkg/service/resource/resource.go:41 | a LIMIT keeps a prefix of at most n rows, and everything when there are no more than n |
| Scopes.FilterByType | api/pkg/service/resource/resource.go:235-244 | the empty type adds no clause; otherwise a row passes exactly when its lowered type equals the lowered argument |
| Scopes.FilterByName | api/pkg/service/resource/resource.go:252-261 | the empty name adds no clause; otherwise a row passes exactly when its lowered name equals the lowered argument |
| Scopes.MatchesName | api/pkg/service/resource/resource.go:263-272 | the empty name adds no clause; otherwise a row passes exactly when its lowered name contains the lowered argument |
| Scopes.MatchesNameExample | api/pkg/service/resource/resource.go:263-272 | "Foo" matches "foobar" and not "barbaz" |
| Scopes.FilterByResourceID | api/pkg/service/resource/resource.go:246-250 | a version row passes exactly when it belongs to the resource |
| Scopes.WithResourceDetails | api/pkg/service/resource/resource.go:216-221 | all versions are preloaded, and the filters and the limit are unchanged |
| Scopes.WithVersionInfo | api/pkg/service/resource/resource.go:223-229 | only the versions equal to the requested string are preloaded, replacing the preload of all versions |
| Scopes.ByRatingThenNameIsPreorder | api/pkg/service/resource/resource.go:218 | rating descending, then name ascending, is a total preorder |
| Scopes.ByTagNameIsPreorder | api/pkg/service/resource/resource.go:212 | tag name ascending is a total preorder |
| Scopes.ByVersionIsPreorder | api/pkg/service/resource/resource.go:231-233 | the version-key order is a total preorder |
| Fetch.FindVersions | api/pkg/service/resource/resource.go:55-61 | a query on resource_versions: fails when the store is unreachable or a selected version does not cast; otherwise the selected rows ordered by version; stated by FindVersionsSpec |
| Fetch.Page | api/pkg/service/resource/resource.go:216-221 | the resource rows of a query: filtered, ordered by rating then name, cut at the limit; stated by PageSpec, PageTop and PageLast |
| Fetch.Load | api/pkg/service/resource/resource.go:209-229 | the preload of one row: catalog and tags by name, then all versions by version, or the rows with one version string; stated by LoadedContents and LoadFailure |
| Fetch.FindAll | api/pkg/service/resource/resource.go:112 | a `Find` into a slice: the loaded page, failing when the store is unreachable or one preload fails; stated by FindAllSpec and FindAllOutcome |
| Fetch.FindOne | api/pkg/service/resource/resource.go:88-89 | a `Find` into one struct: RecordNotFound on an empty page, else the last page row loaded; stated by FindOneSpec |
| Fetch.Select | api/pkg/service/resource/resource.go:37-41 | the Where clauses keep each stored row that passes every filter, as often as it is stored, and no other |
| Fetch.SelectVersions | api/pkg/service/resource/resource.go:55 | the Where clauses on versions keep each stored version row that passes every filter, and no other |
| Fetch.SelectNoops | api/pkg/service/resource/resource.go:274-276 | scopes that are all noop select every row, in table order |
| Fetch.LoadAll | api/pkg/service/resource/resource.go:112 | preloading succeeds exactly when every row's preload does; then one loaded resource per row, in order; otherwise the error of a failing row |
| Fetch.FindVersionsSpec | api/pkg/service/resource/resource.go:55-61 | a version query fails exactly when the store is unreachable or a selected version does not cast; otherwise it returns exactly the selected rows, each as often as stored, all castable, ordered by version |
| Fetch.LastVersionIsMaximum | api/pkg/service/resource/resource.go:71 | the last row of a version query has the greatest key among all stored rows the query selects |
| Fetch.ResourceVersionRows | api/pkg/service/resource/resource.go:246-250 | a resource's version query returns exactly its stored version rows, as many as are stored |
| Fetch.LatestKeyIsMaximum | api/pkg/service/resource/resource.go:140 | the last version loaded for a resource casts, and so does every version row of the resource, none above it |
| Fetch.PageSpec | api/pkg/service/resource/resource.go:216-221 | the rows of a resource query are stored and pass every filter, are ordered by rating then name, number at most the limit and exactly the limit when at least that many match, are every matching row when the limit does not cut, and are empty exactly when nothing matches or the limit is zero |
| Fetch.PageTop | api/pkg/service/resource/resource.go:41 | a stored row that passes the filters but is left off the page ranks, by rating then name, at or below every row on it |
| Fetch.PageLast | api/pkg/service/resource/resource.go:88-92 | with no limit, the last row of a non-empty page is a stored row that passes the filters, and every such row ranks at or above it |
| Fetch.PageComplete | api/pkg/service/resource/resource.go:41 | when the limit does not cut, every stored row that passes the filters is on the page |
| Fetch.PageEmpty | api/pkg/service/resource/resource.go:117 | the page is empty exactly when the limit is zero or no stored row passes the filters |
| Fetch.FindAllFailure | api/pkg/service/resource/resource.go:112-115 | a list query can only fail with a query error, never with RecordNotFound |
| Fetch.LoadedContents | api/pkg/service/resource/resource.go:209-229 | a loaded resource holds its row; a permutation of the row's tags, ordered by name; with all versions, exactly the resource's stored version rows, as many as stored, ordered by version; with one version string, exactly the resource's stored rows with that string |
| Fetch.VersionSelection | api/pkg/service/resource/resource.go:227 | selecting a resource's rows with a version string keeps exactly its stored rows with that string |
| Fetch.FindOneSpec | api/pkg/service/resource/resource.go:88-92 | a single-resource query returns the last row of its page, loaded; it is RecordNotFound exactly when the store is reachable and the page is empty |
| Fetch.SelectedVersionsStored | api/pkg/service/resource/resource.go:227 | a version row is selected exactly when it is stored and passes every filter |
| Fetch.FindAllSpec | api/pkg/service/resource/resource.go:111-115 | a successful list query returns one loaded resource per page row, in page order |
| Fetch.SelectedWellFormed | api/pkg/service/resource/resource.go:231-233 | the version rows selected for a resource all cast exactly when every stored version row of it casts |
| Fetch.LoadFailure | api/pkg/service/resource/resource.go:219-220 | preloading all versions fails exactly when the store is unreachable or a stored version row of the resource does not cast; the other preloads never fail |
| Fetch.RowsLoadFailure | api/pkg/service/resource/resource.go:112 | on a reachable store, some row fails its preload of all versions exactly when some row's resource has an uncastable version row |
| Fetch.FindAllOutcome | api/pkg/service/resource/resource.go:112-119 | with all versions preloaded, a list query fails exactly when the store is unreachable or a resource on the page has a version row that does not cast; with the other preloads, exactly when unreachable; the result is empty exactly when the store is reachable and the page is empty |
| Fetch.LoadedTagsSorted | api/pkg/service/resource/resource.go:212 | loaded tags are a permutation of the row's tags, ordered by name |
| Fetch.StoredRowHasVersions | api/pkg/service/resource/resource.go:140 | in a valid store, the versions found for a stored resource are never empty |
| Fetch.LoadedVersionsNonEmpty | api/pkg/service/resource/resource.go:140 | in a valid store, every resource a list query loads has a last version |
| Assemble.TagViews | api/pkg/service/resource/resource.go:151-156 | one response tag per tag, same id and name, same order |
| Assemble.ResourceItem | api/pkg/service/resource/resource.go:129-159 | the collection item carries the row's fields, the catalog's id and type, the tags in order, and the last version as its latest, with raw URL = RawURL(web URL) |
| Assemble.InitResource | api/pkg/service/resource/resource.go:129-159 | the loop over the tags builds exactly that collection item; a version must exist |
| Assemble.MinVersionInfo | api/pkg/service/resource/resource.go:161-170 | the minimal form has id, version, web URL and raw URL = RawURL(web URL), and no other field |
| Assemble.VersionItem | api/pkg/service/resource/resource.go:172-207 | the complete form of the first version carries every version field, raw URL = RawURL(web URL), and an embedded resource without a latest version whose catalog type is the resource's type |
| Assemble.CompleteVersionInfo | api/pkg/service/resource/resource.go:172-207 | the loop over the tags builds exactly that complete form |
| Service.QueryScopes | api/pkg/service/resource/resource.go:37-41 | the scopes of Query: details, the type filter, the name match and the limit; stated by QueryFilters |
| Service.ListScopes | api/pkg/service/resource/resource.go:48 | the scopes of List: details and the limit; stated by ListPage |
| Service.VersionsByIDScopes | api/pkg/service/resource/resource.go:55 | the scopes of VersionsByID: the resource-id filter, ordered by version; stated by VersionsByIDFilters |
| Service.ByTypeNameVersionScopes | api/pkg/service/resource/resource.go:83-86 | the scopes of ByTypeNameVersion: the version preload, the exact type and name filters, no limit; stated by ByTypeNameVersionFilters |
| Service.IsCollectionFor | api/pkg/service/resource/resource.go:112-126 | store failure is Internal, an empty result NotFound, otherwise one item per loaded resource in order; stated by CollectionOutcome |
| Service.IsVersionsFor | api/pkg/service/resource/resource.go:58-79 | store failure is Internal, no row NotFound, otherwise the minimal form of every row and of the last one as latest; stated by VersionsByIDOutcome |
| Service.IsVersionFor | api/pkg/service/resource/resource.go:89-106 | RecordNotFound is NotFound, any other failure Internal; no version NotFound; one version its complete form; several, the first; stated by ByTypeNameVersionOutcome |
| Service.InitResources | api/pkg/service/resource/resource.go:121-124 | the loop builds one collection item per loaded resource, in order |
| Service.ResourcesForQuery | api/pkg/service/resource/resource.go:109-127 | store failure is Internal, no resource is NotFound, and otherwise one collection item per loaded resource, in order |
| Service.Query | api/pkg/service/resource/resource.go:35-44 | answers resourcesForQuery on the query with details, the type filter, the name match and the limit |
| Service.List | api/pkg/service/resource/resource.go:46-50 | answers resourcesForQuery on the query with details and the limit |
| Service.MinVersions | api/pkg/service/resource/resource.go:67-70 | the loop builds the minimal form of every version row, in order |
| Service.VersionsByID | api/pkg/service/resource/resource.go:53-79 | store failure is Internal, no row is NotFound, and otherwise the minimal form of every row in version order, with the last row's as the latest |
| Service.ByTypeNameVersion | api/pkg/service/resource/resource.go:81-107 | a missing record is NotFound and any other store failure Internal; no matching version is NotFound; otherwise the complete form built from the first matching version row of the resource the single-struct scan keeps |
| ServiceProperties.ItemFieldsOfLoaded | api/pkg/service/resource/resource.go:129-159 | the item built from a loaded resource carries the row's fields, the row's tags by name, and the last loaded version as its latest |
| ServiceProperties.LatestOfVersions | api/pkg/service/resource/resource.go:140 | when the item's latest version is the last of the resource's version query, it is the greatest version stored for the resource |
| ServiceProperties.ItemFromLoaded | api/pkg/service/resource/resource.go:129-159 | an item built from a resource loaded with all its versions carries the row's fields, its tags by name, and its greatest stored version |
| ServiceProperties.CollectionFromPage | api/pkg/service/resource/resource.go:109-127 | a successful collection has one such item per page row, in page order |
| ServiceProperties.AssembledOrdered | api/pkg/service/resource/resource.go:218 | items are ordered by rating, highest first, then by name |
| ServiceProperties.AssembledTagsSorted | api/pkg/service/resource/resource.go:212 | every item's tags are ordered by name |
| ServiceProperties.AssembledFiltered | api/pkg/service/resource/resource.go:37-41 | every item comes from a stored row that passes every filter; there are at most the limit, and exactly the limit when at least that many rows pass |
| ServiceProperties.PageListed | api/pkg/service/resource/resource.go:121-124 | every row of the page has its item |
| ServiceProperties.AssembledComplete | api/pkg/service/resource/resource.go:41 | when the limit does not cut, every stored row that passes the filters has an item |
| ServiceProperties.AssembledTop | api/pkg/service/resource/resource.go:41 | a stored row that passes the filters and has no item is outranked, by rating then name, by every item |
| ServiceProperties.CollectionDeterminate | api/pkg/service/resource/resource.go:109-127 | the collection answer is determined by what the store returned |
| ServiceProperties.CollectionOutcome | api/pkg/service/resource/resource.go:112-119 | with all versions preloaded, Internal exactly when the store is unreachable or a resource on the page has an uncastable version row; NotFound exactly when the store is reachable and the page is empty; a collection in every other case |
| ServiceProperties.QueryFilters | api/pkg/service/resource/resource.go:37-41 | the query Query builds preloads all versions, is limited to `limit`, and accepts exactly the rows whose type equals `kind` and whose name contains `name`, ignoring case, with empty arguments matching all |
| ServiceProperties.QueryPageEmpty | api/pkg/service/resource/resource.go:37-41 | Query's page is empty exactly when the limit is zero or no stored resource matches |
| ServiceProperties.AssembledQueryMatch | api/pkg/service/resource/resource.go:37-41 | items assembled from Query's page are stored and matching; they are at most the limit, and exactly the limit when at least that many match |
| ServiceProperties.AssembledQueryTop | api/pkg/service/resource/resource.go:37-41 | a matching stored resource with no item from Query's page is outranked by every item |
| ServiceProperties.AssembledQueryComplete | api/pkg/service/resource/resource.go:37-41 | when no more rows match than the limit, every matching stored resource has an item |
| ServiceProperties.QueryItemsMatch | api/pkg/service/resource/resource.go:35-44 | a successful Query holds between one and `limit` items, exactly `limit` when at least that many match, each from a stored resource that matches; a matching resource left out is outranked by every item |
| ServiceProperties.QueryComplete | api/pkg/service/resource/resource.go:35-44 | when no more resources match than the limit, a successful Query lists every matching stored resource |
| ServiceProperties.CollectionOrdered | api/pkg/service/resource/resource.go:218 | the items of Query and List are ordered by rating, highest first, then by name |
| ServiceProperties.CollectionTagsSorted | api/pkg/service/resource/resource.go:212 | the tags of every item of Query and List are ordered by name |
| ServiceProperties.CollectionLatestIsGreatest | api/pkg/service/resource/resource.go:140 | the latest version of every item of Query and List is the greatest version stored for it |
| ServiceProperties.QueryOutcome | api/pkg/service/resource/resource.go:35-44 | Internal exactly when the store is unreachable or a resource on the page has an uncastable version row; NotFound exactly when the store is reachable and the limit is zero or nothing matches; a collection in every other case |
| ServiceProperties.UnfilteredPage | api/pkg/service/resource/resource.go:37-48 | with an empty name and type, Query's store answer is List's |
| ServiceProperties.QueryUnfilteredIsList | api/pkg/service/resource/resource.go:35-50 | with an empty name and type, Query answers exactly as List does |
| ServiceProperties.ListPage | api/pkg/service/resource/resource.go:48 | List selects every stored resource, and its page is empty exactly when the limit is zero or nothing is stored |
| ServiceProperties.ListOutcome | api/pkg/service/resource/resource.go:46-50 | Internal exactly when the store is unreachable or a resource on the page has an uncastable version row; NotFound exactly when the store is reachable and the limit is zero or nothing is stored; a collection in every other case |
| ServiceProperties.ListItems | api/pkg/service/resource/resource.go:46-50 | a successful List holds between one and `limit` items, exactly `limit` when at least that many are stored, each from a stored resource; a stored resource left out is outranked by every item |
| ServiceProperties.ListComplete | api/pkg/service/resource/resource.go:46-50 | when the stored resources fit the limit, a successful List lists every one of them |
| ServiceProperties.AssembledListStored | api/pkg/service/resource/resource.go:48 | items assembled from List's page are stored; they are at most the limit, and exactly the limit when at least that many are stored |
| ServiceProperties.AssembledListTop | api/pkg/service/resource/resource.go:48 | a stored resource with no item from List's page is outranked by every item |
| ServiceProperties.AssembledListAll | api/pkg/service/resource/resource.go:48 | when the stored resources fit the limit, every one of them has an item |
| ServiceProperties.VersionsByIDFilters | api/pkg/service/resource/resource.go:55 | VersionsByID's query accepts exactly the version rows of the resource |
| ServiceProperties.VersionsByIDOrdered | api/pkg/service/resource/resource.go:55-76 | the versions are non-empty, all castable, in ascending version order, and the latest is the last one |
| ServiceProperties.VersionsByIDLatestIsMaximum | api/pkg/service/resource/resource.go:71 | the latest version is the greatest version stored for the resource |
| ServiceProperties.VersionsByIDRows | api/pkg/service/resource/resource.go:67-70 | one minimal version per stored version row of the resource: each is the minimal form of such a row, and every such row's minimal form is present |
| ServiceProperties.MinimalForms | api/pkg/service/resource/resource.go:67-70 | pointwise minimal forms of exactly a resource's rows are minimal forms of its rows, and cover them all |
| ServiceProperties.VersionsByIDOutcome | api/pkg/service/resource/resource.go:58-65 | Internal exactly when the store is unreachable or a version of the resource does not cast; NotFound exactly when the store is reachable and holds no version of the resource |
| ServiceProperties.ExampleVersionsParse | api/pkg/service/resource/resource.go:232 | "1.0", "1.2" and "1.10" cast to [1,0], [1,2] and [1,10] |
| ServiceProperties.VersionsByIDLatestExample | api/pkg/service/resource/resource.go:53-79 | with stored versions among 1.0, 1.2 and 1.10, 1.10 among them, VersionsByID succeeds and names 1.10 the latest |
| ServiceProperties.LatestAmongStored | api/pkg/service/resource/resource.go:71 | a latest version at or above 1.10, drawn from rows holding 1.0, 1.2 or 1.10, is 1.10 |
| ServiceProperties.ByTypeNameVersionFilters | api/pkg/service/resource/resource.go:83-86 | ByTypeNameVersion's query preloads only the requested version, has no limit, and accepts exactly the rows whose type and name equal the arguments, ignoring case, with empty arguments matching all |
| ServiceProperties.MatchPageEmpty | api/pkg/service/resource/resource.go:83-89 | the page ByTypeNameVersion reads is empty exactly when no stored resource has the type and name |
| ServiceProperties.LastMatch | api/pkg/service/resource/resource.go:83-92 | the last row of a non-empty page, the one the single-struct scan keeps, is a stored resource with the type and name, and every such resource ranks at or above it by rating then name |
| ServiceProperties.ByTypeNameVersionItem | api/pkg/service/resource/resource.go:81-107 | a success carries the requested version of a stored version row of the last matching resource by rating then name (every other match ranking at or above it), raw URL = RawURL(web URL), and the embedded resource without a latest version, with the resource's type as its catalog type |
| ServiceProperties.ByTypeNameVersionOutcome | api/pkg/service/resource/resource.go:89-101 | Internal exactly when the store is unreachable; NotFound exactly when the store is reachable and no resource matches or the last of them by rating then name has no version row with the string |
| ServiceProperties.VersionRowsOf | api/pkg/service/resource/resource.go:227 | no version row is selected for a resource and version string exactly when none is stored |
| ServiceProperties.DuplicateVersionsKeepFirst | api/pkg/service/resource/resource.go:102-105 | with several matching version rows, the answer is the complete form of the first |

## Left out

- `New` and the service struct: the store handle and the logger become the `Model.Database` parameter. Logging (`s.logger.Error`, `Warnf`) is not modelled.
- `context.Context` and the payload structs: their fields are passed as plain parameters.
- The error values keep their kind (NotFound, Internal) but not their message text.
- The store engine: the ORM and PostgreSQL are replaced by `Fetch`, a specification of what each query returns. Connection failure is one `reachable` flag. Transactions, timeouts and concurrency are not modelled.
- Case folding is ASCII only: `strings.ToLower` and SQL `LOWER` on non-ASCII letters are not modelled.
- `LIKE` wildcards: a `%` or `_` inside the name passed to `matchesName` is treated as a literal character, and so is a `\`, PostgreSQL's default LIKE escape character.
- Name ordering is code-point order. Database collations are not modelled.
- Ties in the ORDER BY clauses: the model keeps table order (a stable sort), while PostgreSQL leaves the order of tied rows unspecified. This covers three kinds of tie. Resources can tie on rating and name. Version rows can tie on their cast key, as "1.0" and "01.0" do, and that decides which tied row `VersionsByID` reports as the latest. Tags can tie on `tags.name`. The `version = ?` preload has no ORDER BY at all, so PostgreSQL may return its rows in any order. The model takes table order, and that order decides which of several matching rows `ByTypeNameVersion` keeps as the first.
- Rating is an integer. The response type's floating-point rating is not modelled.
- `UpdatedAt` is an opaque string. `UTC().String()` formatting is not modelled.
- `orderByVersion` input: PostgreSQL's int4 input also accepts leading and trailing blanks and a sign. The model accepts digit strings only.
- The `initResource` panic on a resource with no versions: the model rules it out by a precondition (`Model.Valid` on Query and List) instead of modelling the panic.
- `Fetch.RunFindAll`, `Fetch.RunFindVersions` and `Fetch.RunFindOne` stand for the one `Find` call each operation makes. The loops of `resourcesForQuery` and `VersionsByID` are in `Service.InitResources` and `Service.MinVersions`; the operations call them.
- Go pointers and `nil` results: responses are values, and an error result carries no value.

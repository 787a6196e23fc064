/**
 * The catalog of known mods (`mods.json`) and the two lookups the installer
 * makes in it: by remote URL and by name. Both lookups use exact string
 * equality and return the first match, as `Array.prototype.find` and
 * `findIndex` do.
 */
module Catalog {
  import opened Options

  /**
   * One catalog record. `name`, `labelText` (the record's `label` field) and
   * `remark` may be absent (`null` or `undefined`), which the catalog merge
   * tests for. `extra` holds every other field, by key, with its JSON text;
   * the merge carries it over untouched and an appended record has none.
   */
  datatype CatalogEntry = CatalogEntry(
    name: Option<string>,
    labelText: Option<string>,
    remote: string,
    remark: Option<string>,
    extra: map<string, string>)

  /** The index of the first entry whose remote is `url`, if any. */
  function IndexOfRemote(catalog: seq<CatalogEntry>, url: string): (r: Option<nat>)
    ensures r.Some? ==> r.value < |catalog| && catalog[r.value].remote == url
    ensures r.Some? ==> forall j :: 0 <= j < r.value ==> catalog[j].remote != url
    ensures r.None? ==> forall j :: 0 <= j < |catalog| ==> catalog[j].remote != url
  {
    if catalog == [] then None
    else if catalog[0].remote == url then Some(0)
    else match IndexOfRemote(catalog[1..], url)
      case None => None
      case Some(k) => Some(k + 1)
  }

  /** `isModRemote`: some catalog entry has exactly this remote. */
  function IsModRemote(catalog: seq<CatalogEntry>, url: string): (b: bool)
    ensures b <==> exists j :: 0 <= j < |catalog| && catalog[j].remote == url
  {
    IndexOfRemote(catalog, url).Some?
  }

  /** The name of the first catalog entry with this remote (`mods.find(...).name`). */
  function ModNameFor(catalog: seq<CatalogEntry>, url: string): (r: Option<string>)
    requires IsModRemote(catalog, url)
    ensures forall j :: (0 <= j < |catalog| && catalog[j].remote == url
                         && forall k :: 0 <= k < j ==> catalog[k].remote != url) ==> r == catalog[j].name
  {
    catalog[IndexOfRemote(catalog, url).value].name
  }

  /** The index of the first entry whose name is exactly `name`, if any. */
  function IndexOfName(catalog: seq<CatalogEntry>, name: string): (r: Option<nat>)
    ensures r.Some? ==> r.value < |catalog| && catalog[r.value].name == Some(name)
    ensures r.Some? ==> forall j :: 0 <= j < r.value ==> catalog[j].name != Some(name)
    ensures r.None? ==> forall j :: 0 <= j < |catalog| ==> catalog[j].name != Some(name)
  {
    if catalog == [] then None
    else if catalog[0].name == Some(name) then Some(0)
    else match IndexOfName(catalog[1..], name)
      case None => None
      case Some(k) => Some(k + 1)
  }
}

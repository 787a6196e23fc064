/**
 * The catalog merge (`update-masterlist.js`): provider records, grouped by
 * category, are folded one at a time into the catalog. Records that are not
 * git providers are skipped; a provider whose url is already some entry's
 * remote fills in that entry's missing fields in place; any other provider
 * is appended as a new entry. Later providers see the entries earlier ones
 * added or changed.
 */
module Masterlist {
  import opened Options
  import opened Catalog
  import opened Labels

  /** The record a provider key maps to: its `type`, display `name` and repository `url`. */
  datatype ProviderInfo = ProviderInfo(kind: string, name: string, url: string)

  /** One category of the provider list, its `[key, info]` pairs in enumeration order. */
  datatype Category = Category(name: string, mods: seq<(string, ProviderInfo)>)

  /** One provider record with the category and key it was found under. */
  datatype Provider = Provider(category: string, key: string, info: ProviderInfo)

  /** The providers of one category, in enumeration order. */
  function CategoryProviders(c: Category): (r: seq<Provider>)
    ensures |r| == |c.mods|
    ensures forall p :: p in r <==> p.category == c.name && (p.key, p.info) in c.mods
  {
    var r := seq(|c.mods|, i requires 0 <= i < |c.mods| => Provider(c.name, c.mods[i].0, c.mods[i].1));
    assert forall p: Provider :: p.category == c.name && (p.key, p.info) in c.mods ==> p in r by {
      forall p: Provider | p.category == c.name && (p.key, p.info) in c.mods
        ensures p in r
      {
        var i :| 0 <= i < |c.mods| && c.mods[i] == (p.key, p.info);
        assert r[i] == p;
      }
    }
    r
  }

  /** A category's providers are visited in entry order: its entries split anywhere split its providers there. */
  lemma {:induction false} CategoryProvidersAppend(n: string, a: seq<(string, ProviderInfo)>, b: seq<(string, ProviderInfo)>)
    ensures CategoryProviders(Category(n, a + b)) == CategoryProviders(Category(n, a)) + CategoryProviders(Category(n, b))
  {
    var l := CategoryProviders(Category(n, a + b));
    var r := CategoryProviders(Category(n, a)) + CategoryProviders(Category(n, b));
    assert |l| == |r|;
    forall i | 0 <= i < |l|
      ensures l[i] == r[i]
    {
      if i < |a| {
        assert (a + b)[i] == a[i];
      } else {
        assert (a + b)[i] == b[i - |a|];
      }
    }
  }

  /** One entry becomes the one provider with its key and record. */
  lemma CategoryProvidersSingle(n: string, k: string, info: ProviderInfo)
    ensures CategoryProviders(Category(n, [(k, info)])) == [Provider(n, k, info)]
  {
    var r := CategoryProviders(Category(n, [(k, info)]));
    assert r[0] in r;
  }

  /** The order the two nested loops visit providers in: every provider of every category. */
  function Flatten(categories: seq<Category>): (r: seq<Provider>)
    ensures forall p :: p in r <==> exists c :: c in categories && p.category == c.name && (p.key, p.info) in c.mods
  {
    if categories == [] then []
    else
      var r := CategoryProviders(categories[0]) + Flatten(categories[1..]);
      assert forall c :: c in categories <==> c == categories[0] || c in categories[1..];
      r
  }

  /** Categories are visited in order: flattening a concatenation concatenates the flattenings. */
  lemma {:induction false} FlattenAppend(a: seq<Category>, b: seq<Category>)
    ensures Flatten(a + b) == Flatten(a) + Flatten(b)
  {
    if a == [] {
      assert a + b == b;
    } else {
      assert (a + b)[0] == a[0] && (a + b)[1..] == a[1..] + b;
      FlattenAppend(a[1..], b);
    }
  }

  predicate IsGit(p: Provider) {
    p.info.kind == "git"
  }

  /** JavaScript truthiness of a string field: present and not empty. */
  predicate Truthy(s: Option<string>) {
    s.Some? && s.value != ""
  }

  /**
   * An entry after a matching provider: `name ?? info.name`,
   * `label ?? TitleCase(info.name)`, `remark || TitleCase(category)`, and
   * every other field, the remote included, carried over.
   */
  function MatchedEntry(prev: CatalogEntry, p: Provider): (r: CatalogEntry)
    ensures r.remote == prev.remote && r.extra == prev.extra
    ensures prev.name.Some? ==> r.name == prev.name
    ensures prev.name.None? ==> r.name == Some(p.info.name)
    ensures prev.labelText.Some? ==> r.labelText == prev.labelText
    ensures prev.labelText.None? ==> r.labelText == Some(TitleCase(p.info.name))
    ensures Truthy(prev.remark) ==> r.remark == prev.remark
    ensures !Truthy(prev.remark) ==> r.remark == Some(TitleCase(p.category))
  {
    prev.(name := if prev.name.Some? then prev.name else Some(p.info.name),
         labelText := if prev.labelText.Some? then prev.labelText else Some(TitleCase(p.info.name)),
         remark := if Truthy(prev.remark) then prev.remark else Some(TitleCase(p.category)))
  }

  /**
   * The entry an unmatched git provider appends: named by its key, with the
   * provider's url as remote, no other field, and a label and remark that are
   * the provider name and the category with every separator gone.
   */
  function AppendedEntry(p: Provider): (r: CatalogEntry)
    ensures r.name == Some(p.key) && r.remote == p.info.url && r.extra == map[]
    ensures r.labelText == Some(TitleCase(p.info.name)) && r.remark == Some(TitleCase(p.category))
    ensures r.labelText.Some? && |r.labelText.value| == |p.info.name|
    ensures forall k :: 0 <= k < |r.labelText.value| ==> !IsSeparator(r.labelText.value[k])
    ensures r.remark.Some? && |r.remark.value| == |p.category|
    ensures forall k :: 0 <= k < |r.remark.value| ==> !IsSeparator(r.remark.value[k])
  {
    TitleCaseNoSeparators(p.info.name);
    TitleCaseNoSeparators(p.category);
    CatalogEntry(Some(p.key), Some(TitleCase(p.info.name)), p.info.url, Some(TitleCase(p.category)), map[])
  }

  /** One step of the merge loop. */
  function MergeProvider(catalog: seq<CatalogEntry>, p: Provider): (r: seq<CatalogEntry>)
    ensures !IsGit(p) ==> r == catalog
    ensures IsGit(p) && IsModRemote(catalog, p.info.url) ==>
              var i := IndexOfRemote(catalog, p.info.url).value;
              |r| == |catalog| && r[i] == MatchedEntry(catalog[i], p)
              && forall j :: 0 <= j < |r| && j != i ==> r[j] == catalog[j]
    ensures IsGit(p) && !IsModRemote(catalog, p.info.url) ==> r == catalog + [AppendedEntry(p)]
  {
    if !IsGit(p) then catalog
    else match IndexOfRemote(catalog, p.info.url)
      case Some(i) => catalog[i := MatchedEntry(catalog[i], p)]
      case None => catalog + [AppendedEntry(p)]
  }

  /** The merge loop over providers in visiting order. */
  function MergeAll(catalog: seq<CatalogEntry>, ps: seq<Provider>): (r: seq<CatalogEntry>)
    ensures |catalog| <= |r| <= |catalog| + |ps|
    decreases |ps|
  {
    if ps == [] then catalog else MergeAll(MergeProvider(catalog, ps[0]), ps[1..])
  }

  /** How many git providers there are. */
  function GitCount(ps: seq<Provider>): (n: nat)
    ensures n <= |ps|
  {
    if ps == [] then 0 else (if IsGit(ps[0]) then 1 else 0) + GitCount(ps[1..])
  }

  /**
   * `after` is what `prev` may become: the remote and every other field are
   * kept, and a present name, a present label or a truthy remark is never
   * overwritten.
   */
  predicate Keeps(prev: CatalogEntry, after: CatalogEntry) {
    && after.remote == prev.remote
    && after.extra == prev.extra
    && (prev.name.Some? ==> after.name == prev.name)
    && (prev.labelText.Some? ==> after.labelText == prev.labelText)
    && (Truthy(prev.remark) ==> after.remark == prev.remark)
  }

  /** No two catalog entries share a remote. */
  predicate UniqueRemotes(catalog: seq<CatalogEntry>) {
    forall i, j :: 0 <= i < j < |catalog| ==> catalog[i].remote != catalog[j].remote
  }

  /** Merging a concatenation merges the first part, then the second. */
  lemma {:induction false} MergeAllAppend(catalog: seq<CatalogEntry>, a: seq<Provider>, b: seq<Provider>)
    ensures MergeAll(catalog, a + b) == MergeAll(MergeAll(catalog, a), b)
    decreases |a|
  {
    if a == [] {
      assert a + b == b;
    } else {
      assert (a + b)[1..] == a[1..] + b;
      MergeAllAppend(MergeProvider(catalog, a[0]), a[1..], b);
    }
  }

  /**
   * The catalog never shrinks, every git provider adds at most one entry,
   * and every original entry stays at its index with its remote and its
   * present fields kept.
   */
  lemma {:induction false} MergeAllKeepsEntries(catalog: seq<CatalogEntry>, ps: seq<Provider>)
    ensures |catalog| <= |MergeAll(catalog, ps)| <= |catalog| + GitCount(ps)
    ensures forall i :: 0 <= i < |catalog| ==> Keeps(catalog[i], MergeAll(catalog, ps)[i])
    decreases |ps|
  {
    if ps != [] {
      var next := MergeProvider(catalog, ps[0]);
      MergeAllKeepsEntries(next, ps[1..]);
      var r := MergeAll(catalog, ps);
      forall i | 0 <= i < |catalog|
        ensures Keeps(catalog[i], r[i])
      {
        assert Keeps(catalog[i], next[i]);
        assert Keeps(next[i], r[i]);
      }
    }
  }

  /** Providers that are not git providers leave the catalog as it is. */
  lemma {:induction false} MergeAllSkipsNonGit(catalog: seq<CatalogEntry>, ps: seq<Provider>)
    requires forall i :: 0 <= i < |ps| ==> !IsGit(ps[i])
    ensures MergeAll(catalog, ps) == catalog
    decreases |ps|
  {
    if ps != [] {
      assert !IsGit(ps[0]);
      MergeAllSkipsNonGit(catalog, ps[1..]);
    }
  }

  /** After the merge, the url of every git provider is the remote of some entry. */
  lemma {:induction false} MergeAllCovers(catalog: seq<CatalogEntry>, ps: seq<Provider>)
    ensures forall i :: 0 <= i < |ps| && IsGit(ps[i]) ==> IsModRemote(MergeAll(catalog, ps), ps[i].info.url)
    decreases |ps|
  {
    if ps != [] {
      var next := MergeProvider(catalog, ps[0]);
      var r := MergeAll(catalog, ps);
      MergeAllCovers(next, ps[1..]);
      MergeAllKeepsEntries(next, ps[1..]);
      forall i | 0 <= i < |ps| && IsGit(ps[i])
        ensures IsModRemote(r, ps[i].info.url)
      {
        if i == 0 {
          var k :| 0 <= k < |next| && next[k].remote == ps[0].info.url;
          assert r[k].remote == next[k].remote;
        } else {
          assert ps[i] == ps[1..][i - 1];
        }
      }
    }
  }

  /** `url` is the url of some git provider in `ps`. */
  predicate IsGitUrl(ps: seq<Provider>, url: string) {
    exists i :: 0 <= i < |ps| && IsGit(ps[i]) && ps[i].info.url == url
  }

  /** Every entry the merge appends carries the url of a git provider. */
  lemma {:induction false} MergeAllAddsFromProviders(catalog: seq<CatalogEntry>, ps: seq<Provider>)
    ensures forall k :: |catalog| <= k < |MergeAll(catalog, ps)| ==> IsGitUrl(ps, MergeAll(catalog, ps)[k].remote)
    decreases |ps|
  {
    if ps != [] {
      var next := MergeProvider(catalog, ps[0]);
      var r := MergeAll(catalog, ps);
      MergeAllAddsFromProviders(next, ps[1..]);
      MergeAllKeepsEntries(next, ps[1..]);
      forall k | |catalog| <= k < |r|
        ensures IsGitUrl(ps, r[k].remote)
      {
        if k < |next| {
          assert next[k] == AppendedEntry(ps[0]);
          assert r[k].remote == next[k].remote;
          assert IsGit(ps[0]) && ps[0].info.url == r[k].remote;
        } else {
          assert IsGitUrl(ps[1..], r[k].remote);
          var i :| 0 <= i < |ps[1..]| && IsGit(ps[1..][i]) && ps[1..][i].info.url == r[k].remote;
          assert ps[i + 1] == ps[1..][i];
        }
      }
    }
  }

  /** The merge never introduces a second entry with a remote already present. */
  lemma {:induction false} MergeAllKeepsUnique(catalog: seq<CatalogEntry>, ps: seq<Provider>)
    ensures UniqueRemotes(catalog) ==> UniqueRemotes(MergeAll(catalog, ps))
    decreases |ps|
  {
    if ps != [] && UniqueRemotes(catalog) {
      var next := MergeProvider(catalog, ps[0]);
      forall i, j | 0 <= i < j < |next|
        ensures next[i].remote != next[j].remote
      {
        if j < |catalog| {
          assert next[i].remote == catalog[i].remote && next[j].remote == catalog[j].remote;
        } else {
          assert next[i].remote == catalog[i].remote;
        }
      }
      MergeAllKeepsUnique(next, ps[1..]);
    }
  }

  /**
   * `updateMasterlist`: every provider of every category, in order, merged
   * into the catalog. The catalog never shrinks, each git provider adds at
   * most one entry, original entries keep their index, remote and present
   * fields, and every git provider's url ends up as some entry's remote.
   */
  function Merge(catalog: seq<CatalogEntry>, categories: seq<Category>): (r: seq<CatalogEntry>)
    ensures |catalog| <= |r| <= |catalog| + GitCount(Flatten(categories))
    ensures forall i :: 0 <= i < |catalog| ==> Keeps(catalog[i], r[i])
    ensures forall c, m :: c in categories && m in c.mods && m.1.kind == "git" ==> IsModRemote(r, m.1.url)
    ensures UniqueRemotes(catalog) ==> UniqueRemotes(r)
  {
    var ps := Flatten(categories);
    MergeAllKeepsEntries(catalog, ps);
    MergeAllCovers(catalog, ps);
    MergeAllKeepsUnique(catalog, ps);
    var r := MergeAll(catalog, ps);
    assert forall c, m :: c in categories && m in c.mods && m.1.kind == "git" ==> IsModRemote(r, m.1.url) by {
      forall c, m | c in categories && m in c.mods && m.1.kind == "git"
        ensures IsModRemote(r, m.1.url)
      {
        var p := Provider(c.name, m.0, m.1);
        assert p in ps;
        var i :| 0 <= i < |ps| && ps[i] == p;
        assert IsGit(ps[i]);
      }
    }
    r
  }
}

/**
 * The installer's state transitions (`index.js`): rebuilding the stored list
 * of installed mods from the mod directory, installing one catalog mod,
 * pulling every installed mod, and the list of mods still installable.
 *
 * The persisted configuration is an explicit `Store` value passed in and
 * returned. Everything the code learns from git or the filesystem arrives as
 * input: the directory listing, one `Probe` outcome per directory, whether
 * the clone succeeded, and whether each pull succeeded.
 */
module Installer {
  import opened Options
  import opened Catalog

  /** One element of the stored `installed-mods` list. */
  datatype InstalledEntry = InstalledEntry(name: string, mod: Option<string>, dir: string, remote: string)

  /**
   * The `installed-mods` configuration field: `Unset` until the first
   * reconciliation writes it (reading it then yields `undefined`).
   */
  datatype Store = Unset | Stored(entries: seq<InstalledEntry>)

  /** What opening one directory as a git repository and reading its remotes yields. */
  datatype Probe =
    | RepoRejected                    // creating the repository handle throws, outside the guarded block
    | GitFailed                       // fetching or listing the remotes throws, inside the guarded block
    | Remotes(fetchUrls: seq<string>) // the fetch URL of every configured remote, in order

  /** `path.join(root, name)` for a plain entry name. */
  function Join(root: string, name: string): (r: string)
    ensures |r| >= |name| && r[|r| - |name|..] == name
    ensures root == [] ==> r == name
    ensures root != [] ==> |root| <= |r| - |name| <= |root| + 1 && r[..|root|] == root && r[|r| - |name| - 1] == '/'
    ensures root != [] ==> (root[|root| - 1] == '/' <==> |r| == |root| + |name|)
  {
    if root == [] then name
    else if root[|root| - 1] == '/' then root + name
    else root + "/" + name
  }

  predicate OccursAt(s: string, sub: string, i: nat) {
    i + |sub| <= |s| && s[i..i + |sub|] == sub
  }

  /** `s.indexOf(sub, from)`: the first position at or after `from` where `sub` occurs, or -1. */
  function IndexOf(s: string, sub: string, from: nat): (r: int)
    requires from <= |s|
    ensures r == -1 || (from <= r <= |s| && OccursAt(s, sub, r))
    ensures r == -1 <==> forall i :: from <= i <= |s| ==> !OccursAt(s, sub, i)
    ensures r >= 0 ==> forall i :: from <= i < r ==> !OccursAt(s, sub, i)
    decreases |s| - from
  {
    if OccursAt(s, sub, from) then from
    else if from == |s| then -1
    else IndexOf(s, sub, from + 1)
  }

  /** `sub` occurs somewhere in `s`. */
  predicate Contains(s: string, sub: string) {
    exists i :: 0 <= i <= |s| && OccursAt(s, sub, i)
  }

  /**
   * Directory entries the reconciliation never opens: hidden ones, the
   * `Icon\r` artefact, and any name with `.txt` anywhere in it.
   */
  predicate IsIgnored(f: string): (b: bool)
    ensures b <==> (|f| > 0 && f[0] == '.') || f == "Icon\r" || Contains(f, ".txt")
  {
    (|f| > 0 && f[0] == '.') || f == "Icon\r" || IndexOf(f, ".txt", 0) > -1
  }

  // ---------------------------------------------------------------------------
  // Reconciliation (`init`)
  // ---------------------------------------------------------------------------

  /**
   * What the reconciliation makes of one directory entry: an installed entry
   * when its first remote's fetch URL is a catalog remote, nothing otherwise.
   * A repository without remotes fails inside the guarded block (the first
   * remote is missing), so it contributes nothing either.
   */
  function DeriveEntry(root: string, catalog: seq<CatalogEntry>, probe: string -> Probe, f: string): (r: Option<InstalledEntry>)
    ensures r.Some? <==> Yields(catalog, probe(Join(root, f)))
    ensures !IsIgnored(f) ==> forall e :: r == Some(e) <==> DerivedFrom(root, catalog, probe, f, e)
  {
    var dir := Join(root, f);
    match probe(dir)
    case Remotes(urls) =>
      if |urls| > 0 && IsModRemote(catalog, urls[0])
      then Some(InstalledEntry(f, ModNameFor(catalog, urls[0]), dir, urls[0]))
      else None
    case _ => None
  }

  /**
   * The declarative reading of one reconciled entry `e` for directory entry
   * `f`: `f` is not ignored, `e` is named after it and lives at the joined
   * path, the probe of that path found remotes, `e.remote` is the first one
   * and belongs to the catalog, and `e.mod` names the first catalog entry
   * with that remote.
   */
  predicate DerivedFrom(root: string, catalog: seq<CatalogEntry>, probe: string -> Probe, f: string, e: InstalledEntry) {
    && !IsIgnored(f)
    && e.name == f
    && e.dir == Join(root, f)
    && probe(e.dir).Remotes?
    && |probe(e.dir).fetchUrls| > 0
    && probe(e.dir).fetchUrls[0] == e.remote
    && IsModRemote(catalog, e.remote)
    && e.mod == ModNameFor(catalog, e.remote)
  }

  /** What one directory entry adds to the stored list: its derived entry, if it is probed and yields one. */
  function Contribution(root: string, catalog: seq<CatalogEntry>, probe: string -> Probe, f: string): (r: seq<InstalledEntry>)
    ensures |r| <= 1
    ensures forall e :: e in r <==> DerivedFrom(root, catalog, probe, f, e)
  {
    if IsIgnored(f) then []
    else match DeriveEntry(root, catalog, probe, f)
      case None => []
      case Some(e) => [e]
  }

  /** The list the reconciliation stores: every derived entry, in listing order. */
  function Scan(root: string, catalog: seq<CatalogEntry>, probe: string -> Probe, files: seq<string>): (r: seq<InstalledEntry>)
    ensures |r| <= |files|
  {
    if files == [] then []
    else Contribution(root, catalog, probe, files[0]) + Scan(root, catalog, probe, files[1..])
  }

  /** Some entry that is not ignored makes creating its repository handle throw. */
  predicate Rejected(root: string, probe: string -> Probe, files: seq<string>) {
    exists i :: 0 <= i < |files| && !IsIgnored(files[i]) && probe(Join(root, files[i])).RepoRejected?
  }

  datatype ReconcileOutcome =
    | Refreshed      // the stored list was replaced
    | ListingFailed  // the directory could not be listed
    | BatchRejected  // one probe rejected outside its guard, so the joined batch rejected

  /**
   * `init`: list the directory, probe every entry that is not ignored, and
   * replace the stored list with the entries whose remote is in the catalog.
   * `listing` is `None` when reading the directory fails.
   */
  function Reconcile(root: string, catalog: seq<CatalogEntry>, listing: Option<seq<string>>,
                     probe: string -> Probe, prior: Store): (r: (ReconcileOutcome, Store))
    ensures r.0 != Refreshed ==> r.1 == prior
    ensures r.0 == ListingFailed <==> listing.None?
    ensures r.0 == BatchRejected <==> listing.Some? && Rejected(root, probe, listing.value)
    ensures r.0 == Refreshed ==> r.1 == Stored(Scan(root, catalog, probe, listing.value))
    ensures r.0 == Refreshed ==> |r.1.entries| <= |listing.value|
    ensures r.0 == Refreshed ==> forall e :: e in r.1.entries <==>
              e.name in listing.value && DerivedFrom(root, catalog, probe, e.name, e)
  {
    match listing
    case None => (ListingFailed, prior)
    case Some(files) =>
      if Rejected(root, probe, files) then (BatchRejected, prior)
      else
        var entries := Scan(root, catalog, probe, files);
        assert forall e :: e in entries <==> e.name in files && DerivedFrom(root, catalog, probe, e.name, e) by {
          forall e
            ensures e in entries <==> e.name in files && DerivedFrom(root, catalog, probe, e.name, e)
          {
            ScanMembers(root, catalog, probe, files, e);
          }
        }
        (Refreshed, Stored(entries))
  }

  /** The stored list follows directory-listing order: scanning a concatenation concatenates the scans. */
  lemma {:induction false} ScanAppend(root: string, catalog: seq<CatalogEntry>, probe: string -> Probe, a: seq<string>, b: seq<string>)
    ensures Scan(root, catalog, probe, a + b) == Scan(root, catalog, probe, a) + Scan(root, catalog, probe, b)
  {
    if a == [] {
      assert a + b == b;
    } else {
      assert (a + b)[0] == a[0] && (a + b)[1..] == a[1..] + b;
      ScanAppend(root, catalog, probe, a[1..], b);
    }
  }

  /** Every directory entry that yields a catalog remote is in the stored list: membership both ways. */
  lemma {:induction false} ScanMembers(root: string, catalog: seq<CatalogEntry>, probe: string -> Probe, files: seq<string>, e: InstalledEntry)
    ensures e in Scan(root, catalog, probe, files) <==> e.name in files && DerivedFrom(root, catalog, probe, e.name, e)
  {
    if files != [] {
      ScanMembers(root, catalog, probe, files[1..], e);
      assert e.name in files <==> e.name == files[0] || e.name in files[1..];
    }
  }

  /** A probe outcome names remotes and the first of them is a catalog remote. */
  predicate Yields(catalog: seq<CatalogEntry>, outcome: Probe) {
    outcome.Remotes? && |outcome.fetchUrls| > 0 && IsModRemote(catalog, outcome.fetchUrls[0])
  }

  /**
   * An entry that is ignored, whose probe fails inside the guard, that has no
   * remote, or whose first remote is not in the catalog contributes nothing,
   * and the entries around it are reconciled as if it were absent.
   */
  lemma ScanSkips(root: string, catalog: seq<CatalogEntry>, probe: string -> Probe, a: seq<string>, f: string, b: seq<string>)
    requires IsIgnored(f) || !Yields(catalog, probe(Join(root, f)))
    ensures Scan(root, catalog, probe, a + [f] + b) == Scan(root, catalog, probe, a + b)
  {
    ScanAppend(root, catalog, probe, a + [f], b);
    ScanAppend(root, catalog, probe, a, [f]);
    ScanAppend(root, catalog, probe, a, b);
    assert Contribution(root, catalog, probe, f) == [];
    assert Scan(root, catalog, probe, [f]) == [];
  }

  /** The same, for a whole reconciliation run. */
  lemma ReconcileSkips(root: string, catalog: seq<CatalogEntry>, probe: string -> Probe,
                       a: seq<string>, f: string, b: seq<string>, prior: Store)
    requires IsIgnored(f) || (!probe(Join(root, f)).RepoRejected? && !Yields(catalog, probe(Join(root, f))))
    ensures Reconcile(root, catalog, Some(a + [f] + b), probe, prior) == Reconcile(root, catalog, Some(a + b), probe, prior)
  {
    ScanSkips(root, catalog, probe, a, f, b);
    RejectedSkips(root, probe, a, f, b);
  }

  /** An entry that is ignored or whose repository handle opens does not decide whether the batch rejects. */
  lemma RejectedSkips(root: string, probe: string -> Probe, a: seq<string>, f: string, b: seq<string>)
    requires IsIgnored(f) || !probe(Join(root, f)).RepoRejected?
    ensures Rejected(root, probe, a + [f] + b) == Rejected(root, probe, a + b)
  {
    var long := a + [f] + b;
    var short := a + b;
    if Rejected(root, probe, long) {
      var i :| 0 <= i < |long| && !IsIgnored(long[i]) && probe(Join(root, long[i])).RepoRejected?;
      if i < |a| {
        assert short[i] == long[i];
      } else {
        assert i != |a|;
        assert short[i - 1] == long[i];
      }
    }
    if Rejected(root, probe, short) {
      var i :| 0 <= i < |short| && !IsIgnored(short[i]) && probe(Join(root, short[i])).RepoRejected?;
      if i < |a| {
        assert long[i] == short[i];
      } else {
        assert long[i + 1] == short[i];
      }
    }
  }

  /** Ignored entries are never probed: what a probe says about them cannot change the scan. */
  lemma {:induction false} ScanIgnoresIgnored(root: string, catalog: seq<CatalogEntry>, p1: string -> Probe, p2: string -> Probe, files: seq<string>)
    requires forall i :: 0 <= i < |files| && !IsIgnored(files[i]) ==> p1(Join(root, files[i])) == p2(Join(root, files[i]))
    ensures Scan(root, catalog, p1, files) == Scan(root, catalog, p2, files)
  {
    if files != [] {
      ScanIgnoresIgnored(root, catalog, p1, p2, files[1..]);
    }
  }

  /** Ignored entries are never probed: what a probe says about them cannot change the outcome. */
  lemma ReconcileIgnoresIgnored(root: string, catalog: seq<CatalogEntry>, listing: Option<seq<string>>,
                                p1: string -> Probe, p2: string -> Probe, prior: Store)
    requires listing.Some? ==> forall i :: 0 <= i < |listing.value| && !IsIgnored(listing.value[i]) ==>
               p1(Join(root, listing.value[i])) == p2(Join(root, listing.value[i]))
    ensures Reconcile(root, catalog, listing, p1, prior) == Reconcile(root, catalog, listing, p2, prior)
  {
    if listing.Some? {
      ScanIgnoresIgnored(root, catalog, p1, p2, listing.value);
    }
  }

  /**
   * A refreshed list replaces the prior one wholesale: nothing of the prior
   * list survives unless it is derived again, so the result does not depend
   * on it, and running the reconciliation twice gives the same store.
   */
  lemma ReconcileReplacesPrior(root: string, catalog: seq<CatalogEntry>, listing: Option<seq<string>>,
                               probe: string -> Probe, prior1: Store, prior2: Store)
    ensures Reconcile(root, catalog, listing, probe, prior1).0 == Reconcile(root, catalog, listing, probe, prior2).0
    ensures Reconcile(root, catalog, listing, probe, prior1).0 == Refreshed ==>
              Reconcile(root, catalog, listing, probe, prior1).1 == Reconcile(root, catalog, listing, probe, prior2).1
    ensures var once := Reconcile(root, catalog, listing, probe, prior1).1;
            Reconcile(root, catalog, listing, probe, once).1 == once
  {
  }

  // ---------------------------------------------------------------------------
  // Lookups in the stored list (`isInstalledMod`)
  // ---------------------------------------------------------------------------

  /** How many stored entries have this remote: the length of the filtered list. */
  function CountRemote(entries: seq<InstalledEntry>, remote: string): (n: nat)
    ensures n <= |entries|
    ensures n == 0 <==> forall i :: 0 <= i < |entries| ==> entries[i].remote != remote
  {
    if entries == [] then 0
    else (if entries[0].remote == remote then 1 else 0) + CountRemote(entries[1..], remote)
  }

  /** `isInstalledMod` on a stored list: some stored entry has exactly this remote. */
  function IsInstalledMod(entries: seq<InstalledEntry>, remote: string): (b: bool)
    ensures b <==> exists i :: 0 <= i < |entries| && entries[i].remote == remote
  {
    CountRemote(entries, remote) > 0
  }

  lemma {:induction false} CountRemoteAppend(a: seq<InstalledEntry>, b: seq<InstalledEntry>, remote: string)
    ensures CountRemote(a + b, remote) == CountRemote(a, remote) + CountRemote(b, remote)
  {
    if a == [] {
      assert a + b == b;
    } else {
      assert (a + b)[1..] == a[1..] + b;
      CountRemoteAppend(a[1..], b, remote);
    }
  }

  /** No two stored entries share a remote. */
  predicate UniqueRemotes(entries: seq<InstalledEntry>) {
    forall i, j :: 0 <= i < j < |entries| ==> entries[i].remote != entries[j].remote
  }

  // ---------------------------------------------------------------------------
  // Install
  // ---------------------------------------------------------------------------

  datatype InstallOutcome =
    | UnknownMod        // no catalog entry has that name
    | NoStoredList      // the stored list was never written, so the installed check throws
    | AlreadyInstalled  // an installed entry already has the mod's remote
    | CloneFailed       // the clone threw; the failure is swallowed
    | Added             // cloned and registered

  /** The entry a successful install of catalog entry `m` under `name` appends. */
  function NewInstall(root: string, name: string, m: CatalogEntry): InstalledEntry {
    InstalledEntry(name, m.name, Join(root, name), m.remote)
  }

  /**
   * `install(name)`: look the name up in the catalog, refuse a mod whose
   * remote is already installed, clone it (`cloneSucceeds` is the clone's
   * outcome) and only then append its entry to the stored list.
   */
  function Install(catalog: seq<CatalogEntry>, store: Store, root: string, name: string, cloneSucceeds: bool): (r: (InstallOutcome, Store))
    ensures r.0 != Added ==> r.1 == store
    ensures r.0 == UnknownMod <==> forall j :: 0 <= j < |catalog| ==> catalog[j].name != Some(name)
    ensures r.0 == NoStoredList <==> IndexOfName(catalog, name).Some? && store.Unset?
    ensures var k := IndexOfName(catalog, name);
            r.0 == CloneFailed <==> !cloneSucceeds && k.Some? && store.Stored? && !IsInstalledMod(store.entries, catalog[k.value].remote)
    ensures var k := IndexOfName(catalog, name);
            r.0 == AlreadyInstalled <==> k.Some? && store.Stored? && IsInstalledMod(store.entries, catalog[k.value].remote)
    ensures var k := IndexOfName(catalog, name);
            r.0 == Added <==> cloneSucceeds && k.Some? && store.Stored? && !IsInstalledMod(store.entries, catalog[k.value].remote)
    ensures var k := IndexOfName(catalog, name);
            r.0 == Added ==> (k.Some? && store.Stored? && r.1.Stored?
              && r.1.entries == store.entries + [InstalledEntry(name, Some(name), Join(root, name), catalog[k.value].remote)])
  {
    match IndexOfName(catalog, name)
    case None => (UnknownMod, store)
    case Some(k) =>
      var m := catalog[k];
      if store.Unset? then (NoStoredList, store)
      else if IsInstalledMod(store.entries, m.remote) then (AlreadyInstalled, store)
      else if !cloneSucceeds then (CloneFailed, store)
      else (Added, Stored(store.entries + [NewInstall(root, name, m)]))
  }

  /** Installing the same name twice: the second attempt is refused and changes nothing. */
  lemma InstallTwice(catalog: seq<CatalogEntry>, store: Store, root: string, name: string, clone1: bool, clone2: bool)
    requires Install(catalog, store, root, name, clone1).0 == Added
    ensures var after := Install(catalog, store, root, name, clone1).1;
            Install(catalog, after, root, name, clone2) == (AlreadyInstalled, after)
  {
    var k := IndexOfName(catalog, name).value;
    var after := Install(catalog, store, root, name, clone1).1;
    assert after.entries[|after.entries| - 1].remote == catalog[k].remote;
  }

  /** After a successful install the mod's remote is stored exactly once. */
  lemma InstallRegistersOnce(catalog: seq<CatalogEntry>, store: Store, root: string, name: string, cloneSucceeds: bool)
    requires Install(catalog, store, root, name, cloneSucceeds).0 == Added
    ensures var m := catalog[IndexOfName(catalog, name).value];
            CountRemote(Install(catalog, store, root, name, cloneSucceeds).1.entries, m.remote) == 1
  {
    var m := catalog[IndexOfName(catalog, name).value];
    var e := NewInstall(root, name, m);
    CountRemoteAppend(store.entries, [e], m.remote);
    assert [e][1..] == [];
  }

  /** Install keeps stored remotes pairwise distinct. */
  lemma InstallKeepsUnique(catalog: seq<CatalogEntry>, store: Store, root: string, name: string, cloneSucceeds: bool)
    requires store.Stored? && UniqueRemotes(store.entries)
    ensures var after := Install(catalog, store, root, name, cloneSucceeds).1;
            after.Stored? && UniqueRemotes(after.entries)
  {
  }

  // ---------------------------------------------------------------------------
  // Update
  // ---------------------------------------------------------------------------

  /** The per-mod line of an update run: pulled, or failed with the mod's directory named. */
  datatype UpdateReport = Pulled(name: string, dir: string) | PullFailed(name: string, dir: string)

  /** One report per stored entry, in stored order. */
  function UpdateReports(entries: seq<InstalledEntry>, pullSucceeds: string -> bool): (r: seq<UpdateReport>)
    ensures |r| == |entries|
    ensures forall i :: 0 <= i < |r| ==> r[i].name == entries[i].name && r[i].dir == entries[i].dir
    ensures forall i :: 0 <= i < |r| ==> (r[i].Pulled? <==> pullSucceeds(entries[i].dir))
  {
    if entries == [] then []
    else
      var e := entries[0];
      [if pullSucceeds(e.dir) then Pulled(e.name, e.dir) else PullFailed(e.name, e.dir)]
        + UpdateReports(entries[1..], pullSucceeds)
  }

  /**
   * `update`: fetch and pull every stored mod; `pullSucceeds` is the outcome
   * per directory. It returns reports and no store: the stored list is only
   * read. `None` when the stored list was never written (mapping over it throws).
   */
  function Update(store: Store, pullSucceeds: string -> bool): (r: Option<seq<UpdateReport>>)
    ensures r.None? <==> store.Unset?
    ensures r.Some? ==> |r.value| == |store.entries|
    ensures r.Some? ==> forall i :: 0 <= i < |r.value| ==>
              r.value[i].name == store.entries[i].name && r.value[i].dir == store.entries[i].dir
              && (r.value[i].Pulled? <==> pullSucceeds(store.entries[i].dir))
  {
    match store
    case Unset => None
    case Stored(entries) => Some(UpdateReports(entries, pullSucceeds))
  }

  // ---------------------------------------------------------------------------
  // The installable list of `help`
  // ---------------------------------------------------------------------------

  /** The catalog entries whose remote is not stored, in catalog order. */
  function NotInstalled(catalog: seq<CatalogEntry>, entries: seq<InstalledEntry>): (r: seq<CatalogEntry>)
    ensures |r| <= |catalog|
    ensures forall i :: 0 <= i < |r| ==> r[i] in catalog && !IsInstalledMod(entries, r[i].remote)
  {
    if catalog == [] then []
    else (if IsInstalledMod(entries, catalog[0].remote) then [] else [catalog[0]]) + NotInstalled(catalog[1..], entries)
  }

  /** A catalog entry is installable exactly when it is in the catalog and its remote is not stored. */
  lemma {:induction false} NotInstalledMembers(catalog: seq<CatalogEntry>, entries: seq<InstalledEntry>, m: CatalogEntry)
    ensures m in NotInstalled(catalog, entries) <==> m in catalog && !IsInstalledMod(entries, m.remote)
  {
    if catalog != [] {
      NotInstalledMembers(catalog[1..], entries, m);
      assert m in catalog <==> m == catalog[0] || m in catalog[1..];
    }
  }

  /**
   * `mods.find(m => m.remote === remote).label` can be read: some catalog
   * entry has the remote, and the first one has a label.
   */
  predicate HasLabelledRecord(catalog: seq<CatalogEntry>, remote: string) {
    IsModRemote(catalog, remote) && catalog[IndexOfRemote(catalog, remote).value].labelText.Some?
  }

  /** The installed part of `help` prints every stored entry without throwing. */
  function InstalledListed(catalog: seq<CatalogEntry>, entries: seq<InstalledEntry>): (b: bool)
    ensures b <==> forall i :: 0 <= i < |entries| ==> HasLabelledRecord(catalog, entries[i].remote)
  {
    if entries == [] then true
    else HasLabelledRecord(catalog, entries[0].remote) && InstalledListed(catalog, entries[1..])
  }

  /** A catalog entry has the label and the name its installable line pads. */
  predicate Printable(m: CatalogEntry) {
    m.labelText.Some? && m.name.Some?
  }

  /** Every mod of the list can be printed. */
  function AllPrintable(ms: seq<CatalogEntry>): (b: bool)
    ensures b <==> forall i :: 0 <= i < |ms| ==> Printable(ms[i])
  {
    if ms == [] then true else Printable(ms[0]) && AllPrintable(ms[1..])
  }

  /**
   * The mods `help` lists as installable, or `None` when `help` throws before
   * the list is complete: when the stored list was never written and the
   * catalog is not empty (the installed check on the first catalog entry
   * throws), when a stored entry has no catalog record with a label (the
   * installed part reads its label), or when an installable mod has no label
   * or no name.
   */
  function Installable(catalog: seq<CatalogEntry>, store: Store): (r: Option<seq<CatalogEntry>>)
    ensures r.None? <==>
              || (store.Unset? && |catalog| > 0)
              || (store.Stored? && exists i :: 0 <= i < |store.entries| && !HasLabelledRecord(catalog, store.entries[i].remote))
              || (store.Stored? && exists m :: m in catalog && !IsInstalledMod(store.entries, m.remote) && !Printable(m))
    ensures r.Some? ==> forall m :: m in r.value <==> m in catalog && (store.Stored? ==> !IsInstalledMod(store.entries, m.remote))
    ensures r.Some? && store.Stored? ==> r.value == NotInstalled(catalog, store.entries)
  {
    match store
    case Unset => if catalog == [] then Some([]) else None
    case Stored(entries) =>
      if !InstalledListed(catalog, entries) then None
      else
        var r := NotInstalled(catalog, entries);
        assert forall m :: m in r <==> m in catalog && !IsInstalledMod(entries, m.remote) by {
          forall m
            ensures m in r <==> m in catalog && !IsInstalledMod(entries, m.remote)
          {
            NotInstalledMembers(catalog, entries, m);
          }
        }
        if AllPrintable(r) then Some(r) else None
  }

  /** The installable list keeps catalog order: filtering a concatenation concatenates the filters. */
  lemma {:induction false} NotInstalledAppend(a: seq<CatalogEntry>, b: seq<CatalogEntry>, entries: seq<InstalledEntry>)
    ensures NotInstalled(a + b, entries) == NotInstalled(a, entries) + NotInstalled(b, entries)
  {
    if a == [] {
      assert a + b == b;
    } else {
      assert (a + b)[0] == a[0] && (a + b)[1..] == a[1..] + b;
      NotInstalledAppend(a[1..], b, entries);
    }
  }

  /** Stored entries plus one more: a remote is installed exactly when it was before or is the new entry's. */
  lemma InstalledAfterAppend(entries: seq<InstalledEntry>, e: InstalledEntry, remote: string)
    ensures IsInstalledMod(entries + [e], remote) <==> IsInstalledMod(entries, remote) || e.remote == remote
  {
    var after := entries + [e];
    if IsInstalledMod(after, remote) {
      var i :| 0 <= i < |after| && after[i].remote == remote;
      if i < |entries| {
        assert entries[i] == after[i];
      }
    }
    if e.remote == remote {
      assert after[|entries|] == e;
    }
    if IsInstalledMod(entries, remote) {
      var i :| 0 <= i < |entries| && entries[i].remote == remote;
      assert after[i] == entries[i];
    }
  }

  /**
   * Appending an installed entry, as a successful install does, removes from
   * the installable list exactly the catalog mods sharing its remote.
   */
  lemma AppendShrinksInstallable(catalog: seq<CatalogEntry>, entries: seq<InstalledEntry>, e: InstalledEntry, m: CatalogEntry)
    ensures m in NotInstalled(catalog, entries + [e]) <==> m in NotInstalled(catalog, entries) && m.remote != e.remote
  {
    InstalledAfterAppend(entries, e, m.remote);
    NotInstalledMembers(catalog, entries + [e], m);
    NotInstalledMembers(catalog, entries, m);
  }
}

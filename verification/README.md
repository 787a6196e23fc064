# rw-lazy-installer: a Dafny model of the installer's state transitions

The installer is a small command-line tool that installs and updates RimWorld
mods by cloning and pulling git repositories listed in a catalog
(`mods.json`), and keeps a persisted list of installed mods. This project
models its three pieces of real logic as pure functions over sequences of
records and proves what they promise:

- **Reconciliation** (`init` in `index.js`, module `Installer`): the mod
  directory's entry names are filtered, every remaining entry is probed as a
  git checkout, each entry whose first remote is a catalog remote becomes an
  installed entry, and the result replaces the stored list wholesale, in
  directory-listing order.
- **Install, update and the installable list** (`install`, `update`,
  `isModRemote`, `isInstalledMod`, `help`; modules `Catalog` and
  `Installer`): guarded installation that appends one entry after a
  successful clone, a read-only update that reports per mod, and the catalog
  filtered to mods that are not installed.
- **Catalog merge** (`updateMasterlist` in `update-masterlist.js`, modules
  `Masterlist` and `Labels`): provider records are folded into the catalog,
  filling in missing fields of a matching entry or appending a new one, with
  labels and remarks produced by a title-case transform.

Side effects are inputs. The persisted `installed-mods` field is a `Store`
value (`Unset` before anything was written, or `Stored(entries)`) passed in
and returned. The directory listing is an `Option<seq<string>>` (`None` when
reading the directory fails). What git says about a directory is a function
`probe: string -> Probe` from directory path to outcome:

- `RepoRejected`: creating the repository handle throws. This happens outside the guarded block.
- `GitFailed`: fetching or reading the remotes throws inside the guarded block.
- `Remotes(urls)`: the fetch URLs of the configured remotes, in order.

The clone outcome is a boolean. The pull outcome is a function from directory to boolean.
Remote identity is exact string equality everywhere, as in the code; no
`.git`-suffix normalisation is applied.

Files: `options.dfy` (optional values), `catalog.dfy` (catalog record and
lookups), `installer.dfy` (`index.js`), `labels.dfy` (the title-case
transform), `masterlist.dfy` (`update-masterlist.js`).

Behaviour of the code worth noting:

- Remotes are compared exactly, with no `.git` normalisation.
- `update` starts one pull per stored entry, in stored order, and does not sort. Its lines print in completion order; the model lists its reports in stored order.
- There is no uninstall command.
- Duplicate remotes in the stored list are not prevented by reconciliation. Two directories with the same remote both appear.
- A directory listing failure is not reported separately. The callback throws and the stored list is left as it was.
- Before the first `list`, the stored field is unset. `update` then throws (`None`). `install` throws only for a name the catalog knows, because the unknown-name test comes first (`NoStoredList`). The installable part of `help` throws only when the catalog is not empty (`None`).
- `help` also throws when a stored entry's remote has no catalog record, or that record has no label. It throws too when an installable catalog entry has no label or no name (`Installable` is then `None`).
- One entry whose repository handle cannot be created rejects the joined batch, so the stored list is not replaced at all (`BatchRejected`).

## Model

| member | source | states |
|---|---|---|
| Catalog.IndexOfRemote | update-masterlist.js:21 | the index found is the first entry whose remote equals the url; `None` exactly when no entry has it |
| Catalog.IsModRemote | index.js:19-21 | true exactly when some catalog entry's remote equals the url |
| Catalog.ModNameFor | index.js:80 | the `mod` field of a reconciled entry is the name of the first catalog entry with that remote, whichever index that is |
| Catalog.IndexOfName | index.js:135 | the entry found is the first whose name is exactly the requested name; `None` exactly when no entry has that name |
| Installer.Join | index.js:72 | `path.join` of a root and an entry name: the name alone for an empty root, otherwise the root, one `/` (added only when the root does not end in one), then the name |
| Installer.IndexOf | index.js:69 | `indexOf`: -1 exactly when the text occurs nowhere from the start position on, otherwise the first position where it occurs |
| Installer.IsIgnored | index.js:69 | an entry name is skipped exactly when it starts with `.`, is `Icon\r`, or contains `.txt` anywhere |
| Installer.DeriveEntry | index.js:72-93 | a directory yields an entry exactly when its probe finds remotes and the first fetch URL is a catalog remote; for a name that is not skipped, the entry it yields is exactly the one described below |
| Installer.Contribution | index.js:71-94 | one directory entry adds at most one stored entry, and exactly the one that is named after it, lives at the joined path, has the probe's first fetch URL as remote, that remote is in the catalog, and `mod` names the first catalog entry with it |
| Installer.Scan | index.js:67-97 | the list of reconciled entries has at most one entry per listed name; its members and order are stated by the two lemmas below |
| Installer.Reconcile | index.js:62-102 | a listing failure or a rejected batch leaves the store untouched; otherwise the store becomes the scanned list, which holds an entry exactly when a listed name derives it as above |
| Installer.ScanMembers | index.js:68-97 | membership both ways: an entry is stored exactly when a listed, non-ignored name yields it as above, so foreign checkouts never appear and no catalog checkout is lost |
| Installer.ScanAppend | index.js:96-97 | the stored list follows directory-listing order: the scan of a concatenation is the concatenation of the scans |
| Installer.ScanSkips | index.js:91-93 | an ignored name, a failing probe, a checkout without remotes or with a foreign remote contributes nothing, and the others are reconciled as if it were absent |
| Installer.ReconcileSkips | index.js:91-97 | the same for a whole run, when the entry's repository handle opens |
| Installer.RejectedSkips | index.js:71-75 | an ignored entry, or one whose repository handle opens, does not decide whether the joined batch rejects |
| Installer.ScanIgnoresIgnored | index.js:68-70 | names starting with `.`, `Icon\r` and names containing `.txt` are never probed: changing their probe outcome changes nothing |
| Installer.ReconcileIgnoresIgnored | index.js:66-100 | the same for a whole run |
| Installer.ReconcileReplacesPrior | index.js:96-97 | the outcome and a refreshed list do not depend on the prior store, so reconciling twice gives the same store |
| Installer.CountRemote | index.js:24 | the filtered count is zero exactly when no stored entry has the remote |
| Installer.IsInstalledMod | index.js:22-25 | true exactly when some stored entry has exactly that remote |
| Installer.CountRemoteAppend | index.js:24 | the count over a concatenation is the sum of the counts |
| Installer.Install | index.js:133-165 | an unknown name, an unset store, an installed remote or a failed clone leave the store unchanged; each outcome holds exactly when its guard is the first to fail (unknown name, then unset store, then installed remote, then failed clone); `Added` holds exactly when the name is known, the store is set, the remote is not installed and the clone succeeded, and then exactly one entry `{name, mod: name, dir: join(root, name), remote}` is appended after the untouched old list |
| Installer.InstallTwice | index.js:139-140 | a second install of the same name is refused as already installed and changes nothing |
| Installer.InstallRegistersOnce | index.js:147-154 | after a successful install the mod's remote is stored exactly once |
| Installer.InstallKeepsUnique | index.js:139-154 | install keeps stored remotes pairwise distinct |
| Installer.UpdateReports | index.js:170-179 | one report per stored entry, in stored order, naming the entry and its directory, a success exactly when that entry's pull succeeded, whatever the other entries' outcomes |
| Installer.Update | index.js:167-184 | no report when the stored list is unset; otherwise one report per entry as above; no store is returned, so the stored list is only read |
| Installer.NotInstalled | index.js:125-129 | the filtered list is no longer than the catalog, and every mod in it is a catalog mod whose remote is not installed |
| Installer.NotInstalledMembers | index.js:125-129 | a catalog entry is listed exactly when it is in the catalog and its remote is not installed |
| Installer.InstalledListed | index.js:113-117 | the installed part of `help` completes exactly when every stored remote has a catalog record with a label |
| Installer.AllPrintable | index.js:125-129 | the installable lines can all be printed exactly when every listed mod has a label and a name |
| Installer.Installable | index.js:104-131 | `help` fails exactly when the store is unset and the catalog is not empty, or a stored remote has no labelled catalog record, or an installable mod lacks a label or a name; otherwise the list holds exactly the catalog entries whose remote is not installed, in catalog order |
| Installer.NotInstalledAppend | index.js:125-129 | the installable list keeps catalog order |
| Installer.InstalledAfterAppend | index.js:22-25 | after one entry is appended, a remote is installed exactly when it was before or is the new entry's |
| Installer.AppendShrinksInstallable | index.js:125-154 | after the append a successful install makes, a mod is installable exactly when it was before and does not share the new entry's remote |
| Labels.ToUpper | update-masterlist.js:27 | of the characters a match can hold, only `a`-`z` change, each to its `A`-`Z` counterpart; word characters stay word characters |
| Labels.SpaceRunEnd | update-masterlist.js:27 | the greedy `\s+` run from a position: every character before its end is whitespace, and the character at its end, if any, is not |
| Labels.ReplaceSeparators | update-masterlist.js:27 | every `-` and `_` becomes a space and every other character is kept |
| Labels.UpcaseWordStarts | update-masterlist.js:27 | the regular-expression replacement keeps the length of the scanned text; its per-character effect is the next row |
| Labels.UpcaseWordStartsChars | update-masterlist.js:35 | the global `^\w` / `\s+\w` replacement, scanned as the regular expression runs, upper-cases exactly the word characters at position 0 or after whitespace and keeps all else |
| Labels.TitleCase | update-masterlist.js:27-28 | the label transform keeps the length |
| Labels.TitleCaseChars | update-masterlist.js:27-28 | the label transform keeps the length, turns separators into spaces, upper-cases exactly the word characters that start the string or follow whitespace or a separator, and keeps every other character |
| Labels.TitleCaseNoSeparators | update-masterlist.js:35-37 | no `-` or `_` survives the transform |
| Labels.TitleCaseIdempotent | update-masterlist.js:27-28 | transforming a transformed label changes nothing |
| Masterlist.CategoryProviders | update-masterlist.js:14-18 | a provider is visited in a category exactly when its key and record are among that category's entries, once per entry |
| Masterlist.CategoryProvidersAppend | update-masterlist.js:14-18 | a category's providers are visited in entry order: splitting its entries splits its providers at the same place |
| Masterlist.CategoryProvidersSingle | update-masterlist.js:18 | one entry `[key, info]` is visited as exactly one provider with that category, key and record |
| Masterlist.Flatten | update-masterlist.js:13-18 | the nested loops visit a provider exactly when some category holds its key and record |
| Masterlist.FlattenAppend | update-masterlist.js:13 | categories are visited in order: the providers of earlier categories come first |
| Masterlist.MatchedEntry | update-masterlist.js:23-29 | remote and every other field are kept; a present name or label is kept, an absent one becomes the provider name or its title case; a truthy remark is kept, otherwise it becomes the title-cased category |
| Masterlist.AppendedEntry | update-masterlist.js:33-38 | an appended entry is named by the provider key, has the provider url as remote and no other field, its label is the title case of the provider name and its remark the title case of the category, so both keep the input length and hold no separator |
| Masterlist.MergeProvider | update-masterlist.js:18-41 | a non-git provider changes nothing; a provider whose url is some remote replaces the first such entry at its index, length and every other entry unchanged; any other provider appends one entry at the end |
| Masterlist.MergeAll | update-masterlist.js:13-42 | the merge never shrinks the catalog and adds at most one entry per provider |
| Masterlist.MergeAllAppend | update-masterlist.js:13-43 | merging a concatenation merges the first part, then the second on its result |
| Masterlist.MergeAllKeepsEntries | update-masterlist.js:18-42 | the catalog never shrinks, grows by at most one entry per git provider, and every original entry keeps its index, remote and present fields |
| Masterlist.MergeAllSkipsNonGit | update-masterlist.js:19 | providers none of which is a git provider leave the catalog unchanged |
| Masterlist.MergeAllCovers | update-masterlist.js:21-38 | after the merge every git provider's url is some entry's remote |
| Masterlist.MergeAllAddsFromProviders | update-masterlist.js:33-38 | every appended entry's remote is the url of some git provider |
| Masterlist.MergeAllKeepsUnique | update-masterlist.js:21-38 | a catalog without duplicate remotes keeps none after the merge |
| Masterlist.Merge | update-masterlist.js:12-43 | the whole merge over all categories: no shrinking, at most one entry per git provider, original entries kept at their index, the url of every git record in every category covered, unique remotes preserved |

## Left out

- Filesystem and network access (`fs.readdir`, `readFile`, `writeFile`, `https.get`) and JSON parsing and serialisation: the listing, catalog and provider records are inputs, and the merged catalog is the output.
- The git calls (fetch, getRemotes, clone, pull): they become the `Probe` outcome per directory, the clone flag and the pull outcome per directory.
- Concurrency of the probes and pulls: the joined results keep input order, so the model is a sequential map. Console lines printed in completion order are presentation.
- Argument parsing, colouring, padding and every console message, including the "Installed" line printed after a swallowed clone failure and the failure message that interpolates `mod.name` of a string.
- The `debug` command: it only prints. The installed part of `help` is modelled only for the throws it can raise (`InstalledListed`); its printed lines are presentation.
- Join: models `path.join` as concatenation with a single `/`. It does not normalise `.`, `..` or repeated slashes in a name passed to `install`.
- Object key order: `Object.entries` puts integer-like keys first, in ascending order. The model takes categories and providers in the order given.
- Provider and catalog fields of the wrong type: a provider `name` or `url` that is missing, a non-string `remark`, and a catalog `label` or `name` that is present but not a string (which would make `help` throw too) are not modelled. Remotes and urls are strings, so loose `==` is string equality.
- CatalogEntry: `extra` holds every field other than name, label, remote and remark, by key, as JSON text. The merge's spread carries it over unchanged; the model does not interpret it.
- Installer.Scan: its own contract bounds only the length. Membership both ways is stated by `ScanMembers` and listing order by `ScanAppend`, and `Reconcile` carries both. This keeps the proofs about `Scan` small.

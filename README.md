# esy-install's opam pipeline, modelled in Dafny

esy-install can install packages from the opam repository. It presents each one as
an npm package in the `@opam` scope. This project models the part of the installer
that does that:

- **resolution.** A request `@opam/<name>@<range>` is parsed. The package's spec
  directories in the opam repository checkout are converted into a collection of
  manifests keyed by version. The versions the OCaml compiler in use accepts are kept,
  one is selected, and the chosen manifest is normalised and given its first `_uid`.
- **overrides.** The manifest is rewritten by the override store, a git checkout of
  per-package `package.json`/`package.yaml` files filed under `<name>.<range>`
  directories. A package with overrides gets a new `_uid` digest. The resolver then
  stamps the manifest with its `_remote` record.
- **fetching.** The fetcher downloads the package's source archive, checking its md5
  when an md5 is expected. It chooses how to unpack the archive, applies the patches
  in order, cleaning up each patch file, and packs the result as an npm tarball whose
  entries live under `package/`.
- **helpers.** Two helpers are modelled as well:
  - the opam `urls.txt` archive index, with its parser and its cache policy;
  - the git helper that clones or updates a checkout.

Every foreign computation is a function parameter of the operation that calls it:

- `semver` parse, `satisfies` and `validRange`;
- `config.resolveConstraints`;
- md5 and sha512;
- `JSON.stringify`;
- EsyOpam's `renderOpam`;
- `toCygwinPath`.

Subprocesses (git and patch) are a `Runner`: a function from the command to its
outcome. Unpacking the downloaded archive (the tar command, or `extractZip` for a zip)
is an `Unpacker`, which gives the outcome in the same way. File-system facts such as "the checkout exists" are boolean inputs. The
download is the sequence of chunks the server sends. Files that the source parses
with js-yaml, `JSON.parse` or EsyOpam's `parseOpamUrl`/`renderOpamUrl` are inputs
that are already parsed: `ReadOverride` takes the parsed override files, and a
spec directory's url file is given as its rendered record.

Objects that the source updates in place are Dafny classes with `modifies` clauses:

- the manifest (`Manifests.Manifest`);
- the override store's `Map` (`OrderedMaps.InsertionMap`);
- a tar header (`OpamFetcher.Header`);
- the resolver (`OpamResolver.Resolver`).

Values that are built and then only read are datatypes. Key order matters: the
override ranges are tried in insertion order, and the object spreads keep their
key order. So JavaScript maps and plain objects are modelled as insertion-ordered
maps (`OrderedMaps.OrderedMap`). The one exception is the `archives` object of the
opam URL index, a Dafny `map` (`OpamUrls.Archives`): it is only looked up, never
iterated, so its key order does not matter. Every in-place method is proved against a function
on values, and the properties are proved about those functions.

Modules, one per source file plus shared pieces:

| module | file | models |
|---|---|---|
| `Results` | results.dfy | `Option`, `Result`, the error classes as tags |
| `Text` | text.dfy | the JavaScript string operations used |
| `OrderedMaps` | ordered_maps.dfy | `Map`, object keys, `{...a, ...b}`, `mapSetDefault` |
| `Semver` | semver.dfy | the `SemVer` record and `format()` |
| `Manifests` | manifest.dfy | the `OpamManifest` shape, `OPAM_SCOPE` |
| `RepositorySync` | repository_sync.dfy | util.js |
| `OpamUrls` | opam_urls.dfy | opam-urls.js |
| `OpamOverride` | opam_override.dfy | opam-repository-override.js |
| `OpamRepository` | opam_repository.dfy | opam-repository.js and its copy in index.js |
| `OpamResolver` | opam_resolver.dfy | index.js |
| `OpamFetcher` | opam_fetcher.dfy | opam-fetcher.js |

## Model

| member | source | states |
|---|---|---|
| OpamUrls.Resolve | src/resolvers/exotics/opam-resolver/opam-urls.js:26-40 | no entry when the name is absent, and none when the version is absent under a present name; otherwise the stored entry itself |
| OpamUrls.HexRunIsLongest | src/resolvers/exotics/opam-resolver/opam-urls.js:85 | `[a-fA-F0-9]+` consumes only hex digits and stops before a non-hex character |
| OpamUrls.DotRunIsLongest | src/resolvers/exotics/opam-resolver/opam-urls.js:85 | the greedy `(.+)` consumes up to a line terminator and no further |
| OpamUrls.VersionEndMatches | src/resolvers/exotics/opam-resolver/opam-urls.js:85 | the backtracking point chosen for the version group is one where `+opam.tar.gz <hex>` follows |
| OpamUrls.VersionEndIsLongest | src/resolvers/exotics/opam-resolver/opam-urls.js:85 | the chosen version end is the longest such point: the group is greedy |
| OpamUrls.MatchAtSound | src/resolvers/exotics/opam-resolver/opam-urls.js:85 | every match has a dot-free non-empty name, a one-line non-empty version and a non-empty hex checksum, and consumes exactly `archives/name.version+opam.tar.gz checksum` up to the end of the hex run |
| OpamUrls.Exec | src/resolvers/exotics/opam-resolver/opam-urls.js:91-94 | `exec` reports a position from the start on at which the pattern matches, with its groups |
| OpamUrls.ExecIsLeftmost | src/resolvers/exotics/opam-resolver/opam-urls.js:91-94 | the pattern matches at no position before the one `exec` reports: the regular expression is unanchored and leftmost |
| OpamUrls.LineRecord | src/resolvers/exotics/opam-resolver/opam-urls.js:88-97 | a line not starting with `archives/` is skipped; every line that is recognised has well-formed groups |
| OpamUrls.StoreMatch | src/resolvers/exotics/opam-resolver/opam-urls.js:98-104 | one matched line stores `{url, checksum}`, creating the name's inner map on first sight |
| OpamUrls.ParseArchives | src/resolvers/exotics/opam-resolver/opam-urls.js:81-107 | the loop over the listing's lines builds exactly the index that storing each recognised line in order gives |
| OpamUrls.ResolveParsed | src/resolvers/exotics/opam-resolver/opam-urls.js:98-104 | looking up a name and version finds the entry of the last line for them, with url `https://opam.ocaml.org/archives/<name>.<version>+opam.tar.gz`; later lines overwrite earlier ones and other lines change nothing |
| OpamUrls.NamesParsed | src/resolvers/exotics/opam-resolver/opam-urls.js:99-101 | a name has an inner map if and only if some recognised line carries it |
| OpamUrls.UnmatchedLineIgnored | src/resolvers/exotics/opam-resolver/opam-urls.js:88-94 | a line that is not recognised leaves the index unchanged |
| OpamUrls.TailMatches | src/resolvers/exotics/opam-resolver/opam-urls.js:85-97 | after the name, a well-formed tail yields exactly its version and checksum groups |
| OpamUrls.WellFormedLineParses | src/resolvers/exotics/opam-resolver/opam-urls.js:85-97 | a line `archives/<name>.<version>+opam.tar.gz <hex><trailer>` is recognised with exactly those three groups, for a dot-free name, a one-line version, a hex checksum and a trailer that neither continues the hex run nor holds a `+` |
| OpamUrls.CacheKey | src/resolvers/exotics/opam-resolver/opam-urls.js:109-111 | the key begins with the `last-modified` text and `__`, and ends with `__` and the `content-length` text; a missing header reads `undefined` |
| OpamUrls.CacheKeyDeterminesHeaders | src/resolvers/exotics/opam-resolver/opam-urls.js:109-111 | when neither `content-length` holds an `_`, two responses have the same key if and only if both their `last-modified` and their `content-length` agree, so a change of either header means a new download |
| OpamUrls.FetchIndex | src/resolvers/exotics/opam-resolver/opam-urls.js:54-79 | with no cache file: a GET, and the fresh index is written; with a cache file: a HEAD, and when its key differs from the stored one a GET too, and the fresh index is written; with equal keys the cached index is returned unmodified and nothing is written |
| OpamUrls.CachedIndexTrusted | src/resolvers/exotics/opam-resolver/opam-urls.js:59-78 | a freshly cached index is reused exactly as long as the server reports the same cache key as for the GET that built it |
| RepositorySync.ParseLsRemote | src/resolvers/exotics/opam-resolver/util.js:43-44 | the commit is tab-free and has no surrounding white space |
| RepositorySync.ParseLsRemoteLine | src/resolvers/exotics/opam-resolver/util.js:43-44 | an `ls-remote` line `<commit>\t<ref>` yields exactly the commit |
| RepositorySync.GitReadMaster | src/resolvers/exotics/opam-resolver/util.js:36-45 | one `git ls-remote <repo> -r heads/master` is run; its output's commit is returned, and its failure is passed on |
| RepositorySync.SyncSucceedsCompletes | src/resolvers/exotics/opam-resolver/util.js:10-34 | the sync completes if and only if every command it chose to run succeeds: the clone for a missing checkout; for an existing one, both `ls-remote`s and, when the commits differ, the pull |
| RepositorySync.CloneOrUpdateRepository | src/resolvers/exotics/opam-resolver/util.js:10-34 | the effects are those of the sync in order, and the call succeeds exactly when the commands it runs succeed; on failure the last effect is the failing command, every earlier command succeeded, and that command's error is returned |
| RepositorySync.SyncClonesMissingCheckout | src/resolvers/exotics/opam-resolver/util.js:15-33 | a missing checkout: the effects are `onClone` first when it is given, then the single `git clone remote checkout`, and nothing else: no commit comparison and no pull |
| RepositorySync.SyncPullsOnlyOnNewCommits | src/resolvers/exotics/opam-resolver/util.js:15-26 | an existing checkout is never cloned; it is pulled with `git pull -f remote master`, in the checkout as cwd, if and only if both `ls-remote`s succeed and the commits differ; a pull comes after exactly those two reads, is the last effect, and is immediately preceded by `onUpdate` when that callback is given, which is called at no other time |
| RepositorySync.StripVersionPrerelease | src/resolvers/exotics/opam-resolver/util.js:47-53 | an unparseable version is an invariant violation `Invalid version: <version>`; otherwise the version is parsed, its prerelease emptied and the result formatted |
| RepositorySync.StripKeepsRelease | src/resolvers/exotics/opam-resolver/util.js:48-52 | the result parses, for a conforming parser, to the original major, minor and patch with no prerelease |
| RepositorySync.StripIdempotent | src/resolvers/exotics/opam-resolver/util.js:48-52 | stripping twice gives what stripping once gives |
| OpamOverride.ParseOverrideSpec | src/resolvers/exotics/opam-resolver/opam-repository-override.js:121-130 | a spec without `.` is the name with range `x.x.x`; otherwise the name is the text before the first `.` and the range is the rest with every `_` turned into a space |
| OpamOverride.ParseFormatOverrideSpec | src/resolvers/exotics/opam-resolver/opam-repository-override.js:121-130 | parsing recovers the name and the range from `name.range-with-spaces-as-_`, for a dot-free name |
| OpamOverride.NormalizeOverride | src/resolvers/exotics/opam-resolver/opam-repository-override.js:150-154 | missing `exportedEnv`, `opam` and `opam.files` are filled in, a missing `exportedEnv` as `{}` and missing files as `[]`; build, dependencies and values already set are kept |
| OpamOverride.NormalizeOverrideFixes | src/resolvers/exotics/opam-resolver/opam-repository-override.js:150-154 | normalising changes an override if and only if it is not yet normalised |
| OpamOverride.ReadOverride | src/resolvers/exotics/opam-resolver/opam-repository-override.js:132-148 | a directory with neither file holds no override; with a `package.yaml` the result is its override normalised, and otherwise the `package.json`'s override normalised |
| OpamOverride.YamlShadowsJson | src/resolvers/exotics/opam-resolver/opam-repository-override.js:135-140 | a `package.json` beside a `package.yaml` is never read |
| OrderedMaps.InsertionMap.Set | src/resolvers/exotics/opam-resolver/opam-repository-override.js:163-166 | `map.set(k, v)` makes `k` hold `v`, keeps every other key's value, and appends `k` to the key order only when it is new |
| OrderedMaps.MapSetDefault | src/resolvers/exotics/opam-resolver/opam-repository-override.js:158-167 | an existing value is returned and the map is unchanged; otherwise exactly one fresh default is inserted, at the end of the key order, and returned |
| OpamOverride.InitImpl | src/resolvers/exotics/opam-resolver/opam-repository-override.js:98-119 | the store built by the loop holds exactly the registry that filing each spec directory's override in turn gives |
| OpamOverride.StoreOverride | src/resolvers/exotics/opam-resolver/opam-repository-override.js:112-114 | one override is filed under its parsed package name and range |
| OpamOverride.RegistryLookup | src/resolvers/exotics/opam-resolver/opam-repository-override.js:106-116 | each name and range holds the override of the last directory parsing to them, and nothing when there is none |
| OpamOverride.RegistryNames | src/resolvers/exotics/opam-resolver/opam-repository-override.js:109-114 | a package has an entry if and only if some directory holding an override is for it |
| OpamOverride.RegistryOfNormalized | src/resolvers/exotics/opam-resolver/opam-repository-override.js:138-143 | a registry built from what `readOverride` returns holds only normalised overrides |
| OpamOverride.Overlay | src/resolvers/exotics/opam-resolver/opam-repository-override.js:70-87 | one matched override keeps the manifest normalised and leaves its name, version, peer dependencies, `_uid`, `_remote` and opam url, checksum and patches untouched |
| OpamOverride.AppliedOverride | src/resolvers/exotics/opam-resolver/opam-repository-override.js:51-96 | without an entry for the name minus `@opam/`, the manifest is returned unchanged, `_uid` included; with one, a missing `_uid` is a type error; with an entry and a `_uid`, the result is an error if and only if the package has ranges and its version does not parse, and that error is the invariant violation `Invalid version: <version>`; a result is normalised |
| OpamOverride.OverlayInPlace | src/resolvers/exotics/opam-resolver/opam-repository-override.js:70-87 | the three reassignments of one matched override leave the manifest as `Overlay` says |
| OpamOverride.OverlayEntry | src/resolvers/exotics/opam-resolver/opam-repository-override.js:66-91 | one loop round: a satisfied range lays its override over the manifest and feeds its JSON to the hasher; any other range changes nothing |
| OpamOverride.OverlayAll | src/resolvers/exotics/opam-resolver/opam-repository-override.js:66-91 | laying any sequence of overrides over a normalised manifest keeps it normalised and leaves its name, version, peer dependencies, `_uid`, `_remote` and opam url, checksum and patches untouched |
| OpamOverride.Stringified | src/resolvers/exotics/opam-resolver/opam-repository-override.js:89 | one JSON text per matched override, each that override's `JSON.stringify`, in order |
| OpamOverride.OverlayMatching | src/resolvers/exotics/opam-resolver/opam-repository-override.js:63-91 | the loop fails on an unparseable version and only then, leaving the manifest as it was; otherwise the manifest is every satisfied override laid on in order, and the hasher was fed the old `_uid` and then each one's JSON |
| OpamOverride.ApplyOverride | src/resolvers/exotics/opam-resolver/opam-repository-override.js:51-96 | the manifest object is rewritten in place to exactly what `AppliedOverride` gives and returned; on an error it is left as it was |
| OpamOverride.OverlayBuildKept | src/resolvers/exotics/opam-resolver/opam-repository-override.js:74 | with no truthy build among the matched overrides the manifest keeps its build |
| OpamOverride.OverlayBuildLast | src/resolvers/exotics/opam-resolver/opam-repository-override.js:74 | the build of the last matched override with a truthy one wins over the manifest's and every earlier one |
| OpamOverride.OverlayEnv | src/resolvers/exotics/opam-resolver/opam-repository-override.js:75-78 | each exported variable is the one the last matched override exporting it gives, and the manifest's own where none does |
| OrderedMaps.GetMerge | src/resolvers/exotics/opam-resolver/opam-repository-override.js:75-78 | in `{...a, ...b}` a key holds `b`'s value when `b` has it, and `a`'s otherwise |
| OpamOverride.OverlayDependencies | src/resolvers/exotics/opam-resolver/opam-repository-override.js:84-87 | each dependency is the range the last matched override naming it gives, and the manifest's own where none does |
| OpamOverride.OverlayFiles | src/resolvers/exotics/opam-resolver/opam-repository-override.js:80-83 | the files are the manifest's, followed by every matched override's in order, none dropped |
| OpamOverride.MatchedMembers | src/resolvers/exotics/opam-resolver/opam-repository-override.js:66-69 | an override is matched if and only if it is the override of one of the package's entries whose range the version satisfies |
| OpamOverride.RehashedWithoutMatch | src/resolvers/exotics/opam-resolver/opam-repository-override.js:63-93 | a package with overrides of which none matches still gets a new `_uid`: the digest of the old `_uid` alone |
| OpamOverride.UidChained | src/resolvers/exotics/opam-resolver/opam-repository-override.js:63-93 | the new `_uid` is the digest of the old `_uid` followed by each matched override's JSON, in the order of the package's ranges |
| OpamRepository.VersionOfSpec | src/resolvers/exotics/opam-resolver/opam-repository.js:49-50 | a spec without `.` names version `""`; otherwise the version is everything after the first `.` |
| OpamRepository.VersionOfNamedSpec | src/resolvers/exotics/opam-resolver/opam-repository.js:49-50 | the dots of a version survive: `name.1.2.3` names `1.2.3` |
| OpamRepository.FirstMd5 | src/resolvers/exotics/opam-resolver/opam-repository.js:66-67 | nothing if and only if no checksum is of kind md5; otherwise the contents of the first md5 one |
| OpamRepository.OpamRecord | src/resolvers/exotics/opam-resolver/opam-repository.js:56-73 | without a `url` file, or when reading it gives `null`: url and checksum null; with one: the rendered url and the first md5; files always `[]` |
| OpamRepository.ConvertOpamToManifest | src/resolvers/exotics/opam-resolver/opam-repository.js:48-75 | the rendered manifest with its `opam` replaced by the url file's record and nothing else changed |
| OpamRepository.ConvertOpamToManifestCollection | src/resolvers/exotics/opam-resolver/opam-repository.js:77-89 | the collection carries the requested name and stores each converted manifest under its version, in directory order |
| OpamRepository.GetManifestCollection | src/resolvers/exotics/opam-resolver/opam-repository.js:25-40 | a missing package directory, and only that, throws `No package found: @opam/<name>` |
| OpamRepository.CollectLookup | src/resolvers/exotics/opam-resolver/opam-repository.js:84-87 | a version maps to the last manifest carrying it: a later duplicate overwrites an earlier one |
| OpamRepository.CollectKeys | src/resolvers/exotics/opam-resolver/opam-repository.js:84-87 | the keys are exactly the manifests' versions, each listed once |
| OpamRepository.CollectByOwnVersion | src/resolvers/exotics/opam-resolver/opam-repository.js:84-87 | each stored manifest is one of the converted ones and is stored under its own version |
| OpamRepository.CollectedWithoutFiles | src/resolvers/exotics/opam-resolver/opam-repository.js:56-73 | every manifest of a collection has `opam.files == []` |
| OpamResolver.ParseResolution | src/resolvers/exotics/opam-resolver/index.js:99-108 | the name holds no `@`; the version holds none either, or is the `*` default |
| OpamResolver.ParseRanged | src/resolvers/exotics/opam-resolver/index.js:99-108 | `@opam/<name>@<range>` gives exactly that name and range |
| OpamResolver.ParseUnranged | src/resolvers/exotics/opam-resolver/index.js:99-108 | `@opam/<name>` gives the name and `*` |
| OpamResolver.ParseIgnoresPrefixText | src/resolvers/exotics/opam-resolver/index.js:102 | only the length of the scope prefix is cut off; what it says is not checked |
| OpamResolver.Resolver.constructor | src/resolvers/exotics/opam-resolver/index.js:48-56 | the resolver's name and version are those `parseResolution` gives for its fragment |
| OpamResolver.IsVersion | src/resolvers/exotics/opam-resolver/index.js:58-67 | a pattern not starting with `@opam` is never a version |
| OpamResolver.IsVersionNeedsScope | src/resolvers/exotics/opam-resolver/index.js:59-61 | a pattern outside the `@opam` scope is rejected whatever `validRange` says |
| OpamResolver.IsVersionOfRanged | src/resolvers/exotics/opam-resolver/index.js:58-67 | `@opam/<name>@<range>` is a version exactly when its range is valid |
| OpamResolver.IsVersionOfUnranged | src/resolvers/exotics/opam-resolver/index.js:58-67 | `@opam/<name>` is a version exactly when `validRange(undefined)` holds |
| OpamResolver.NormalizeRange | src/resolvers/exotics/opam-resolver/index.js:159-161 | a missing range and `latest` become `*`; any other range is kept |
| OpamResolver.NormalizeRangeIdempotent | src/resolvers/exotics/opam-resolver/index.js:159-161 | normalising a normalised range changes nothing |
| OpamResolver.FilterByOCaml | src/resolvers/exotics/opam-resolver/index.js:180-196 | the loop keeps exactly the versions that `CompatibleVersions` keeps |
| OpamResolver.CompatibleMembers | src/resolvers/exotics/opam-resolver/index.js:180-196 | a version is kept if and only if it is a candidate whose `peerDependencies.ocaml` accepts the compiler; a missing or empty constraint is `*`, and missing peer dependencies count as `{}` |
| OpamResolver.CompatibleInOrder | src/resolvers/exotics/opam-resolver/index.js:180-196 | the kept versions are a subsequence of the candidates, in their order |
| OpamResolver.Normalize | src/resolvers/exotics/opam-resolver/index.js:212-217 | the result has `esy`, `esy.exportedEnv`, `opam` and `opam.files`; a missing `exportedEnv` becomes `{}`, missing files `[]`, a missing `esy` or `opam` an object holding only those; values already there are kept; nothing else changes |
| OpamResolver.NormalizeIdempotent | src/resolvers/exotics/opam-resolver/index.js:212-217 | normalising is idempotent and changes exactly the manifests that are not yet normalised |
| OpamResolver.NormalizeManifest | src/resolvers/exotics/opam-resolver/index.js:212-217 | the four reassignments leave the manifest object as `Normalize` says |
| OpamResolver.SeedUid | src/resolvers/exotics/opam-resolver/index.js:207 | the pre-override `_uid` is `opam.checksum` when that is truthy, and the version otherwise |
| OpamResolver.Prepared | src/resolvers/exotics/opam-resolver/index.js:205-207 | the manifest handed to the override store is normalised and has a `_uid` |
| OpamResolver.ResolveManifest | src/resolvers/exotics/opam-resolver/index.js:153-210 | the manifest returned, or the error thrown, is exactly what the resolution on values (`ResolvedManifest`) gives: missing package, no compatible version, or the override store's error; the manifest is a fresh object |
| OpamResolver.PrepareManifest | src/resolvers/exotics/opam-resolver/index.js:205-209 | the chosen manifest becomes a fresh object that is normalised, seeded with its `_uid`, and then holds exactly what the override store makes of it, or the override store's error is returned |
| OpamResolver.ChosenFromCollection | src/resolvers/exotics/opam-resolver/index.js:198-205 | with a `resolveConstraints` that picks among the versions it is given, the chosen version is in the collection, and its manifest accepts the compiler when one is given |
| OpamResolver.ResolveErrors | src/resolvers/exotics/opam-resolver/index.js:167-208 | every failure is `No package found: @opam/<name>`, `No compatible version found: <name>@<range>`, or an invalid version raised by the override store |
| OpamResolver.SeedKeptWithoutOverride | src/resolvers/exotics/opam-resolver/index.js:206-208 | a package without overrides keeps its normalised manifest and its seed `_uid` |
| OpamResolver.RemoteOf | src/resolvers/exotics/opam-resolver/index.js:86-93 | `_remote` has type `opam`, registry `npm`, reference = resolved = `name@version` and hash = `opam.checksum` |
| OpamResolver.Resolver.Resolve | src/resolvers/exotics/opam-resolver/index.js:73-96 | a locked manifest is returned as it is; otherwise the resolved manifest, stamped with its `_remote` record, or the resolution's error |
| OpamFetcher.TarballFormatOf | src/fetchers/opam-fetcher.js:204-221 | bzip, zip and xz are only chosen for names with one of their suffixes |
| OpamFetcher.FormatGzip | src/fetchers/opam-fetcher.js:205-206 | `.tgz` and `.tar.gz` are gzip |
| OpamFetcher.FormatBzip | src/fetchers/opam-fetcher.js:207-212 | `.tar.bz`, `.tar.bz2` and `.tbz` are bzip |
| OpamFetcher.FormatZip | src/fetchers/opam-fetcher.js:213-214 | `.zip` is zip |
| OpamFetcher.FormatXz | src/fetchers/opam-fetcher.js:215-216 | any `.xz` name is xz, `.tar.xz` included, because the suffixes are tried in this order |
| OpamFetcher.TarFlag | src/fetchers/opam-fetcher.js:168-171 | zip, and only zip, is extracted without `tar` |
| OpamFetcher.TarFlagsDistinct | src/fetchers/opam-fetcher.js:171 | two different tar formats never get the same option |
| OpamFetcher.UnpackCommand | src/fetchers/opam-fetcher.js:163-181 | a command is run if and only if the format is not zip; it starts with `tar <flag> `, ends with ` -C <dest>`, and between them names the archive; both paths are in Cygwin form on Windows |
| OpamFetcher.TarballFilename | src/fetchers/opam-fetcher.js:38-45 | the name ends with `name@version-uid.tgz`; a scoped package's is `@scope-` followed by exactly that tail, and an unscoped one's is exactly `name@version-uid.tgz` |
| OpamFetcher.TarballFilenameFollowsUid | src/fetchers/opam-fetcher.js:38-45 | two references that agree in scope, name and version but not in `_uid` get different tarball names |
| OpamFetcher.TarballFilenameIsGzip | src/fetchers/opam-fetcher.js:38-45 | the packed tarball's name classifies as gzip, the compression `packDirectory` gives it |
| OpamFetcher.PackedName | src/fetchers/opam-fetcher.js:264-265 | every entry goes under `package`: `.` becomes `package` itself, and any other name is `package/` followed by a name of its own length |
| OpamFetcher.PackHeader | src/fetchers/opam-fetcher.js:263-269 | the header is renamed to `package` or `package/<name>`, loses uid and gid, keeps every other field, and is returned itself |
| OpamFetcher.Strip | src/fetchers/opam-fetcher.js:287 | `strip: 1` shortens every name with a `/` and empties names without one |
| OpamFetcher.StripPacked | src/fetchers/opam-fetcher.js:263-287 | unpacking undoes packing: `package/<n>` comes back as `n`, and `package` as the destination itself |
| OpamFetcher.WriteValidatedStream | src/fetchers/opam-fetcher.js:124-156 | every chunk is written, and the outcome is `Validated`: with no md5 expected the digest of nothing hashed, the expected md5 when the digest agrees, and a SecurityError `Incorrect md5sum (expected E, got A)` when it does not |
| OpamFetcher.ValidatedAccepts | src/fetchers/opam-fetcher.js:139-150 | a download passes exactly when no md5 is expected or its digest is the one expected |
| OpamFetcher.Validated | src/fetchers/opam-fetcher.js:139-150 | an accepted download resolves with the expected md5 when there is one; every rejection is a SecurityError |
| OpamFetcher.PatchSteps | src/fetchers/opam-fetcher.js:239-255 | a patch is written to `dest/<name>`, run in `dest` with that file's patch command, and then that same file is unlinked |
| OpamFetcher.PatchCommand | src/fetchers/opam-fetcher.js:242-249 | on Windows the command is exactly `patch -p0 -i ` followed by the patch file; elsewhere it is exactly `bash -c "patch -p1 < `, the patch file and the closing quote (prefix, suffix and length) |
| OpamFetcher.ApplyPatches | src/fetchers/opam-fetcher.js:237-257 | the effects and the outcome are those of patching in list order up to the first failure; a missing patch list cannot be iterated |
| OpamFetcher.PatchesInOrder | src/fetchers/opam-fetcher.js:238-256 | when every patch applies, the effects are every patch's write, run and unlink, in list order |
| OpamFetcher.AllStepsLayout | src/fetchers/opam-fetcher.js:238-256 | patch `i`'s three effects sit at positions `3i` to `3i+2` |
| OpamFetcher.FailureStops | src/fetchers/opam-fetcher.js:241-256 | a failing patch is the last one tried: the effects are those of the patches up to and including it, and the failure is its error |
| OpamFetcher.FailureCleansUp | src/fetchers/opam-fetcher.js:253-255 | the failing patch's file is still unlinked, as the last effect |
| OpamFetcher.PatchFilesRemoved | src/fetchers/opam-fetcher.js:240-255 | every patch file written is unlinked right after its run, whether the run succeeds or not |
| OpamFetcher.FetchFromExternal | src/fetchers/opam-fetcher.js:47-93 | the hash is the download's checksum when the manifest has a url, and `this.hash \|\| ''` otherwise; `resolved` is always null; a failed md5 check, and then a failed unpacking of the download, stop before any patch with their own error; a failed patch fails the fetch |

## Left out

- Network I/O is not modelled. The HTTP `request` of opam-urls.js and `registry.request` in `fetchOpamTarball` (opam-fetcher.js) are replaced by the headers, body or chunks that the server answers, given as inputs. HTTP status errors are not modelled.
- Subprocesses are not modelled. git, `patch`, `bash` and esy-bash are a `Runner` that returns each command's outcome. The unpacking of the download is an `Unpacker`: it receives `UnpackCommand`'s tar command line, or nothing for `extractZip`, and returns the outcome. What the archive contains after unpacking is not modelled.
- File-system and stream plumbing is not modelled. This covers `fs.exists` (a boolean input), `readdir` (the list of spec directories, in the order given), temp directories, `writeJson`, `writeFiles`, `fs.rename` and `fs.copy` into the offline mirror, and the tar pack and unpack streams. Of packing and unpacking only the header `map` and `strip: 1` are modelled. Stream errors are not modelled.
- Cryptography and foreign computations are function parameters with no properties assumed. These are md5, sha512, `JSON.stringify`, EsyOpam's `parseOpam`/`renderOpam` (one `Render` parameter), semver `parse`/`satisfies`/`validRange`, `config.resolveConstraints` and `toCygwinPath`. The exceptions are `ChosenFromCollection` and `ResolveErrors`, which assume a `resolveConstraints` that picks among the versions it is given, and `StripKeepsRelease` and `StripIdempotent`, which assume a semver `parse` that reads back the release a formatted version holds (`Semver.ReadsReleases`). js-yaml, `JSON.parse` and EsyOpam's url-file parser and renderer are not parameters: their results are inputs.
- The single-flight promise memoisation of both `init` functions and the `Promise.all` fan-outs become sequential folds. In `initImpl` the override store's insertion order is the order in which the reads complete. The model takes that order as an input, and every property holds for any order.
- `cloneOverridesRepo` and the opam-repository `initImpl` are not modelled beyond `CloneOrUpdateRepository`, whose `onClone` and `onUpdate` only print reporter messages. The `OPAM_REPOSITORY_OVERRIDE_CHECKOUT` and environment-variable configuration constants are not modelled.
- The opam-repository `initImpl` is the only function there that clones or pulls the repository; `getManifestCollection` only checks that the package directory exists and converts it. `resolveManifest` takes the repository's directory contents as an input.
- OpamResolver.ResolvedManifest: `resolveManifest` first awaits `OpamRepositoryOverride.init` and `OpamRepository.init` (index.js lines 163-164), which clone or pull both checkouts. The model starts after both: the registry and the checkout's contents are inputs, and a git failure in either `init`, which fails `resolveManifest`, is not among the errors `ResolvedManifest` and `ResolveErrors` describe.
- Aliasing is not modelled. The override store's inner maps, override records and the manifest's `esy`/`opam` objects are modelled as values. The source never mutates a shared inner object after it is stored, except through `packageOverrides.set`, which the model performs on the registry value.
- Plain-object key order is modelled as insertion order. JavaScript lists integer-like keys of a plain object (such as a version `"1"`) first, in ascending order. The model does not. This concerns the plain objects only: the `versions` object of a manifest collection, whose key order is the version order `resolveManifest` passes to `resolveConstraints`, and the `exportedEnv` and `dependencies` spreads. The override store's `packageOverrides` are `Map`s, which iterate in insertion order for every key, so the range order `applyOverride` tries is modelled exactly.
- Inherited keys of `{}` (such as `constructor`) are not modelled, and neither are the `undefined` values of own keys.
- OpamOverride.ApplyOverride: requires a normalised manifest, which `resolveManifest` always provides, and a registry of normalised overrides, which `InitImpl` always builds (`RegistryOfNormalized`). On a manifest missing `esy`, `opam` or `opam.files`, or an override missing `opam`, the source throws a TypeError once an override matches; an override missing only `opam.files` would append one `undefined` file. Neither can happen under these requirements, and neither is modelled. A missing `exportedEnv` would only spread as nothing.
- OpamOverride.ReadOverride: takes the parsed files. A file js-yaml or `JSON.parse` cannot parse rejects `readOverride`, and an empty `package.yaml`, which loads as `undefined`, makes `normalizeOverride` throw a TypeError. Either rejects `initImpl`'s `Promise.all` and so every later `resolveManifest`. These failures are not modelled.
- OpamOverride.UidChained: an override keeps only `build`, `dependencies`, `exportedEnv` and `opam.files`, and `JSON.stringify` is a parameter applied to that record. The source stringifies the whole file, every key in the file's order, so two files that agree on these four fields can give different `_uid`s there but give the same one in the model.
- OpamOverride.AppliedOverride: only states a TypeError for a missing `_uid`, not Node's exact message text.
- OpamResolver.ResolvedManifest: a selected version missing from the collection is a TypeError with a stand-in message. This cannot happen with a conforming `resolveConstraints`.
- OpamFetcher.ApplyPatches: a missing `opam.patches` is a TypeError with a stand-in message. `lookupManifest`, which supplies the manifest in `fetchFromExternal`, is not part of this model, so whether it always provides `patches` is not known.
- OpamFetcher.FetchFromExternal: `lookupManifest` and `parseReference` are not part of this model. The looked-up manifest's `opam` record and the parsed reference are inputs. With `opam.files` missing, `writeFiles` throws a TypeError before any patch runs (opam-fetcher.js lines 71 and 224); the model does not write files and so runs the patches regardless. The directory `readdir` finds after unpacking is the input `dest`, and the unlink of the downloaded archive, `writeJson`, `packDirectory` and the move into the cache are not modelled.
- Text.JoinPath: `path.join` is modelled as joining with `/`. It does not collapse `.` and `..` segments or doubled separators, and does not use `\` on Windows. The patch file paths in `PatchSteps` and `PatchCommand`, and so the patch commands, are built with it.
- `getTarballMirrorPath`, `getPatternVersion`, `fetchOpamTarball`'s request options and `onStreamError`'s message decoration are not modelled: they are configuration lookups and error text.
- OpamUrls.FetchIndex: does not model the cache file's JSON encoding or read errors. An existing cache file is its decoded index.
- opam-urls.js `resolve` is not called by any other modelled operation, and neither is `isVersion`. Both are modelled on their own.

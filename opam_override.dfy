/** The override store (opam-repository-override.js): a checkout of
    override packages, one directory per `<name>.<range>` spec, read into a
    two-level map name → version range → override, and the rewrite of a
    resolved manifest by every override whose range its version satisfies. */
module OpamOverride {
  import opened Results
  import opened Text
  import opened OrderedMaps
  import opened Semver
  import opened Manifests
  import RepositorySync

  /** The range of a spec that names no version: every version matches. */
  const MatchAllVersions := "x.x.x"

  /** What an override directory's name says: the package, and the range
      of its versions the override applies to. */
  datatype OverrideSpec = OverrideSpec(packageName: string, versionRange: string)

  /** A spec is split at its first `.`; a range cannot hold a space in a
      directory name, so `_` stands for one. */
  function ParseOverrideSpec(spec: string): (r: OverrideSpec)
    ensures '.' !in r.packageName
    ensures '.' !in spec ==> r == OverrideSpec(spec, MatchAllVersions)
    ensures '.' in spec ==>
      && |r.packageName| < |spec| && spec[..|r.packageName| + 1] == r.packageName + "."
      && r.versionRange == ReplaceAll(spec[|r.packageName| + 1..], '_', ' ')
  {
    var idx := IndexOf(spec, '.');
    IndexOfFirst(spec, '.');
    if idx == -1 then OverrideSpec(spec, MatchAllVersions)
    else OverrideSpec(spec[..idx], ReplaceAll(spec[idx + 1..], '_', ' '))
  }

  /** The directory name an override for `name` and `range` is kept under. */
  function FormatOverrideSpec(name: string, range: string): string {
    name + "." + ReplaceAll(range, ' ', '_')
  }

  lemma ReplaceBack(s: string)
    requires '_' !in s
    ensures ReplaceAll(ReplaceAll(s, ' ', '_'), '_', ' ') == s
  {
    var t := ReplaceAll(s, ' ', '_');
    assert forall i :: 0 <= i < |s| ==> ReplaceAll(t, '_', ' ')[i] == s[i];
  }

  /** Parsing recovers the package and the range from the directory name,
      for any package name without `.` and any range without `_`. */
  lemma ParseFormatOverrideSpec(name: string, range: string)
    requires '.' !in name && '_' !in range
    ensures ParseOverrideSpec(FormatOverrideSpec(name, range)) == OverrideSpec(name, range)
  {
    var rest := ReplaceAll(range, ' ', '_');
    var spec := FormatOverrideSpec(name, range);
    assert spec == name + ['.'] + rest;
    IndexOfAfter(name, '.', rest);
    assert spec[..|name|] == name;
    assert spec[|name| + 1..] == rest;
    ReplaceBack(range);
  }

  /** `opam.files` of an override. */
  datatype OverrideOpam = OverrideOpam(files: Option<seq<File>>)

  /** An override as read from its `package.yaml` or `package.json`. */
  datatype PackageOverride = PackageOverride(
    build: Option<Build>,
    dependencies: Option<OrderedMap<string>>,
    exportedEnv: Option<OrderedMap<EnvVar>>,
    opam: Option<OverrideOpam>)

  /** The shape `normalizeOverride` guarantees. */
  predicate OverrideNormalized(o: PackageOverride) {
    o.exportedEnv.Some? && o.opam.Some? && o.opam.value.files.Some?
  }

  /** Fills in a missing `exportedEnv`, `opam` and `opam.files`. */
  function NormalizeOverride(o: PackageOverride): (r: PackageOverride)
    ensures OverrideNormalized(r)
    ensures r.build == o.build && r.dependencies == o.dependencies
    ensures o.exportedEnv.Some? ==> r.exportedEnv == o.exportedEnv
    ensures o.opam.Some? && o.opam.value.files.Some? ==> r.opam == o.opam
    ensures o.exportedEnv.None? ==> r.exportedEnv == Some(Empty())
    ensures o.opam.None? || o.opam.value.files.None? ==> r.opam.value.files == Some([])
  {
    var opam := o.opam.GetOr(OverrideOpam(None));
    o.(exportedEnv := Some(o.exportedEnv.GetOr(Empty())),
       opam := Some(opam.(files := Some(opam.files.GetOr([])))))
  }

  /** Normalising changes exactly the overrides that are not yet normalised. */
  lemma NormalizeOverrideFixes(o: PackageOverride)
    ensures NormalizeOverride(o) == o <==> OverrideNormalized(o)
  {
  }

  /** `readOverride`: a `package.yaml` is preferred to a `package.json`; a
      directory with neither holds no override. Each argument is the
      parsed file, or `None` when the file does not exist. */
  function ReadOverride(yaml: Option<PackageOverride>, json: Option<PackageOverride>): (r: Option<PackageOverride>)
    ensures r.None? <==> yaml.None? && json.None?
    ensures r.Some? ==> OverrideNormalized(r.value)
    ensures yaml.Some? ==> r == Some(NormalizeOverride(yaml.value))
    ensures yaml.None? && json.Some? ==> r == Some(NormalizeOverride(json.value))
  {
    if yaml.Some? then Some(NormalizeOverride(yaml.value))
    else if json.Some? then Some(NormalizeOverride(json.value))
    else None
  }

  /** A `package.json` beside a `package.yaml` is never read. */
  lemma YamlShadowsJson(y: PackageOverride, json: Option<PackageOverride>)
    ensures ReadOverride(Some(y), json) == ReadOverride(Some(y), None)
  {
  }

  /** The registry: package name → version range → override. */
  type Registry = OrderedMap<OrderedMap<PackageOverride>>

  /** One spec directory's contribution to the registry. */
  function AddOverride(registry: Registry, spec: string, o: PackageOverride): Registry {
    var s := ParseOverrideSpec(spec);
    var packageOverrides := Get(registry, s.packageName).GetOr(Empty());
    Put(registry, s.packageName, Put(packageOverrides, s.versionRange, o))
  }

  /** The registry built from spec directories read in the order given; a
      directory without an override adds nothing. */
  function RegistryOf(found: seq<(string, Option<PackageOverride>)>): Registry {
    if found == [] then Empty()
    else
      var prev := RegistryOf(found[..|found| - 1]);
      var last := found[|found| - 1];
      if last.1.None? then prev else AddOverride(prev, last.0, last.1.value)
  }

  /** `initImpl`'s fold: `found` pairs each spec directory with what
      `readOverride` found in it, in the order the reads complete. */
  method InitImpl(found: seq<(string, Option<PackageOverride>)>) returns (overrides: InsertionMap<OrderedMap<PackageOverride>>)
    ensures fresh(overrides)
    ensures overrides.contents == RegistryOf(found)
  {
    overrides := new InsertionMap();
    for i := 0 to |found|
      invariant overrides.contents == RegistryOf(found[..i])
    {
      assert found[..i + 1][..i] == found[..i];
      var (spec, override) := found[i];
      if override.None? {
        continue;
      }
      StoreOverride(overrides, spec, override.value);
    }
    assert found[..|found|] == found;
  }

  /** Files one override under its package and range. */
  method StoreOverride(overrides: InsertionMap<OrderedMap<PackageOverride>>, spec: string, override: PackageOverride)
    modifies overrides
    ensures overrides.contents == AddOverride(old(overrides.contents), spec, override)
  {
    var s := ParseOverrideSpec(spec);
    var packageOverrides := MapSetDefault(overrides, s.packageName, () => Empty());
    overrides.Set(s.packageName, Put(packageOverrides, s.versionRange, override));
  }

  /** The reference reading of the registry: the override of the last
      directory that parses to `name` and `range`. */
  function LastOverride(found: seq<(string, Option<PackageOverride>)>, name: string, range: string): Option<PackageOverride> {
    if found == [] then None
    else
      var last := found[|found| - 1];
      if last.1.Some? && ParseOverrideSpec(last.0) == OverrideSpec(name, range) then last.1
      else LastOverride(found[..|found| - 1], name, range)
  }

  /** Whether some directory holding an override is for `name`. */
  predicate NameHasOverride(found: seq<(string, Option<PackageOverride>)>, name: string) {
    exists i :: 0 <= i < |found| && found[i].1.Some? && ParseOverrideSpec(found[i].0).packageName == name
  }

  /** The registry holds, for each name and range, the override of the last
      directory for them; a later directory wins over an earlier one. */
  lemma {:induction false} RegistryLookup(found: seq<(string, Option<PackageOverride>)>, name: string, range: string)
    ensures Get(Get(RegistryOf(found), name).GetOr(Empty()), range) == LastOverride(found, name, range)
  {
    if found != [] {
      RegistryLookup(found[..|found| - 1], name, range);
    }
  }

  /** The registry has an entry for exactly the names some override is for. */
  lemma {:induction false} RegistryNames(found: seq<(string, Option<PackageOverride>)>, name: string)
    ensures Get(RegistryOf(found), name).Some? <==> NameHasOverride(found, name)
  {
    if found != [] {
      var prefix := found[..|found| - 1];
      RegistryNames(prefix, name);
      assert forall j :: 0 <= j < |prefix| ==> prefix[j] == found[j];
    }
  }

  /** Every override of the registry is normalised. */
  ghost predicate RegistryNormalized(registry: Registry) {
    forall name, range :: name in registry.values && range in registry.values[name].values ==>
      OverrideNormalized(registry.values[name].values[range])
  }

  /** A registry built from `readOverride` results holds only normalised overrides. */
  lemma {:induction false} RegistryOfNormalized(found: seq<(string, Option<PackageOverride>)>)
    requires forall i :: 0 <= i < |found| && found[i].1.Some? ==> OverrideNormalized(found[i].1.value)
    ensures RegistryNormalized(RegistryOf(found))
  {
    if found != [] {
      RegistryOfNormalized(found[..|found| - 1]);
    }
  }

  /** `semver.satisfies(version, range)`. */
  type Satisfies = (string, string) -> bool

  /** `JSON.stringify` of an override. */
  type Stringify = PackageOverride -> string

  /** The hex `sha512` digest of the text fed to a hasher, chunk by chunk. */
  type Digest = seq<string> -> string

  /** The overrides among `entries` whose range `version` satisfies, in order. */
  function Matched(entries: seq<(string, PackageOverride)>, version: string, satisfies: Satisfies): seq<PackageOverride> {
    if entries == [] then []
    else
      var last := entries[|entries| - 1];
      Matched(entries[..|entries| - 1], version, satisfies) + (if satisfies(version, last.0) then [last.1] else [])
  }

  /** The matched overrides are exactly the entries whose range the version
      satisfies. */
  lemma {:induction false} MatchedMembers(entries: seq<(string, PackageOverride)>, version: string, satisfies: Satisfies)
    ensures forall o :: o in Matched(entries, version, satisfies) ==>
      exists i :: 0 <= i < |entries| && entries[i].1 == o && satisfies(version, entries[i].0)
    ensures forall i :: 0 <= i < |entries| && satisfies(version, entries[i].0) ==>
      entries[i].1 in Matched(entries, version, satisfies)
  {
    if entries != [] {
      var init := entries[..|entries| - 1];
      MatchedMembers(init, version, satisfies);
      forall o | o in Matched(entries, version, satisfies)
        ensures exists i :: 0 <= i < |entries| && entries[i].1 == o && satisfies(version, entries[i].0)
      {
        if o in Matched(init, version, satisfies) {
          var i :| 0 <= i < |init| && init[i].1 == o && satisfies(version, init[i].0);
          assert entries[i] == init[i];
        } else {
          assert entries[|entries| - 1].1 == o;
        }
      }
      forall i | 0 <= i < |entries| && satisfies(version, entries[i].0)
        ensures entries[i].1 in Matched(entries, version, satisfies)
      {
        if i < |init| {
          assert entries[i] == init[i];
        }
      }
    }
  }

  /** The texts fed to the hasher after the old `_uid`. */
  function Stringified(os: seq<PackageOverride>, stringify: Stringify): (r: seq<string>)
    ensures |r| == |os|
    ensures forall i :: 0 <= i < |os| ==> r[i] == stringify(os[i])
  {
    if os == [] then [] else Stringified(os[..|os| - 1], stringify) + [stringify(os[|os| - 1])]
  }

  /** The environment an override exports; `{...undefined}` adds nothing. */
  function OverrideEnv(o: PackageOverride): OrderedMap<EnvVar> {
    o.exportedEnv.GetOr(Empty())
  }

  /** The files an override adds. Every override in the registry is
      normalised, so `opam.files` is always there to read. */
  function OverrideFiles(o: PackageOverride): seq<File> {
    o.opam.GetOr(OverrideOpam(None)).files.GetOr([])
  }

  /** What one matched override does to a manifest: a truthy build replaces
      the build, the environment and the dependencies are spread with the
      override's winning, and the override's files follow the manifest's. */
  function Overlay(d: ManifestData, o: PackageOverride): (r: ManifestData)
    requires Normalized(d)
    ensures Normalized(r) && Untouched(d, r)
  {
    var esy := d.esy.value;
    var opam := d.opam.value;
    d.(esy := Some(Esy(if TruthyBuild(o.build) then o.build else esy.build,
                       Some(Merge(esy.exportedEnv.value, OverrideEnv(o))))),
       opam := Some(opam.(files := Some(opam.files.value + OverrideFiles(o)))),
       dependencies := Some(Merge(d.dependencies.GetOr(Empty()), o.dependencies.GetOr(Empty()))))
  }

  /** The parts of a manifest no override touches: its name, version, peer
      dependencies, `_uid`, `_remote`, and `opam` apart from its files. */
  predicate Untouched(d: ManifestData, r: ManifestData)
    requires Normalized(d) && Normalized(r)
  {
    && r.name == d.name && r.version == d.version && r.peerDependencies == d.peerDependencies
    && r.uid == d.uid && r.remote == d.remote
    && r.opam.value.url == d.opam.value.url && r.opam.value.checksum == d.opam.value.checksum
    && r.opam.value.patches == d.opam.value.patches
  }

  /** The matched overrides applied in order. */
  function OverlayAll(d: ManifestData, os: seq<PackageOverride>): (r: ManifestData)
    requires Normalized(d)
    ensures Normalized(r) && Untouched(d, r)
  {
    if os == [] then d else Overlay(OverlayAll(d, os[..|os| - 1]), os[|os| - 1])
  }

  /** The version the ranges are matched against, when `version` parses. */
  function StrippedOrEmpty(parse: Parser, version: string): string {
    var s := RepositorySync.StripVersionPrerelease(parse, version);
    if s.Ok? then s.value else ""
  }

  /** The whole of `applyOverride`, on values. */
  function AppliedOverride(registry: Registry, d: ManifestData, parse: Parser, satisfies: Satisfies,
                           stringify: Stringify, digest: Digest): (r: Result<ManifestData>)
    requires Normalized(d)
    ensures Get(registry, Drop(d.name, |ScopePrefix|)).None? ==> r == Ok(d)
    ensures Get(registry, Drop(d.name, |ScopePrefix|)).Some? && d.uid.None? ==> r.Err? && r.error.TypeError?
    ensures Get(registry, Drop(d.name, |ScopePrefix|)).Some? && d.uid.Some? && r.Err? ==>
      r.error == InvariantViolation("Invalid version: " + d.version)
    ensures Get(registry, Drop(d.name, |ScopePrefix|)).Some? && d.uid.Some? ==>
      (r.Err? <==> Entries(Get(registry, Drop(d.name, |ScopePrefix|)).value) != [] && parse(d.version).None?)
    ensures r.Ok? ==> Normalized(r.value)
  {
    match Get(registry, Drop(d.name, |ScopePrefix|))
    case None => Ok(d)
    case Some(packageOverrides) =>
      var entries := Entries(packageOverrides);
      if d.uid.None? then Err(TypeError("The \"data\" argument must be a string"))
      else if entries != [] && parse(d.version).None? then Err(InvariantViolation("Invalid version: " + d.version))
      else
        var matched := Matched(entries, StrippedOrEmpty(parse, d.version), satisfies);
        var applied := OverlayAll(d, matched);
        Ok(applied.(uid := Some(digest([d.uid.value] + Stringified(matched, stringify)))))
  }

  /** The three reassignments one matched override makes. */
  method OverlayInPlace(manifest: Manifest, override: PackageOverride)
    requires Normalized(manifest.Data())
    modifies manifest
    ensures manifest.Data() == Overlay(old(manifest.Data()), override)
  {
    var esy := manifest.esy.value;
    var opam := manifest.opam.value;
    manifest.esy := Some(Esy(if TruthyBuild(override.build) then override.build else esy.build,
                             Some(Merge(esy.exportedEnv.value, OverrideEnv(override)))));
    manifest.opam := Some(opam.(files := Some(opam.files.value + OverrideFiles(override))));
    manifest.dependencies := Some(Merge(manifest.dependencies.GetOr(Empty()), override.dependencies.GetOr(Empty())));
  }

  lemma MatchedStep(entries: seq<(string, PackageOverride)>, i: nat, version: string, satisfies: Satisfies)
    requires i < |entries|
    ensures Matched(entries[..i + 1], version, satisfies)
         == Matched(entries[..i], version, satisfies) + (if satisfies(version, entries[i].0) then [entries[i].1] else [])
  {
    assert entries[..i + 1][..i] == entries[..i];
  }

  lemma StringifiedStep(os: seq<PackageOverride>, o: PackageOverride, stringify: Stringify)
    ensures Stringified(os + [o], stringify) == Stringified(os, stringify) + [stringify(o)]
  {
    assert (os + [o])[..|os|] == os;
  }

  lemma OverlayAllStep(d: ManifestData, os: seq<PackageOverride>, o: PackageOverride)
    requires Normalized(d)
    ensures OverlayAll(d, os + [o]) == Overlay(OverlayAll(d, os), o)
  {
    assert (os + [o])[..|os|] == os;
  }

  /** One round of the loop of `applyOverride`. */
  method OverlayEntry(manifest: Manifest, versionRange: string, override: PackageOverride, version: string,
                      satisfies: Satisfies, stringify: Stringify, chunks: seq<string>) returns (fed: seq<string>)
    requires Normalized(manifest.Data())
    modifies manifest
    ensures satisfies(version, versionRange) ==>
      manifest.Data() == Overlay(old(manifest.Data()), override) && fed == chunks + [stringify(override)]
    ensures !satisfies(version, versionRange) ==> manifest.Data() == old(manifest.Data()) && fed == chunks
  {
    fed := chunks;
    if satisfies(version, versionRange) {
      OverlayInPlace(manifest, override);
      fed := chunks + [stringify(override)];
    }
  }

  /** The loop of `applyOverride`: every entry whose range the stripped
      version satisfies is laid over the manifest and its JSON fed to the hasher. */
  method OverlayMatching(manifest: Manifest, entries: seq<(string, PackageOverride)>, parse: Parser,
                         satisfies: Satisfies, stringify: Stringify, uid: string) returns (r: Result<seq<string>>)
    requires Normalized(manifest.Data())
    modifies manifest
    ensures r.Err? <==> entries != [] && parse(old(manifest.version)).None?
    ensures r.Err? ==> && r.error == InvariantViolation("Invalid version: " + old(manifest.version))
                       && manifest.Data() == old(manifest.Data())
    ensures r.Ok? ==>
      var matched := Matched(entries, StrippedOrEmpty(parse, old(manifest.version)), satisfies);
      && manifest.Data() == OverlayAll(old(manifest.Data()), matched)
      && r.value == [uid] + Stringified(matched, stringify)
  {
    var chunks := [uid];
    ghost var d0 := manifest.Data();
    ghost var version := StrippedOrEmpty(parse, d0.version);
    ghost var done: seq<PackageOverride> := [];
    var i := 0;
    while i < |entries|
      invariant 0 <= i <= |entries|
      invariant i > 0 ==> parse(d0.version).Some?
      invariant done == Matched(entries[..i], version, satisfies)
      invariant manifest.Data() == OverlayAll(d0, done)
      invariant chunks == [uid] + Stringified(done, stringify)
    {
      MatchedStep(entries, i, version, satisfies);
      var (versionRange, override) := entries[i];
      var stripped := RepositorySync.StripVersionPrerelease(parse, manifest.version);
      if stripped.Err? {
        return Err(stripped.error);
      }
      assert stripped.value == version;
      chunks := OverlayEntry(manifest, versionRange, override, stripped.value, satisfies, stringify, chunks);
      if satisfies(stripped.value, versionRange) {
        StringifiedStep(done, override, stringify);
        OverlayAllStep(d0, done, override);
        done := done + [override];
      }
      i := i + 1;
    }
    assert entries[..i] == entries;
    return Ok(chunks);
  }

  /** `applyOverride` rewrites `manifest` in place and returns it. */
  method ApplyOverride(registry: Registry, manifest: Manifest, parse: Parser, satisfies: Satisfies,
                       stringify: Stringify, digest: Digest) returns (r: Result<Manifest>)
    requires RegistryNormalized(registry)
    requires Normalized(manifest.Data())
    modifies manifest
    ensures var expected := AppliedOverride(registry, old(manifest.Data()), parse, satisfies, stringify, digest);
      && (r.Ok? <==> expected.Ok?)
      && (r.Ok? ==> r.value == manifest && manifest.Data() == expected.value)
      && (r.Err? ==> r.error == expected.error && manifest.Data() == old(manifest.Data()))
  {
    var packageOverrides := Get(registry, Drop(manifest.name, |ScopePrefix|));
    if packageOverrides.None? {
      return Ok(manifest);
    }
    if manifest.uid.None? {
      return Err(TypeError("The \"data\" argument must be a string"));
    }
    var chunks := OverlayMatching(manifest, Entries(packageOverrides.value), parse, satisfies, stringify, manifest.uid.value);
    if chunks.Err? {
      return Err(chunks.error);
    }
    manifest.uid := Some(digest(chunks.value));
    return Ok(manifest);
  }

  // ---------------------------------------------------------------- properties

  lemma OverlayBuildStep(d: ManifestData, os: seq<PackageOverride>)
    requires Normalized(d) && os != []
    ensures OverlayAll(d, os).esy.value.build
         == if TruthyBuild(os[|os| - 1].build) then os[|os| - 1].build else OverlayAll(d, os[..|os| - 1]).esy.value.build
  {
  }

  /** With no truthy build among the overrides the manifest's own stays. */
  lemma {:induction false} OverlayBuildKept(d: ManifestData, os: seq<PackageOverride>)
    requires Normalized(d)
    requires forall k :: 0 <= k < |os| ==> !TruthyBuild(os[k].build)
    ensures OverlayAll(d, os).esy.value.build == d.esy.value.build
  {
    if os != [] {
      var init := os[..|os| - 1];
      assert forall k :: 0 <= k < |init| ==> init[k] == os[k];
      OverlayBuildKept(d, init);
      OverlayBuildStep(d, os);
    }
  }

  /** The build of the last override with a truthy one wins over the
      manifest's and every earlier override's. */
  lemma {:induction false} OverlayBuildLast(d: ManifestData, os: seq<PackageOverride>, k: nat)
    requires Normalized(d)
    requires k < |os| && TruthyBuild(os[k].build)
    requires forall j :: k < j < |os| ==> !TruthyBuild(os[j].build)
    ensures OverlayAll(d, os).esy.value.build == os[k].build
  {
    OverlayBuildStep(d, os);
    if k < |os| - 1 {
      var init := os[..|os| - 1];
      assert forall j :: 0 <= j < |init| ==> init[j] == os[j];
      OverlayBuildLast(d, init, k);
    }
  }

  /** The value the last of `os` to bind `k` in `field` gives it. */
  function LastBinding<V>(os: seq<PackageOverride>, field: PackageOverride -> OrderedMap<V>, k: string): Option<V> {
    if os == [] then None
    else if k in field(os[|os| - 1]).values then Some(field(os[|os| - 1]).values[k])
    else LastBinding(os[..|os| - 1], field, k)
  }

  function OverrideDependencies(o: PackageOverride): OrderedMap<string> {
    o.dependencies.GetOr(Empty())
  }

  /** Each exported variable is the one the last override exporting it
      gives, and the manifest's own where no override exports it. */
  lemma {:induction false} OverlayEnv(d: ManifestData, os: seq<PackageOverride>, k: string)
    requires Normalized(d)
    requires forall j :: 0 <= j < |os| ==> Valid(OverrideEnv(os[j]))
    ensures Get(OverlayAll(d, os).esy.value.exportedEnv.value, k)
         == match LastBinding(os, OverrideEnv, k)
            case Some(v) => Some(v)
            case None => Get(d.esy.value.exportedEnv.value, k)
  {
    if os != [] {
      var init := os[..|os| - 1];
      assert forall j :: 0 <= j < |init| ==> init[j] == os[j];
      OverlayEnv(d, init, k);
      GetMerge(OverlayAll(d, init).esy.value.exportedEnv.value, OverrideEnv(os[|os| - 1]), k);
    }
  }

  /** Each dependency is the range the last override naming it gives, and
      the manifest's own where no override names it. */
  lemma {:induction false} OverlayDependencies(d: ManifestData, os: seq<PackageOverride>, k: string)
    requires Normalized(d)
    requires forall j :: 0 <= j < |os| ==> Valid(OverrideDependencies(os[j]))
    ensures Get(OverlayAll(d, os).dependencies.GetOr(Empty()), k)
         == match LastBinding(os, OverrideDependencies, k)
            case Some(v) => Some(v)
            case None => Get(d.dependencies.GetOr(Empty()), k)
  {
    if os != [] {
      var init := os[..|os| - 1];
      assert forall j :: 0 <= j < |init| ==> init[j] == os[j];
      OverlayDependencies(d, init, k);
      GetMerge(OverlayAll(d, init).dependencies.GetOr(Empty()), OverrideDependencies(os[|os| - 1]), k);
    }
  }

  /** The files of `os`, first override first. */
  function AllFiles(os: seq<PackageOverride>): seq<File> {
    if os == [] then [] else OverrideFiles(os[0]) + AllFiles(os[1..])
  }

  lemma {:induction false} AllFilesSnoc(os: seq<PackageOverride>, o: PackageOverride)
    ensures AllFiles(os + [o]) == AllFiles(os) + OverrideFiles(o)
  {
    if os == [] {
      assert AllFiles([o]) == OverrideFiles(o) + AllFiles([]);
    } else {
      assert (os + [o])[1..] == os[1..] + [o];
      AllFilesSnoc(os[1..], o);
    }
  }

  /** The manifest's files come first, then every matched override's, in order. */
  lemma {:induction false} OverlayFiles(d: ManifestData, os: seq<PackageOverride>)
    requires Normalized(d)
    ensures OverlayAll(d, os).opam.value.files.value == d.opam.value.files.value + AllFiles(os)
  {
    if os != [] {
      var init := os[..|os| - 1];
      OverlayFiles(d, init);
      assert os == init + [os[|os| - 1]];
      AllFilesSnoc(init, os[|os| - 1]);
    }
  }

  lemma {:induction false} MatchedNone(entries: seq<(string, PackageOverride)>, version: string, satisfies: Satisfies)
    requires forall i :: 0 <= i < |entries| ==> !satisfies(version, entries[i].0)
    ensures Matched(entries, version, satisfies) == []
  {
    if entries != [] {
      var init := entries[..|entries| - 1];
      assert forall i :: 0 <= i < |init| ==> init[i] == entries[i];
      MatchedNone(init, version, satisfies);
    }
  }

  /** A package with overrides gets a new `_uid` even when none of its
      ranges matches: the digest of the old `_uid` alone. */
  lemma RehashedWithoutMatch(registry: Registry, d: ManifestData, parse: Parser, satisfies: Satisfies,
                             stringify: Stringify, digest: Digest)
    requires Normalized(d)
    requires Get(registry, Drop(d.name, |ScopePrefix|)).Some? && d.uid.Some? && parse(d.version).Some?
    requires var entries := Entries(Get(registry, Drop(d.name, |ScopePrefix|)).value);
      forall i :: 0 <= i < |entries| ==> !satisfies(StrippedOrEmpty(parse, d.version), entries[i].0)
    ensures AppliedOverride(registry, d, parse, satisfies, stringify, digest) == Ok(d.(uid := Some(digest([d.uid.value]))))
  {
    var entries := Entries(Get(registry, Drop(d.name, |ScopePrefix|)).value);
    MatchedNone(entries, StrippedOrEmpty(parse, d.version), satisfies);
    assert [d.uid.value] + Stringified([], stringify) == [d.uid.value];
  }

  /** Each matched override's JSON is fed to the hasher after the old
      `_uid`, in the order of the package's ranges. */
  lemma UidChained(registry: Registry, d: ManifestData, parse: Parser, satisfies: Satisfies,
                   stringify: Stringify, digest: Digest)
    requires Normalized(d)
    requires Get(registry, Drop(d.name, |ScopePrefix|)).Some?
    requires AppliedOverride(registry, d, parse, satisfies, stringify, digest).Ok?
    ensures var matched := Matched(Entries(Get(registry, Drop(d.name, |ScopePrefix|)).value),
                                   StrippedOrEmpty(parse, d.version), satisfies);
      && d.uid.Some?
      && AppliedOverride(registry, d, parse, satisfies, stringify, digest).value.uid
         == Some(digest([d.uid.value] + seq(|matched|, i requires 0 <= i < |matched| => stringify(matched[i]))))
  {
    var matched := Matched(Entries(Get(registry, Drop(d.name, |ScopePrefix|)).value),
                           StrippedOrEmpty(parse, d.version), satisfies);
    assert Stringified(matched, stringify) == seq(|matched|, i requires 0 <= i < |matched| => stringify(matched[i]));
  }
}

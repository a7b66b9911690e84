/** The opam resolver (index.js): a request `@opam/<name>@<range>` is
    resolved to one manifest of the package's collection, chosen among the
    versions the OCaml compiler in use accepts, normalised, given its
    pre-override `_uid`, rewritten by the override store and stamped with
    its `_remote` record. */
module OpamResolver {
  import opened Results
  import opened Text
  import opened OrderedMaps
  import opened Semver
  import opened Manifests
  import OpamOverride
  import OpamRepository

  /** What a resolution fragment names. */
  datatype Resolution = Resolution(name: string, version: string)

  /** `parseResolution`: the scope prefix is cut off by its length, the rest
      split at `@`; a missing range reads as `*`. */
  function ParseResolution(fragment: string): (r: Resolution)
    ensures '@' !in r.name
    ensures r.version == "*" || '@' !in r.version
  {
    var parts := Split(Drop(fragment, |ScopePrefix|), '@');
    Resolution(parts[0], if |parts| >= 2 then parts[1] else "*")
  }

  /** A request for a range names the package and the range. */
  lemma ParseRanged(name: string, range: string)
    requires '@' !in name && '@' !in range
    ensures ParseResolution(ScopePrefix + name + "@" + range) == Resolution(name, range)
  {
    var rest := name + "@" + range;
    assert ScopePrefix + name + "@" + range == ScopePrefix + rest;
    assert Drop(ScopePrefix + rest, |ScopePrefix|) == rest;
    assert rest == Join([name, range], '@');
    SplitJoin([name, range], '@');
  }

  /** A request without a range asks for any version: `*`. */
  lemma ParseUnranged(name: string)
    requires '@' !in name
    ensures ParseResolution(ScopePrefix + name) == Resolution(name, "*")
  {
    assert Drop(ScopePrefix + name, |ScopePrefix|) == name;
    assert name == Join([name], '@');
    SplitJoin([name], '@');
  }

  /** Only the length of the prefix matters, not what it says. */
  lemma ParseIgnoresPrefixText(p: string, q: string, rest: string)
    requires |p| == |q| == |ScopePrefix|
    ensures ParseResolution(p + rest) == ParseResolution(q + rest)
  {
    assert Drop(p + rest, |ScopePrefix|) == rest == Drop(q + rest, |ScopePrefix|);
  }

  /** `!!semver.validRange(constraint)`; `None` is `undefined`. */
  type ValidRange = Option<string> -> bool

  /** `OpamResolver.isVersion`. */
  function IsVersion(pattern: string, validRange: ValidRange): (r: bool)
    ensures r ==> StartsWith(pattern, "@" + OpamScope)
  {
    if !StartsWith(pattern, "@" + OpamScope) then false
    else
      var p := if pattern[0] == '@' then pattern[1..] else pattern;
      var parts := Split(p, '@');
      validRange(if |parts| >= 2 then Some(parts[1]) else None)
  }

  /** A scoped request is a version exactly when its range is valid. */
  lemma IsVersionOfRanged(name: string, range: string, validRange: ValidRange)
    requires '@' !in name && '@' !in range
    ensures IsVersion(ScopePrefix + name + "@" + range, validRange) == validRange(Some(range))
  {
    var pattern := ScopePrefix + name + "@" + range;
    var head := OpamScope + "/" + name;
    assert pattern == "@" + (head + "@" + range);
    assert StartsWith(pattern, "@" + OpamScope) by {
      assert pattern[..|"@" + OpamScope|] == "@" + OpamScope;
    }
    assert pattern[1..] == head + "@" + range == Join([head, range], '@');
    assert '@' !in head by {
      assert forall i :: 0 <= i < |head| ==> head[i] == pattern[i + 1];
      assert '@' !in OpamScope + "/";
    }
    SplitJoin([head, range], '@');
  }

  /** A scoped request without a range validates `undefined`. */
  lemma IsVersionOfUnranged(name: string, validRange: ValidRange)
    requires '@' !in name
    ensures IsVersion(ScopePrefix + name, validRange) == validRange(None)
  {
    var pattern := ScopePrefix + name;
    var head := OpamScope + "/" + name;
    assert pattern == "@" + head;
    assert StartsWith(pattern, "@" + OpamScope) by {
      assert pattern[..|"@" + OpamScope|] == "@" + OpamScope;
    }
    assert pattern[1..] == head == Join([head], '@');
    assert '@' !in head by {
      assert '@' !in OpamScope + "/";
    }
    SplitJoin([head], '@');
  }

  /** Patterns outside the scope are never versions. */
  lemma IsVersionNeedsScope(pattern: string, validRange: ValidRange)
    requires !StartsWith(pattern, "@" + OpamScope)
    ensures !IsVersion(pattern, validRange)
  {
  }

  /** A missing range and `latest` both mean any version. */
  function NormalizeRange(versionRange: Option<string>): (range: string)
    ensures range != "latest"
    ensures versionRange.Some? && versionRange.value != "latest" ==> versionRange == Some(range)
    ensures versionRange.None? || versionRange == Some("latest") ==> range == "*"
  {
    if versionRange.None? || versionRange.value == "latest" then "*" else versionRange.value
  }

  /** Normalising a range twice changes nothing more. */
  lemma NormalizeRangeIdempotent(versionRange: Option<string>)
    ensures NormalizeRange(Some(NormalizeRange(versionRange))) == NormalizeRange(versionRange)
  {
  }

  // ---------------------------------------------------------------- OCaml filter

  /** The compiler range a manifest asks for in its peer dependencies;
      none, or an empty one, is `*`. */
  function OCamlConstraint(d: ManifestData): string {
    var ocaml := Get(d.peerDependencies.GetOr(Empty()), "ocaml");
    if ocaml.Some? && ocaml.value != "" then ocaml.value else "*"
  }

  /** `config.resolveConstraints([ocamlVersion], range)` found a match. */
  type OCamlAccepts = string -> bool

  /** Whether the manifest stored for `version` accepts the compiler. */
  predicate AcceptsCompiler(collection: OrderedMap<ManifestData>, version: string, accepts: OCamlAccepts) {
    version in collection.values && accepts(OCamlConstraint(collection.values[version]))
  }

  /** The versions the compiler is accepted by, in order. */
  function CompatibleVersions(versions: seq<string>, collection: OrderedMap<ManifestData>, accepts: OCamlAccepts): seq<string> {
    if versions == [] then []
    else
      var v := versions[|versions| - 1];
      CompatibleVersions(versions[..|versions| - 1], collection, accepts)
      + (if AcceptsCompiler(collection, v, accepts) then [v] else [])
  }

  /** The loop of `resolveManifest` that restricts the versions. */
  method FilterByOCaml(versions: seq<string>, collection: OrderedMap<ManifestData>, accepts: OCamlAccepts)
    returns (kept: seq<string>)
    requires forall v :: v in versions ==> v in collection.values
    ensures kept == CompatibleVersions(versions, collection, accepts)
  {
    kept := [];
    for i := 0 to |versions|
      invariant kept == CompatibleVersions(versions[..i], collection, accepts)
    {
      assert versions[..i + 1][..i] == versions[..i];
      var version := versions[i];
      var manifest := collection.values[version];
      var ocamlDependency := OCamlConstraint(manifest);
      if accepts(ocamlDependency) {
        kept := kept + [version];
      }
    }
    assert versions[..|versions|] == versions;
  }

  /** `a` is `b` with some elements left out and the rest in order. */
  predicate Subsequence(a: seq<string>, b: seq<string>) {
    if a == [] then true
    else if b == [] then false
    else if a[|a| - 1] == b[|b| - 1] then Subsequence(a[..|a| - 1], b[..|b| - 1])
    else Subsequence(a, b[..|b| - 1])
  }

  /** The kept versions are exactly those accepting the compiler ... */
  lemma {:induction false} CompatibleMembers(versions: seq<string>, collection: OrderedMap<ManifestData>,
                                             accepts: OCamlAccepts, v: string)
    ensures v in CompatibleVersions(versions, collection, accepts) <==> v in versions && AcceptsCompiler(collection, v, accepts)
  {
    if versions != [] {
      var init := versions[..|versions| - 1];
      CompatibleMembers(init, collection, accepts, v);
      assert versions == init + [versions[|versions| - 1]];
    }
  }

  /** ... and they keep their order. */
  lemma {:induction false} CompatibleInOrder(versions: seq<string>, collection: OrderedMap<ManifestData>, accepts: OCamlAccepts)
    ensures Subsequence(CompatibleVersions(versions, collection, accepts), versions)
  {
    if versions != [] {
      var init := versions[..|versions| - 1];
      var kept := CompatibleVersions(init, collection, accepts);
      var v := versions[|versions| - 1];
      CompatibleInOrder(init, collection, accepts);
      if AcceptsCompiler(collection, v, accepts) {
        assert (kept + [v])[..|kept|] == kept;
      } else {
        assert CompatibleVersions(versions, collection, accepts) == kept;
        if kept != [] {
          assert kept[|kept| - 1] in kept;
          CompatibleMembers(init, collection, accepts, kept[|kept| - 1]);
        }
      }
    }
  }

  // ---------------------------------------------------------------- normalisation

  /** `normalizeManifest` on values: the missing parts become empty. */
  function Normalize(d: ManifestData): (r: ManifestData)
    ensures Normalized(r)
    ensures r.(esy := d.esy, opam := d.opam) == d
    ensures Normalized(d) ==> r == d
    ensures d.esy.Some? ==> r.esy.value.build == d.esy.value.build
    ensures d.esy.Some? && d.esy.value.exportedEnv.Some? ==> r.esy == d.esy
    ensures d.opam.Some? ==> r.opam.value.(files := d.opam.value.files) == d.opam.value
    ensures d.opam.Some? && d.opam.value.files.Some? ==> r.opam == d.opam
    ensures d.esy.None? ==> r.esy.value == Esy(None, Some(Empty()))
    ensures d.esy.None? || d.esy.value.exportedEnv.None? ==> r.esy.value.exportedEnv == Some(Empty())
    ensures d.opam.None? ==> r.opam.value == Opam(None, None, Some([]), None)
    ensures d.opam.None? || d.opam.value.files.None? ==> r.opam.value.files == Some([])
  {
    var esy := d.esy.GetOr(Esy(None, None));
    var opam := d.opam.GetOr(Opam(None, None, None, None));
    d.(esy := Some(esy.(exportedEnv := Some(esy.exportedEnv.GetOr(Empty())))),
       opam := Some(opam.(files := Some(opam.files.GetOr([])))))
  }

  /** Normalising is idempotent, and fixes exactly the normalised manifests. */
  lemma NormalizeIdempotent(d: ManifestData)
    ensures Normalize(Normalize(d)) == Normalize(d)
    ensures Normalize(d) == d <==> Normalized(d)
  {
  }

  /** `normalizeManifest`. */
  method NormalizeManifest(manifest: Manifest)
    modifies manifest
    ensures manifest.Data() == Normalize(old(manifest.Data()))
  {
    manifest.esy := Some(manifest.esy.GetOr(Esy(None, None)));
    manifest.esy := Some(manifest.esy.value.(exportedEnv := Some(manifest.esy.value.exportedEnv.GetOr(Empty()))));
    manifest.opam := Some(manifest.opam.GetOr(Opam(None, None, None, None)));
    manifest.opam := Some(manifest.opam.value.(files := Some(manifest.opam.value.files.GetOr([]))));
  }

  /** The `_uid` before overrides: a truthy checksum, else the version. */
  function SeedUid(d: ManifestData): (uid: string)
    requires d.opam.Some?
    ensures uid == d.version || d.opam.value.checksum == Some(uid)
    ensures uid == d.version <== !TruthyText(d.opam.value.checksum)
    ensures TruthyText(d.opam.value.checksum) ==> uid == d.opam.value.checksum.value
  {
    if TruthyText(d.opam.value.checksum) then d.opam.value.checksum.value else d.version
  }

  // ---------------------------------------------------------------- resolveManifest

  /** `config.resolveConstraints(versions, range)`: the version chosen, if any. */
  type Select = (seq<string>, string) -> Option<string>

  /** The calls the resolver makes into code outside this model. */
  datatype Foreign = Foreign(
    render: OpamRepository.Render,
    parse: Parser,
    satisfies: OpamOverride.Satisfies,
    stringify: OpamOverride.Stringify,
    digest: OpamOverride.Digest,
    ocamlAccepts: (string, string) -> bool,
    select: Select)

  /** What a conforming `resolveConstraints` does: it chooses among the
      versions it is given. */
  ghost predicate SelectsMember(select: Select) {
    forall vs, range :: select(vs, range).Some? ==> select(vs, range).value in vs
  }

  /** The versions taking part in the selection. */
  function Candidates(collection: OrderedMap<ManifestData>, ocamlVersion: Option<string>, f: Foreign): seq<string> {
    if ocamlVersion.None? then collection.keys
    else CompatibleVersions(collection.keys, collection, range => f.ocamlAccepts(ocamlVersion.value, range))
  }

  /** A manifest as it is before the overrides: normalised, with its seed `_uid`. */
  function Prepared(d: ManifestData): (r: ManifestData)
    ensures Normalized(r) && r.uid.Some?
  {
    var n := Normalize(d);
    n.(uid := Some(SeedUid(n)))
  }

  /** The whole of `resolveManifest`, on values. */
  function ResolvedManifest(name: string, versionRange: Option<string>, ocamlVersion: Option<string>,
                            registry: OpamOverride.Registry, packageDirExists: bool,
                            dirs: seq<OpamRepository.SpecDir>, f: Foreign): Result<ManifestData>
  {
    var range := NormalizeRange(versionRange);
    if !packageDirExists then Err(PlainError("No package found: @" + OpamScope + "/" + name))
    else
      var collection := OpamRepository.Collect(OpamRepository.Converted(name, dirs, f.render));
      match f.select(Candidates(collection, ocamlVersion, f), range)
      case None => Err(PlainError("No compatible version found: " + name + "@" + range))
      case Some(version) =>
        if version !in collection.values then Err(TypeError("Cannot read property 'esy' of undefined"))
        else OpamOverride.AppliedOverride(registry, Prepared(collection.values[version]),
                                          f.parse, f.satisfies, f.stringify, f.digest)
  }

  /** `resolveManifest`. */
  method ResolveManifest(name: string, versionRange: Option<string>, ocamlVersion: Option<string>,
                         registry: OpamOverride.Registry, packageDirExists: bool,
                         dirs: seq<OpamRepository.SpecDir>, f: Foreign) returns (r: Result<Manifest>)
    requires OpamOverride.RegistryNormalized(registry)
    ensures var expected := ResolvedManifest(name, versionRange, ocamlVersion, registry, packageDirExists, dirs, f);
      && (r.Ok? <==> expected.Ok?)
      && (r.Ok? ==> fresh(r.value) && r.value.Data() == expected.value)
      && (r.Err? ==> r.error == expected.error)
  {
    var range := NormalizeRange(versionRange);
    if !packageDirExists {
      return Err(PlainError("No package found: @" + OpamScope + "/" + name));
    }
    var manifestCollection := OpamRepository.ConvertOpamToManifestCollection(name, dirs, f.render);
    var collection := manifestCollection.versions;
    var versions := collection.keys;
    OpamRepository.CollectKeys(OpamRepository.Converted(name, dirs, f.render));
    if ocamlVersion.Some? {
      versions := FilterByOCaml(versions, collection, range => f.ocamlAccepts(ocamlVersion.value, range));
    }
    var version := f.select(versions, range);
    if version.None? {
      return Err(PlainError("No compatible version found: " + name + "@" + range));
    }
    if version.value !in collection.values {
      return Err(TypeError("Cannot read property 'esy' of undefined"));
    }
    r := PrepareManifest(registry, collection.values[version.value], f);
  }

  /** The end of `resolveManifest`: a fresh manifest object for the chosen
      version, normalised, seeded with its `_uid` and rewritten by the
      override store. */
  method PrepareManifest(registry: OpamOverride.Registry, chosen: ManifestData, f: Foreign)
    returns (r: Result<Manifest>)
    requires OpamOverride.RegistryNormalized(registry)
    ensures var expected := OpamOverride.AppliedOverride(registry, Prepared(chosen),
                                                         f.parse, f.satisfies, f.stringify, f.digest);
      && (r.Ok? <==> expected.Ok?)
      && (r.Ok? ==> fresh(r.value) && r.value.Data() == expected.value)
      && (r.Err? ==> r.error == expected.error)
  {
    var manifest := new Manifest(chosen);
    NormalizeManifest(manifest);
    manifest.uid := Some(SeedUid(manifest.Data()));
    r := OpamOverride.ApplyOverride(registry, manifest, f.parse, f.satisfies, f.stringify, f.digest);
  }

  /** With a conforming `resolveConstraints` the chosen version is one of the
      collection, and one the compiler in use accepts. */
  lemma ChosenFromCollection(name: string, dirs: seq<OpamRepository.SpecDir>, ocamlVersion: Option<string>,
                             range: string, f: Foreign)
    requires SelectsMember(f.select)
    requires var collection := OpamRepository.Collect(OpamRepository.Converted(name, dirs, f.render));
      f.select(Candidates(collection, ocamlVersion, f), range).Some?
    ensures var collection := OpamRepository.Collect(OpamRepository.Converted(name, dirs, f.render));
      var version := f.select(Candidates(collection, ocamlVersion, f), range).value;
      && version in collection.values
      && (ocamlVersion.Some? ==> f.ocamlAccepts(ocamlVersion.value, OCamlConstraint(collection.values[version])))
  {
    var collection := OpamRepository.Collect(OpamRepository.Converted(name, dirs, f.render));
    OpamRepository.CollectKeys(OpamRepository.Converted(name, dirs, f.render));
    var candidates := Candidates(collection, ocamlVersion, f);
    var version := f.select(candidates, range).value;
    if ocamlVersion.Some? {
      CompatibleMembers(collection.keys, collection, range => f.ocamlAccepts(ocamlVersion.value, range), version);
    }
  }

  /** Every failure of a resolution with a conforming `resolveConstraints`
      is a missing package, no compatible version, or a version that does
      not parse; the last only when the package has overrides. */
  lemma ResolveErrors(name: string, versionRange: Option<string>, ocamlVersion: Option<string>,
                      registry: OpamOverride.Registry, packageDirExists: bool,
                      dirs: seq<OpamRepository.SpecDir>, f: Foreign)
    requires SelectsMember(f.select)
    ensures var r := ResolvedManifest(name, versionRange, ocamlVersion, registry, packageDirExists, dirs, f);
      r.Err? ==>
        || r.error == PlainError("No package found: @" + OpamScope + "/" + name)
        || r.error == PlainError("No compatible version found: " + name + "@" + NormalizeRange(versionRange))
        || r.error.InvariantViolation?
  {
    if packageDirExists {
      var collection := OpamRepository.Collect(OpamRepository.Converted(name, dirs, f.render));
      if f.select(Candidates(collection, ocamlVersion, f), NormalizeRange(versionRange)).Some? {
        ChosenFromCollection(name, dirs, ocamlVersion, NormalizeRange(versionRange), f);
      }
    }
  }

  /** Without an override for the package the seed `_uid` stays. */
  lemma SeedKeptWithoutOverride(registry: OpamOverride.Registry, d: ManifestData, f: Foreign)
    requires Get(registry, Drop(d.name, |ScopePrefix|)).None?
    ensures OpamOverride.AppliedOverride(registry, Prepared(d), f.parse, f.satisfies, f.stringify, f.digest)
         == Ok(Prepared(d))
    ensures Prepared(d).uid == Some(SeedUid(Normalize(d)))
  {
  }

  // ---------------------------------------------------------------- resolver

  /** The `_remote` record of a manifest resolved from the repository. */
  function RemoteOf(d: ManifestData): (remote: Remote)
    requires d.opam.Some?
    ensures remote.reference == remote.resolved == d.name + "@" + d.version
    ensures remote.hash == d.opam.value.checksum
    ensures remote.kind == "opam" && remote.registry == "npm"
  {
    var reference := d.name + "@" + d.version;
    Remote("opam", "npm", d.opam.value.checksum, reference, reference)
  }

  /** An `OpamResolver`, which resolves one fragment. */
  class Resolver {
    var name: string
    var version: string

    constructor (fragment: string)
      ensures Resolution(name, version) == ParseResolution(fragment)
    {
      var r := ParseResolution(fragment);
      name := r.name;
      version := r.version;
    }

    /** `resolve`: a locked manifest is returned as it is; otherwise the
        resolved manifest gets its `_remote` record. */
    method Resolve(locked: Option<Manifest>, ocamlVersion: Option<string>, registry: OpamOverride.Registry,
                   packageDirExists: bool, dirs: seq<OpamRepository.SpecDir>, f: Foreign)
      returns (r: Result<Manifest>)
      requires OpamOverride.RegistryNormalized(registry)
      ensures locked.Some? ==> r == Ok(locked.value)
      ensures locked.None? ==>
        var expected := ResolvedManifest(name, Some(version), ocamlVersion, registry, packageDirExists, dirs, f);
        && (r.Ok? <==> expected.Ok?)
        && (r.Err? ==> r.error == expected.error)
        && (r.Ok? ==> fresh(r.value) && expected.value.opam.Some?
                      && r.value.Data() == expected.value.(remote := Some(RemoteOf(expected.value))))
    {
      if locked.Some? {
        return Ok(locked.value);
      }
      var resolved := ResolveManifest(name, Some(version), ocamlVersion, registry, packageDirExists, dirs, f);
      if resolved.Err? {
        return resolved;
      }
      var manifest := resolved.value;
      var reference := manifest.name + "@" + manifest.version;
      manifest.remote := Some(Remote("opam", "npm", manifest.opam.value.checksum, reference, reference));
      return Ok(manifest);
    }
  }
}

/** The opam repository checkout (opam-repository.js): each package is a
    directory of `<name>.<version>` spec directories, each holding an `opam`
    file and possibly a `url` file; together they make the package's
    collection of manifests, keyed by version. The index.js copies of
    `convertOpamToManifest` and `convertOpamToManifestCollection` do the
    same and are modelled by these. */
module OpamRepository {
  import opened Results
  import opened Text
  import opened OrderedMaps
  import opened Manifests

  /** The version a spec directory names: everything after its first `.`. */
  function VersionOfSpec(spec: string): (version: string)
    ensures '.' !in spec ==> version == ""
    ensures '.' in spec ==>
      var n := |spec| - |version| - 1;
      && 0 <= n && spec == spec[..n] + "." + version && '.' !in spec[..n]
  {
    SpecSplits(spec);
    DropFirstField(spec, '.')
  }

  lemma SpecSplits(spec: string)
    ensures '.' !in spec ==> DropFirstField(spec, '.') == ""
    ensures '.' in spec ==>
      var k := IndexOf(spec, '.');
      && 0 <= k && DropFirstField(spec, '.') == spec[k + 1..]
      && spec == spec[..k] + "." + spec[k + 1..] && '.' !in spec[..k]
  {
    DropFirstFieldIsRest(spec, '.');
    IndexOfFirst(spec, '.');
    var k := IndexOf(spec, '.');
    if k >= 0 {
      assert spec == spec[..k] + "." + spec[k + 1..];
    }
  }

  /** The dots of a version survive: `foo.1.2.3` names version `1.2.3`. */
  lemma VersionOfNamedSpec(name: string, version: string)
    requires '.' !in name
    ensures VersionOfSpec(name + "." + version) == version
  {
    var spec := name + "." + version;
    assert spec == name + ['.'] + version;
    IndexOfAfter(name, '.', version);
    DropFirstFieldIsRest(spec, '.');
    assert spec[|name| + 1..] == version;
  }

  /** A checksum of an opam `url` file, as `renderOpamUrl` gives it. */
  datatype Checksum = Checksum(kind: string, contents: string)

  /** `renderOpamUrl` of a parsed `url` file. */
  datatype OpamUrl = OpamUrl(url: string, checksum: seq<Checksum>)

  /** What a spec directory's `url` file gives: nothing when it does not
      exist, nothing when reading it yields `null`, or the rendered file. */
  datatype UrlFile = NoUrlFile | NullUrlData | Rendered(opamUrl: OpamUrl)

  /** One spec directory: its name, its `opam` file and its `url` file. */
  datatype SpecDir = SpecDir(spec: string, opamFile: string, urlFile: UrlFile)

  /** `EsyOpam.renderOpam(name, version, parseOpam(opamFile))`. */
  type Render = (string, string, string) -> ManifestData

  /** The contents of the first md5 checksum, if there is one. */
  function FirstMd5(checksums: seq<Checksum>): (r: Option<string>)
    ensures r.None? <==> forall i :: 0 <= i < |checksums| ==> checksums[i].kind != "md5"
    ensures r.Some? ==> exists i :: 0 <= i < |checksums| && checksums[i] == Checksum("md5", r.value)
                                    && forall j :: 0 <= j < i ==> checksums[j].kind != "md5"
  {
    if checksums == [] then None
    else if checksums[0].kind == "md5" then Some(checksums[0].contents)
    else
      var r := FirstMd5(checksums[1..]);
      assert forall i :: 1 <= i < |checksums| ==> checksums[i] == checksums[1..][i - 1];
      r
  }

  /** The `opam` record a converted manifest carries. */
  function OpamRecord(urlFile: UrlFile): (r: Opam)
    ensures r.files == Some([]) && r.patches.None?
    ensures !urlFile.Rendered? ==> r.url.None? && r.checksum.None?
    ensures urlFile.Rendered? ==> r.url == Some(urlFile.opamUrl.url) && r.checksum == FirstMd5(urlFile.opamUrl.checksum)
  {
    match urlFile
    case NoUrlFile => Opam(None, None, Some([]), None)
    case NullUrlData => Opam(None, None, Some([]), None)
    case Rendered(u) => Opam(Some(u.url), FirstMd5(u.checksum), Some([]), None)
  }

  /** `convertOpamToManifest`: the rendered manifest with its `opam`
      property replaced by the record of the `url` file. */
  function ConvertOpamToManifest(name: string, dir: SpecDir, render: Render): (pkg: ManifestData)
    ensures pkg.opam == Some(OpamRecord(dir.urlFile))
    ensures pkg.(opam := None) == render(name, VersionOfSpec(dir.spec), dir.opamFile).(opam := None)
  {
    render(name, VersionOfSpec(dir.spec), dir.opamFile).(opam := Some(OpamRecord(dir.urlFile)))
  }

  /** The manifests of a package's spec directories, in directory order. */
  function Converted(name: string, dirs: seq<SpecDir>, render: Render): (pkgs: seq<ManifestData>)
    ensures |pkgs| == |dirs|
    ensures forall i :: 0 <= i < |dirs| ==> pkgs[i] == ConvertOpamToManifest(name, dirs[i], render)
  {
    seq(|dirs|, i requires 0 <= i < |dirs| => ConvertOpamToManifest(name, dirs[i], render))
  }

  /** A package's manifests, keyed by version. */
  datatype ManifestCollection = ManifestCollection(name: string, versions: OrderedMap<ManifestData>)

  /** The versions object after storing `pkgs` in order. */
  function Collect(pkgs: seq<ManifestData>): OrderedMap<ManifestData> {
    if pkgs == [] then Empty()
    else Put(Collect(pkgs[..|pkgs| - 1]), pkgs[|pkgs| - 1].version, pkgs[|pkgs| - 1])
  }

  lemma CollectStep(pkgs: seq<ManifestData>, i: nat)
    requires i < |pkgs|
    ensures Collect(pkgs[..i + 1]) == Put(Collect(pkgs[..i]), pkgs[i].version, pkgs[i])
  {
    assert pkgs[..i + 1][..i] == pkgs[..i];
  }

  /** `convertOpamToManifestCollection`. */
  method ConvertOpamToManifestCollection(name: string, dirs: seq<SpecDir>, render: Render)
    returns (collection: ManifestCollection)
    ensures collection == ManifestCollection(name, Collect(Converted(name, dirs, render)))
  {
    var packageList := Converted(name, dirs, render);
    var versions := Empty();
    for i := 0 to |packageList|
      invariant versions == Collect(packageList[..i])
    {
      var pkg := packageList[i];
      CollectStep(packageList, i);
      versions := Put(versions, pkg.version, pkg);
    }
    assert packageList[..|packageList|] == packageList;
    collection := ManifestCollection(name, versions);
  }

  /** `getManifestCollection`: a package without a directory is an error. */
  method GetManifestCollection(packageName: string, packageDirExists: bool, dirs: seq<SpecDir>, render: Render)
    returns (r: Result<ManifestCollection>)
    ensures r.Err? <==> !packageDirExists
    ensures r.Err? ==> r.error == PlainError("No package found: @" + OpamScope + "/" + packageName)
    ensures r.Ok? ==> r.value == ManifestCollection(packageName, Collect(Converted(packageName, dirs, render)))
  {
    if !packageDirExists {
      return Err(PlainError("No package found: @" + OpamScope + "/" + packageName));
    }
    var collection := ConvertOpamToManifestCollection(packageName, dirs, render);
    return Ok(collection);
  }

  // ---------------------------------------------------------------- properties

  /** The manifest the last of `pkgs` with this version is. */
  function LastWithVersion(pkgs: seq<ManifestData>, version: string): Option<ManifestData> {
    if pkgs == [] then None
    else if pkgs[|pkgs| - 1].version == version then Some(pkgs[|pkgs| - 1])
    else LastWithVersion(pkgs[..|pkgs| - 1], version)
  }

  /** A version maps to the last manifest carrying it: a later duplicate
      overwrites an earlier one. */
  lemma {:induction false} CollectLookup(pkgs: seq<ManifestData>, version: string)
    ensures Get(Collect(pkgs), version) == LastWithVersion(pkgs, version)
  {
    if pkgs != [] {
      CollectLookup(pkgs[..|pkgs| - 1], version);
    }
  }

  /** The collection is a well-formed map. */
  lemma {:induction false} CollectValid(pkgs: seq<ManifestData>)
    ensures Valid(Collect(pkgs))
  {
    if pkgs != [] {
      CollectValid(pkgs[..|pkgs| - 1]);
    }
  }

  /** Some manifest of `pkgs` has this version exactly when the last one has
      it or one before it has. */
  lemma VersionAmongStep(pkgs: seq<ManifestData>, init: seq<ManifestData>, v: string)
    requires pkgs != [] && init == pkgs[..|pkgs| - 1]
    ensures (exists i :: 0 <= i < |pkgs| && pkgs[i].version == v) <==>
      (pkgs[|pkgs| - 1].version == v || exists i :: 0 <= i < |init| && init[i].version == v)
  {
    if exists i :: 0 <= i < |init| && init[i].version == v {
      var i :| 0 <= i < |init| && init[i].version == v;
      assert pkgs[i].version == v;
    }
  }

  /** The collection is a well-formed map whose keys are exactly the
      versions of the manifests, each listed once. */
  lemma {:induction false} CollectKeys(pkgs: seq<ManifestData>)
    ensures Valid(Collect(pkgs))
    ensures forall v :: v in Collect(pkgs).values <==> exists i :: 0 <= i < |pkgs| && pkgs[i].version == v
  {
    CollectValid(pkgs);
    if pkgs != [] {
      var init := pkgs[..|pkgs| - 1];
      CollectKeys(init);
      forall v ensures v in Collect(pkgs).values <==> exists i :: 0 <= i < |pkgs| && pkgs[i].version == v {
        VersionAmongStep(pkgs, init, v);
        assert v in Collect(pkgs).values <==> v == pkgs[|pkgs| - 1].version || v in Collect(init).values;
      }
    }
  }

  /** A stored manifest is stored under its own version. */
  lemma {:induction false} CollectByOwnVersion(pkgs: seq<ManifestData>, version: string)
    requires version in Collect(pkgs).values
    ensures Collect(pkgs).values[version].version == version
    ensures Collect(pkgs).values[version] in pkgs
  {
    var init := pkgs[..|pkgs| - 1];
    if pkgs[|pkgs| - 1].version != version {
      CollectByOwnVersion(init, version);
      assert Collect(pkgs).values[version] == Collect(init).values[version];
    }
  }

  /** Every manifest of a repository comes with no files of its own. */
  lemma CollectedWithoutFiles(name: string, dirs: seq<SpecDir>, render: Render, version: string)
    requires version in Collect(Converted(name, dirs, render)).values
    ensures var m := Collect(Converted(name, dirs, render)).values[version];
      m.opam.Some? && m.opam.value.files == Some([])
  {
    var pkgs := Converted(name, dirs, render);
    CollectByOwnVersion(pkgs, version);
    var i :| 0 <= i < |pkgs| && pkgs[i] == Collect(pkgs).values[version];
  }
}

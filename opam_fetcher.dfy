/** The opam fetcher (opam-fetcher.js): it downloads a package's source
    archive with its md5 checked, lays the override files and patches over
    it, and packs the result as an npm tarball under `package/`. The
    network, the file system and the subprocesses are inputs; what is
    modelled is every decision the fetcher makes between them. */
module OpamFetcher {
  import opened Results
  import opened Text
  import opened Manifests

  // ---------------------------------------------------------------- archive formats

  datatype TarballFormat = Gzip | Bzip | Zip | Xz

  /** `getTarballFormatFromFilename`: the suffixes are tried in a fixed
      order, and a name none of them ends is taken for gzip. */
  function TarballFormatOf(filename: string): (format: TarballFormat)
    ensures format == Bzip ==> EndsWith(filename, ".tar.bz") || EndsWith(filename, ".tar.bz2") || EndsWith(filename, ".tbz")
    ensures format == Zip ==> EndsWith(filename, ".zip")
    ensures format == Xz ==> EndsWith(filename, ".xz")
  {
    if EndsWith(filename, ".tgz") || EndsWith(filename, ".tar.gz") then Gzip
    else if EndsWith(filename, ".tar.bz") || EndsWith(filename, ".tar.bz2") || EndsWith(filename, ".tbz") then Bzip
    else if EndsWith(filename, ".zip") then Zip
    else if EndsWith(filename, ".xz") then Xz
    else Gzip
  }

  /** `s` does not end with `t` once their `k`-th characters from the end differ. */
  lemma DiffersFromEnd(s: string, t: string, k: nat)
    requires 0 < k <= |t|
    requires k <= |s| ==> s[|s| - k] != t[|t| - k]
    ensures !EndsWith(s, t)
  {
    if |t| <= |s| {
      assert s[|s| - |t|..][|t| - k] == s[|s| - k];
    }
  }

  lemma EndsWithOwn(p: string, ext: string)
    ensures EndsWith(p + ext, ext)
  {
    assert (p + ext)[|p + ext| - |ext|..] == ext;
  }

  /** The gzip suffixes give gzip ... */
  lemma FormatGzip(p: string)
    ensures TarballFormatOf(p + ".tgz") == Gzip
    ensures TarballFormatOf(p + ".tar.gz") == Gzip
  {
    EndsWithOwn(p, ".tgz");
    EndsWithOwn(p, ".tar.gz");
  }

  /** ... the bzip suffixes bzip, which none of the gzip names ends with ... */
  lemma FormatBzip(p: string)
    ensures TarballFormatOf(p + ".tar.bz") == Bzip
    ensures TarballFormatOf(p + ".tar.bz2") == Bzip
    ensures TarballFormatOf(p + ".tbz") == Bzip
  {
    var bz := p + ".tar.bz";
    DiffersFromEnd(bz, ".tgz", 2);
    DiffersFromEnd(bz, ".tar.gz", 2);
    EndsWithOwn(p, ".tar.bz");
    var bz2 := p + ".tar.bz2";
    DiffersFromEnd(bz2, ".tgz", 1);
    DiffersFromEnd(bz2, ".tar.gz", 1);
    EndsWithOwn(p, ".tar.bz2");
    var tbz := p + ".tbz";
    DiffersFromEnd(tbz, ".tgz", 2);
    DiffersFromEnd(tbz, ".tar.gz", 2);
    EndsWithOwn(p, ".tbz");
  }

  /** ... `.zip` gives zip ... */
  lemma FormatZip(p: string)
    ensures TarballFormatOf(p + ".zip") == Zip
  {
    var zip := p + ".zip";
    DiffersFromEnd(zip, ".tgz", 1);
    DiffersFromEnd(zip, ".tar.gz", 1);
    DiffersFromEnd(zip, ".tar.bz", 1);
    DiffersFromEnd(zip, ".tar.bz2", 1);
    DiffersFromEnd(zip, ".tbz", 1);
    EndsWithOwn(p, ".zip");
  }

  /** ... and an `.xz` name, `.tar.xz` included, gives xz. */
  lemma FormatXz(p: string)
    ensures TarballFormatOf(p + ".xz") == Xz
  {
    var xz := p + ".xz";
    DiffersFromEnd(xz, ".tgz", 2);
    DiffersFromEnd(xz, ".tar.gz", 2);
    DiffersFromEnd(xz, ".tar.bz", 2);
    DiffersFromEnd(xz, ".tar.bz2", 1);
    DiffersFromEnd(xz, ".tbz", 2);
    DiffersFromEnd(xz, ".zip", 1);
    EndsWithOwn(p, ".xz");
  }

  /** The `tar` option of `unpackOpamTarball`; a zip archive is extracted
      without `tar`. */
  function TarFlag(format: TarballFormat): (flag: Option<string>)
    ensures flag.None? <==> format == Zip
  {
    match format
    case Zip => None
    case Gzip => Some("-xzf")
    case Xz => Some("-xJf")
    case Bzip => Some("-xjf")
  }

  /** Different tar formats are unpacked with different options. */
  lemma TarFlagsDistinct(f: TarballFormat, g: TarballFormat)
    requires f != g && TarFlag(f).Some?
    ensures TarFlag(f) != TarFlag(g)
  {
  }

  /** The shell command `unpackOpamTarball` runs for a tar format, on
      Windows with both paths in Cygwin form. */
  function UnpackCommand(format: TarballFormat, filename: string, dest: string,
                         windows: bool, cygwinPath: string -> string): (command: Option<string>)
    ensures command.Some? <==> format != Zip
    ensures command.Some? ==> StartsWith(command.value, "tar " + TarFlag(format).value + " ")
    ensures command.Some? ==> EndsWith(command.value, " -C " + (if windows then cygwinPath(dest) else dest))
    ensures command.Some? ==> |"tar " + TarFlag(format).value + " "| + |" -C " + (if windows then cygwinPath(dest) else dest)| <= |command.value|
    ensures command.Some? ==> command.value[|"tar " + TarFlag(format).value + " "|..|command.value| - |" -C " + (if windows then cygwinPath(dest) else dest)|]
                              == (if windows then cygwinPath(filename) else filename)
  {
    match TarFlag(format)
    case None => None
    case Some(flag) =>
      var file := if windows then cygwinPath(filename) else filename;
      var dir := if windows then cygwinPath(dest) else dest;
      var command := "tar " + flag + " " + file + " -C " + dir;
      assert command[..|"tar " + flag + " "|] == "tar " + flag + " ";
      assert command[|command| - |" -C " + dir|..] == " -C " + dir;
      assert command[|"tar " + flag + " "|..|command| - |" -C " + dir|] == file;
      Some(command)
  }

  // ---------------------------------------------------------------- tarball names

  /** `parseReference(this.remote.reference)`. */
  datatype Reference = Reference(scope: Option<string>, name: string, version: string, uid: string)

  /** `getTarballFilename`: `name@version-uid.tgz`, behind `@scope-` for a
      scoped package. */
  function TarballFilename(reference: Reference): (filename: string)
    ensures EndsWith(filename, reference.name + "@" + reference.version + "-" + reference.uid + ".tgz")
    ensures reference.scope.Some? ==> StartsWith(filename, "@" + reference.scope.value + "-")
    ensures reference.scope.Some? ==>
              |filename| == |reference.scope.value| + 2 + |reference.name + "@" + reference.version + "-" + reference.uid + ".tgz"|
    ensures reference.scope.None? ==> filename == reference.name + "@" + reference.version + "-" + reference.uid + ".tgz"
  {
    var base := reference.name + "@" + reference.version + "-" + reference.uid + ".tgz";
    if reference.scope.Some? then
      var prefix := "@" + reference.scope.value + "-";
      assert (prefix + base)[..|prefix|] == prefix;
      prefix + base
    else base
  }

  /** Two versions of a package that differ only in `_uid` get different
      tarball names, so the mirror keeps one tarball per `_uid`. */
  lemma TarballFilenameFollowsUid(r1: Reference, r2: Reference)
    requires r1.scope == r2.scope && r1.name == r2.name && r1.version == r2.version
    requires r1.uid != r2.uid
    ensures TarballFilename(r1) != TarballFilename(r2)
  {
    var head := (if r1.scope.Some? then "@" + r1.scope.value + "-" else "") + r1.name + "@" + r1.version + "-";
    assert TarballFilename(r1) == head + r1.uid + ".tgz";
    assert TarballFilename(r2) == head + r2.uid + ".tgz";
    MiddleDetermined(head, r1.uid, r2.uid, ".tgz");
  }

  lemma MiddleDetermined(head: string, m1: string, m2: string, tail: string)
    ensures head + m1 + tail == head + m2 + tail ==> m1 == m2
  {
    if head + m1 + tail == head + m2 + tail {
      assert m1 == (head + m1 + tail)[|head|..|head| + |m1|];
      assert m2 == (head + m2 + tail)[|head|..|head| + |m2|];
    }
  }

  /** The packed tarball's own name classifies as gzip, which it is. */
  lemma TarballFilenameIsGzip(reference: Reference)
    ensures TarballFormatOf(TarballFilename(reference)) == Gzip
  {
    var base := reference.name + "@" + reference.version + "-" + reference.uid;
    if reference.scope.Some? {
      assert TarballFilename(reference) == ("@" + reference.scope.value + "-" + base) + ".tgz";
      FormatGzip("@" + reference.scope.value + "-" + base);
    } else {
      assert TarballFilename(reference) == base + ".tgz";
      FormatGzip(base);
    }
  }

  // ---------------------------------------------------------------- packing

  /** A tar entry header as `tar-fs` hands it to the `map` option. */
  class Header {
    var name: string
    var uid: Option<int>
    var gid: Option<int>
    var mode: int
    var size: int
    var mtime: int
    var kind: string

    constructor (name: string, uid: Option<int>, gid: Option<int>, mode: int, size: int, mtime: int, kind: string)
      ensures this.name == name && this.uid == uid && this.gid == gid
      ensures this.mode == mode && this.size == size && this.mtime == mtime && this.kind == kind
    {
      this.name := name;
      this.uid := uid;
      this.gid := gid;
      this.mode := mode;
      this.size := size;
      this.mtime := mtime;
      this.kind := kind;
    }
  }

  /** The name an entry gets in the packed tarball. */
  function PackedName(name: string): (packed: string)
    ensures StartsWith(packed, "package")
    ensures name == "." <==> packed == "package"
    ensures name != "." ==> StartsWith(packed, "package/") && |packed| == |"package/"| + |name|
  {
    var suffix := if name == "." then "" else "/" + name;
    var packed := "package" + suffix;
    assert packed[..7] == "package";
    assert name != "." ==> |packed| > 7 && packed[..8] == "package/";
    packed
  }

  /** The `map` of `packDirectory`: the entry is moved under `package/`
      and loses its owner; every other field stays. */
  method PackHeader(header: Header) returns (mapped: Header)
    modifies header
    ensures mapped == header
    ensures header.name == PackedName(old(header.name))
    ensures header.uid.None? && header.gid.None?
    ensures header.mode == old(header.mode) && header.size == old(header.size)
    ensures header.mtime == old(header.mtime) && header.kind == old(header.kind)
  {
    var suffix := if header.name == "." then "" else "/" + header.name;
    header.name := "package" + suffix;
    header.uid := None;
    header.gid := None;
    return header;
  }

  /** `strip: 1` of `unpackTarball`: the first path component goes. */
  function Strip(name: string): (stripped: string)
    ensures '/' !in name ==> stripped == ""
    ensures |stripped| < |name| || name == stripped == ""
  {
    DropFirstFieldIsRest(name, '/');
    IndexOfFirst(name, '/');
    DropFirstField(name, '/')
  }

  /** Unpacking undoes packing: every entry comes back under its own name,
      and the directory itself as the destination. */
  lemma StripPacked(name: string)
    ensures Strip(PackedName(name)) == if name == "." then "" else name
  {
    if name != "." {
      var packed := PackedName(name);
      assert packed == "package" + ['/'] + name;
      IndexOfAfter("package", '/', name);
      DropFirstFieldIsRest(packed, '/');
      assert packed[|"package"| + 1..] == name;
    } else {
      DropFirstFieldIsRest("package", '/');
      IndexOfFirst("package", '/');
    }
  }

  // ---------------------------------------------------------------- download

  type Chunk = seq<bv8>

  /** An md5 hasher's hex digest after the chunks it was fed, in order. */
  type Md5 = seq<Chunk> -> string

  /** `writeValidatedStream`: every chunk goes to the file; the hasher is fed
      only when an md5 is expected, and a digest that differs from it is a
      security error. */
  method WriteValidatedStream(stream: seq<Chunk>, md5checksum: Option<string>, md5: Md5)
    returns (r: Result<string>, written: seq<Chunk>)
    ensures written == stream
    ensures r == Validated(stream, md5checksum, md5)
  {
    var hashed: seq<Chunk> := [];
    written := [];
    for i := 0 to |stream|
      invariant written == stream[..i]
      invariant hashed == if md5checksum.Some? then stream[..i] else []
    {
      var chunk := stream[i];
      if md5checksum.Some? {
        hashed := hashed + [chunk];
      }
      written := written + [chunk];
    }
    assert stream[..|stream|] == stream;
    var actualChecksum := md5(hashed);
    if md5checksum.Some? && actualChecksum != md5checksum.value {
      r := Err(SecurityError("Incorrect md5sum (expected " + md5checksum.value + ", got " + actualChecksum + ")"));
      return;
    }
    r := Ok(actualChecksum);
  }

  /** The outcome of a checked download on values. */
  function Validated(stream: seq<Chunk>, md5checksum: Option<string>, md5: Md5): (r: Result<string>)
    ensures r.Ok? ==> md5checksum.None? || r.value == md5checksum.value
    ensures r.Err? ==> r.error.SecurityError?
  {
    if md5checksum.None? then Ok(md5([]))
    else if md5(stream) != md5checksum.value
    then Err(SecurityError("Incorrect md5sum (expected " + md5checksum.value + ", got " + md5(stream) + ")"))
    else Ok(md5checksum.value)
  }

  /** An archive passes exactly when no md5 is expected or its digest is the
      one expected. */
  lemma ValidatedAccepts(stream: seq<Chunk>, md5checksum: Option<string>, md5: Md5)
    ensures Validated(stream, md5checksum, md5).Ok? <==> md5checksum.None? || md5(stream) == md5checksum.value
  {
  }

  // ---------------------------------------------------------------- patches

  /** What the fetcher does to the world while patching. */
  datatype Effect = WriteFile(path: string, content: string) | Exec(command: string, cwd: string) | Unlink(path: string)

  /** A subprocess run: the error it fails with, if it fails. */
  type Runner = (string, string) -> Option<Error>

  /** The command applying one patch file: `patch` reading the file, at strip
      level 0 on Windows and 1, through `bash`, elsewhere. */
  function PatchCommand(patchFilename: string, windows: bool): (command: string)
    ensures windows ==> StartsWith(command, "patch -p0 -i ") && EndsWith(command, " " + patchFilename)
    ensures windows ==> |command| == |"patch -p0 -i "| + |patchFilename|
    ensures !windows ==> StartsWith(command, "bash -c \"patch -p1 < ") && EndsWith(command, " " + patchFilename + "\"")
    ensures !windows ==> |command| == |"bash -c \"patch -p1 < "| + |patchFilename| + 1
  {
    if windows then
      var command := "patch -p0 -i " + patchFilename;
      assert command[..|"patch -p0 -i "|] == "patch -p0 -i ";
      assert command[|command| - |" " + patchFilename|..] == " " + patchFilename;
      command
    else
      var command := "bash -c \"patch -p1 < " + patchFilename + "\"";
      assert command[..|"bash -c \"patch -p1 < "|] == "bash -c \"patch -p1 < ";
      assert command[|command| - |" " + patchFilename + "\""|..] == " " + patchFilename + "\"";
      command
  }

  /** Writing a patch next to the sources, running it, and removing it. */
  function PatchSteps(dest: string, patch: File, windows: bool): (steps: seq<Effect>)
    ensures |steps| == 3
    ensures steps[0] == WriteFile(JoinPath(dest, patch.name), patch.content)
    ensures steps[1] == Exec(PatchCommand(JoinPath(dest, patch.name), windows), dest)
    ensures steps[2] == Unlink(JoinPath(dest, patch.name))
  {
    var patchFilename := JoinPath(dest, patch.name);
    [WriteFile(patchFilename, patch.content), Exec(PatchCommand(patchFilename, windows), dest), Unlink(patchFilename)]
  }

  datatype PatchRun = PatchRun(effects: seq<Effect>, failure: Option<Error>)

  /** The effects of patching in order, up to the first patch that fails. */
  function Patched(dest: string, patches: seq<File>, windows: bool, run: Runner): PatchRun {
    if patches == [] then PatchRun([], None)
    else
      var steps := PatchSteps(dest, patches[0], windows);
      match Failure(dest, patches[0], windows, run)
      case Some(e) => PatchRun(steps, Some(e))
      case None =>
        var rest := Patched(dest, patches[1..], windows, run);
        PatchRun(steps + rest.effects, rest.failure)
  }

  /** How running one patch fails, if it does. */
  function Failure(dest: string, patch: File, windows: bool, run: Runner): Option<Error> {
    run(PatchCommand(JoinPath(dest, patch.name), windows), dest)
  }

  /** Every patch written, run and removed, in list order. */
  function AllSteps(dest: string, patches: seq<File>, windows: bool): seq<Effect> {
    if patches == [] then [] else PatchSteps(dest, patches[0], windows) + AllSteps(dest, patches[1..], windows)
  }

  /** One patch of `Patched`, from the `i`-th on. */
  lemma PatchedUnfold(dest: string, patches: seq<File>, i: nat, windows: bool, run: Runner)
    requires i < |patches|
    ensures var steps := PatchSteps(dest, patches[i], windows);
      var failure := Failure(dest, patches[i], windows, run);
      var rest := Patched(dest, patches[i + 1..], windows, run);
      Patched(dest, patches[i..], windows, run)
        == if failure.Some? then PatchRun(steps, failure) else PatchRun(steps + rest.effects, rest.failure)
  {
    assert patches[i..][0] == patches[i];
    assert patches[i..][1..] == patches[i + 1..];
  }

  /** One round of `applyPatches` keeps its loop invariant. */
  lemma PatchStep(dest: string, patches: seq<File>, i: nat, windows: bool, run: Runner, effects: seq<Effect>)
    requires i < |patches|
    requires var rest := Patched(dest, patches[i..], windows, run);
      Patched(dest, patches, windows, run) == PatchRun(effects + rest.effects, rest.failure)
    ensures var patchFilename := JoinPath(dest, patches[i].name);
      var command := PatchCommand(patchFilename, windows);
      var failure := run(command, dest);
      var effects' := effects + [WriteFile(patchFilename, patches[i].content)] + [Exec(command, dest)] + [Unlink(patchFilename)];
      var rest := Patched(dest, patches[i + 1..], windows, run);
      Patched(dest, patches, windows, run)
        == if failure.Some? then PatchRun(effects', failure) else PatchRun(effects' + rest.effects, rest.failure)
  {
    var steps := PatchSteps(dest, patches[i], windows);
    PatchedUnfold(dest, patches, i, windows, run);
    var patchFilename := JoinPath(dest, patches[i].name);
    var command := PatchCommand(patchFilename, windows);
    AppendThree(effects, WriteFile(patchFilename, patches[i].content), Exec(command, dest), Unlink(patchFilename));
    AppendAssoc(effects, steps, Patched(dest, patches[i + 1..], windows, run).effects);
  }

  lemma AppendThree(effects: seq<Effect>, a: Effect, b: Effect, c: Effect)
    ensures effects + [a] + [b] + [c] == effects + [a, b, c]
  {
  }

  lemma AppendAssoc(a: seq<Effect>, b: seq<Effect>, c: seq<Effect>)
    ensures (a + b) + c == a + (b + c)
  {
  }

  /** `applyPatches`: a patch list that is not there cannot be iterated. */
  method ApplyPatches(dest: string, patches: Option<seq<File>>, windows: bool, run: Runner)
    returns (r: Result<()>, effects: seq<Effect>)
    ensures patches.None? ==> r == Err(TypeError("patches is not iterable")) && effects == []
    ensures patches.Some? ==>
      var expected := Patched(dest, patches.value, windows, run);
      && effects == expected.effects
      && (r.Ok? <==> expected.failure.None?)
      && (r.Err? ==> r.error == expected.failure.value)
  {
    effects := [];
    if patches.None? {
      return Err(TypeError("patches is not iterable")), [];
    }
    var list := patches.value;
    var i := 0;
    while i < |list|
      invariant 0 <= i <= |list|
      invariant var rest := Patched(dest, list[i..], windows, run);
        Patched(dest, list, windows, run) == PatchRun(effects + rest.effects, rest.failure)
    {
      var patch := list[i];
      ghost var before := effects;
      var patchFilename := JoinPath(dest, patch.name);
      effects := effects + [WriteFile(patchFilename, patch.content)];
      var command := PatchCommand(patchFilename, windows);
      var failure := run(command, dest);
      effects := effects + [Exec(command, dest)];
      effects := effects + [Unlink(patchFilename)];
      PatchStep(dest, list, i, windows, run, before);
      if failure.Some? {
        return Err(failure.value), effects;
      }
      i := i + 1;
    }
    r := Ok(());
  }

  /** When every patch applies, each one is written, run and removed in
      list order ... */
  lemma {:induction false} PatchesInOrder(dest: string, patches: seq<File>, windows: bool, run: Runner)
    requires forall i :: 0 <= i < |patches| ==> Failure(dest, patches[i], windows, run).None?
    ensures Patched(dest, patches, windows, run) == PatchRun(AllSteps(dest, patches, windows), None)
  {
    if patches != [] {
      assert forall i :: 0 <= i < |patches[1..]| ==> patches[1..][i] == patches[i + 1];
      PatchesInOrder(dest, patches[1..], windows, run);
    }
  }

  /** ... three effects for each. */
  lemma {:induction false} AllStepsLayout(dest: string, patches: seq<File>, windows: bool)
    ensures |AllSteps(dest, patches, windows)| == 3 * |patches|
    ensures forall i :: 0 <= i < |patches| ==>
      AllSteps(dest, patches, windows)[3 * i..3 * i + 3] == PatchSteps(dest, patches[i], windows)
  {
    if patches != [] {
      var steps := PatchSteps(dest, patches[0], windows);
      var rest := AllSteps(dest, patches[1..], windows);
      AllStepsLayout(dest, patches[1..], windows);
      forall i | 0 <= i < |patches|
        ensures (steps + rest)[3 * i..3 * i + 3] == PatchSteps(dest, patches[i], windows)
      {
        if i > 0 {
          assert (steps + rest)[3 * i..3 * i + 3] == rest[3 * (i - 1)..3 * (i - 1) + 3];
          assert patches[1..][i - 1] == patches[i];
        }
      }
    }
  }

  /** A failing patch is the last one tried: the effects are those of the
      patches up to and including it, so its file is removed as well, and
      the failure is its error. */
  lemma {:induction false} FailureStops(dest: string, patches: seq<File>, windows: bool, run: Runner, k: nat)
    requires k < |patches|
    requires forall i :: 0 <= i < k ==> Failure(dest, patches[i], windows, run).None?
    requires Failure(dest, patches[k], windows, run).Some?
    ensures Patched(dest, patches, windows, run)
         == PatchRun(AllSteps(dest, patches[..k + 1], windows), Failure(dest, patches[k], windows, run))
  {
    if k > 0 {
      var rest := patches[1..];
      assert forall i :: 0 <= i < |rest| ==> rest[i] == patches[i + 1];
      FailureStops(dest, rest, windows, run, k - 1);
      assert patches[..k + 1][1..] == rest[..k];
    } else {
      assert patches[..1][1..] == [];
    }
  }

  /** The last effect of a failed patching removes the failing patch. */
  lemma FailureCleansUp(dest: string, patches: seq<File>, windows: bool, run: Runner, k: nat)
    requires k < |patches|
    requires forall i :: 0 <= i < k ==> Failure(dest, patches[i], windows, run).None?
    requires Failure(dest, patches[k], windows, run).Some?
    ensures var effects := Patched(dest, patches, windows, run).effects;
      |effects| == 3 * (k + 1) && effects[|effects| - 1] == Unlink(JoinPath(dest, patches[k].name))
  {
    FailureStops(dest, patches, windows, run, k);
    AllStepsLayout(dest, patches[..k + 1], windows);
    assert patches[..k + 1][k] == patches[k];
  }

  /** Every patch file written is removed right after its run, succeeding or not. */
  lemma {:induction false} PatchFilesRemoved(dest: string, patches: seq<File>, windows: bool, run: Runner)
    ensures var effects := Patched(dest, patches, windows, run).effects;
      && |effects| % 3 == 0
      && forall j :: 0 <= j < |effects| / 3 ==>
           effects[3 * j].WriteFile? && effects[3 * j + 2] == Unlink(effects[3 * j].path)
  {
    if patches != [] {
      var steps := PatchSteps(dest, patches[0], windows);
      if Failure(dest, patches[0], windows, run).None? {
        var rest := Patched(dest, patches[1..], windows, run).effects;
        PatchFilesRemoved(dest, patches[1..], windows, run);
        var effects := steps + rest;
        forall j | 0 <= j < |effects| / 3
          ensures effects[3 * j].WriteFile? && effects[3 * j + 2] == Unlink(effects[3 * j].path)
        {
          if j > 0 {
            assert effects[3 * j] == rest[3 * (j - 1)];
            assert effects[3 * j + 2] == rest[3 * (j - 1) + 2];
          }
        }
      }
    }
  }

  // ---------------------------------------------------------------- fetching

  /** Unpacks the downloaded archive: runs the tar command line it is given,
      or `extractZip` for `None`, and gives the error it fails with, if any. */
  type Unpacker = Option<string> -> Option<Error>

  /** Where the archive is downloaded to inside the staging directory. */
  function ArchivePath(tempPath: string): string {
    JoinPath(tempPath, "opam-tarball.tgz")
  }

  /** How `unpackOpamTarball` of the archive downloaded from `url` into
      `tempPath` fails, if it does: the format is read from the url. */
  function UnpackFailure(url: string, tempPath: string, windows: bool,
                         cygwinPath: string -> string, unpack: Unpacker): Option<Error>
  {
    unpack(UnpackCommand(TarballFormatOf(url), ArchivePath(tempPath), tempPath, windows, cygwinPath))
  }

  /** What `fetchFromExternal` hands back to the fetch step. */
  datatype FetchedOverride = FetchedOverride(hash: string, resolved: Option<string>)

  /** `fetchFromExternal`, from the looked-up manifest's opam record on:
      the download and its unpacking into `tempPath` (when there is a url)
      and the patches may fail it. `dest` is the directory the patches run
      in: the unpacked archive's top directory, or `tempPath` without a url. */
  method FetchFromExternal(ownHash: Option<string>, opam: Opam, stream: seq<Chunk>, md5: Md5,
                           tempPath: string, cygwinPath: string -> string, unpack: Unpacker,
                           dest: string, windows: bool, run: Runner)
    returns (r: Result<FetchedOverride>, effects: seq<Effect>)
    ensures opam.url.Some? && Validated(stream, opam.checksum, md5).Err? ==>
      r == Err(Validated(stream, opam.checksum, md5).error) && effects == []
    ensures opam.url.Some? && Validated(stream, opam.checksum, md5).Ok?
            && UnpackFailure(opam.url.value, tempPath, windows, cygwinPath, unpack).Some? ==>
      r == Err(UnpackFailure(opam.url.value, tempPath, windows, cygwinPath, unpack).value) && effects == []
    ensures r.Ok? ==> r.value.resolved.None?
    ensures r.Ok? ==> r.value.hash == if opam.url.Some? then Validated(stream, opam.checksum, md5).value
                                       else if TruthyText(ownHash) then ownHash.value else ""
    ensures opam.url.None? || (Validated(stream, opam.checksum, md5).Ok?
                               && UnpackFailure(opam.url.value, tempPath, windows, cygwinPath, unpack).None?) ==>
      && (opam.patches.None? ==> r == Err(TypeError("patches is not iterable")) && effects == [])
      && (opam.patches.Some? ==>
            var expected := Patched(dest, opam.patches.value, windows, run);
            && effects == expected.effects
            && (r.Ok? <==> expected.failure.None?)
            && (r.Err? ==> r.error == expected.failure.value))
  {
    var hash := if TruthyText(ownHash) then ownHash.value else "";
    effects := [];
    if opam.url.Some? {
      var downloaded, _ := WriteValidatedStream(stream, opam.checksum, md5);
      if downloaded.Err? {
        return Err(downloaded.error), [];
      }
      hash := downloaded.value;
      var format := TarballFormatOf(opam.url.value);
      var unpacked := unpack(UnpackCommand(format, ArchivePath(tempPath), tempPath, windows, cygwinPath));
      if unpacked.Some? {
        return Err(unpacked.value), [];
      }
    }
    var patched;
    patched, effects := ApplyPatches(dest, opam.patches, windows, run);
    if patched.Err? {
      return Err(patched.error), effects;
    }
    r := Ok(FetchedOverride(hash, None));
  }
}

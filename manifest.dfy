/** The package manifest the opam resolver produces and the override store
    rewrites: the `OpamManifest` shape of the resolver, with only the fields
    the pipeline reads or writes. Absent properties are `None`. */
module Manifests {
  import opened Results
  import opened OrderedMaps

  /** The npm scope of every opam package. */
  const OpamScope := "opam"

  /** `@opam/`, the prefix of every opam package name. */
  const ScopePrefix := "@" + OpamScope + "/"

  /** An entry of `opam.files` or `opam.patches`. */
  datatype File = File(name: string, content: string)

  /** An exported environment variable. */
  datatype EnvVar = EnvVar(val: string, scope: Option<string>)

  /** `esy.build` may be a command line, a list of them, or a list of
      argument lists. */
  datatype Build = Line(line: string) | Commands(commands: seq<string>) | Steps(steps: seq<seq<string>>)

  /** JavaScript truthiness of an optional build: an array is always truthy,
      a string only when it is not empty. */
  predicate TruthyBuild(b: Option<Build>) {
    match b
    case None => false
    case Some(Line(s)) => s != ""
    case Some(_) => true
  }

  /** JavaScript truthiness of an optional string. */
  predicate TruthyText(s: Option<string>) {
    s.Some? && s.value != ""
  }

  datatype Esy = Esy(build: Option<Build>, exportedEnv: Option<OrderedMap<EnvVar>>)

  datatype Opam = Opam(
    url: Option<string>,
    checksum: Option<string>,
    files: Option<seq<File>>,
    patches: Option<seq<File>>)

  /** The `_remote` record a resolver attaches. */
  datatype Remote = Remote(kind: string, registry: string, hash: Option<string>, reference: string, resolved: string)

  /** A manifest's contents at one moment. */
  datatype ManifestData = ManifestData(
    name: string,
    version: string,
    dependencies: Option<OrderedMap<string>>,
    peerDependencies: Option<OrderedMap<string>>,
    esy: Option<Esy>,
    opam: Option<Opam>,
    uid: Option<string>,
    remote: Option<Remote>)

  /** The shape `normalizeManifest` guarantees and `applyOverride` relies on:
      `esy`, `esy.exportedEnv`, `opam` and `opam.files` all present. */
  predicate Normalized(d: ManifestData) {
    && d.esy.Some? && d.esy.value.exportedEnv.Some?
    && d.opam.Some? && d.opam.value.files.Some?
  }

  /** A manifest object, whose properties the resolver and the override
      store reassign in place. */
  class Manifest {
    var name: string
    var version: string
    var dependencies: Option<OrderedMap<string>>
    var peerDependencies: Option<OrderedMap<string>>
    var esy: Option<Esy>
    var opam: Option<Opam>
    var uid: Option<string>
    var remote: Option<Remote>

    constructor (d: ManifestData)
      ensures Data() == d
    {
      name := d.name;
      version := d.version;
      dependencies := d.dependencies;
      peerDependencies := d.peerDependencies;
      esy := d.esy;
      opam := d.opam;
      uid := d.uid;
      remote := d.remote;
    }

    function Data(): ManifestData
      reads this
    {
      ManifestData(name, version, dependencies, peerDependencies, esy, opam, uid, remote)
    }
  }
}

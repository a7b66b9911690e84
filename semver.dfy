/** The parsed form of a semantic version, as the `semver` package's
    `SemVer` object holds it, and its `format()`. Parsing itself belongs to
    that package and is a parameter wherever it is used. */
module Semver {
  import opened Results
  import opened Text

  datatype SemVer = SemVer(major: nat, minor: nat, patch: nat, prerelease: seq<string>, build: seq<string>)

  /** `semver.parse`: a version record, or nothing for text that is not a version. */
  type Parser = string -> Option<SemVer>

  /** `SemVer.prototype.format`: build metadata is not part of the text. */
  function Format(v: SemVer): string {
    NatToString(v.major) + "." + NatToString(v.minor) + "." + NatToString(v.patch)
    + (if v.prerelease == [] then "" else "-" + Join(v.prerelease, '.'))
  }

  /** The major, minor and patch numbers alone. */
  function Release(v: SemVer): SemVer {
    SemVer(v.major, v.minor, v.patch, [], [])
  }

  /** What any conforming parser does: the release numbers of a version it
      accepted, formatted, parse back to those numbers. */
  ghost predicate ReadsReleases(parse: Parser) {
    forall s :: parse(s).Some? ==> parse(Format(Release(parse(s).value))) == Some(Release(parse(s).value))
  }
}

/** The opam URL index (src/resolvers/exotics/opam-resolver/opam-urls.js):
    the listing of prepared archives at https://opam.ocaml.org/urls.txt,
    parsed into name -> version -> {url, checksum}, and the policy that
    decides whether a cached copy of that index can be trusted.

    A listing line reads `archives/<name>.<version>+opam.tar.gz <md5> <mode>`.
    The parser recognises it with the unanchored regular expression
    `archives\/([^.]+)\.(.+)\+opam\.tar\.gz ([a-fA-F0-9]+)`; `MatchAt` is that
    expression tried at one position, `Exec` the leftmost search. */
module OpamUrls {
  import opened Results
  import opened Text

  const ArchivePrefix := "archives/"
  const ArchiveSuffix := "+opam.tar.gz "
  const ArchiveUrlBase := "https://opam.ocaml.org/archives/"

  datatype ArchiveEntry = ArchiveEntry(url: string, checksum: string)

  type Archives = map<string, map<string, ArchiveEntry>>

  datatype URLIndex = URLIndex(cacheKey: string, archives: Archives)

  /** `resolve`: the entry stored for a name and version, if both levels have one. */
  function Resolve(index: URLIndex, opamName: string, opamVersion: string): (r: Option<ArchiveEntry>)
    ensures opamName !in index.archives ==> r.None?
    ensures opamName in index.archives && opamVersion !in index.archives[opamName] ==> r.None?
    ensures opamName in index.archives && opamVersion in index.archives[opamName] ==>
              r == Some(index.archives[opamName][opamVersion])
  {
    if opamName !in index.archives then None
    else if opamVersion !in index.archives[opamName] then None
    else Some(index.archives[opamName][opamVersion])
  }

  // ---------------------------------------------------------------- the pattern

  predicate IsHexDigit(ch: char) {
    ('0' <= ch <= '9') || ('a' <= ch <= 'f') || ('A' <= ch <= 'F')
  }

  /** The characters a regular-expression `.` does not match. */
  predicate IsLineTerminator(ch: char) {
    ch == '\n' || ch == '\r' || ch == '\U{2028}' || ch == '\U{2029}'
  }

  predicate AllHex(s: string) {
    forall j :: 0 <= j < |s| ==> IsHexDigit(s[j])
  }

  predicate OneLine(s: string) {
    forall j :: 0 <= j < |s| ==> !IsLineTerminator(s[j])
  }

  /** Length of the longest prefix `[a-fA-F0-9]+` can consume. */
  function HexRun(s: string): (n: nat)
    ensures n <= |s|
  {
    if |s| > 0 && IsHexDigit(s[0]) then 1 + HexRun(s[1..]) else 0
  }

  lemma {:induction false} HexRunIsLongest(s: string)
    ensures AllHex(s[..HexRun(s)])
    ensures HexRun(s) < |s| ==> !IsHexDigit(s[HexRun(s)])
  {
    if |s| > 0 && IsHexDigit(s[0]) {
      HexRunIsLongest(s[1..]);
      assert s[..HexRun(s)] == [s[0]] + s[1..][..HexRun(s[1..])];
    }
  }

  /** A run of hex digits followed by something else is consumed exactly. */
  lemma {:induction false} HexRunOfRun(hex: string, trailer: string)
    requires AllHex(hex)
    requires trailer == [] || !IsHexDigit(trailer[0])
    ensures HexRun(hex + trailer) == |hex|
  {
    if hex == [] {
      assert hex + trailer == trailer;
    } else {
      assert (hex + trailer)[0] == hex[0];
      assert (hex + trailer)[1..] == hex[1..] + trailer;
      HexRunOfRun(hex[1..], trailer);
    }
  }

  /** Length of the longest prefix `.+` can consume. */
  function DotRun(s: string): (n: nat)
    ensures n <= |s|
  {
    if |s| > 0 && !IsLineTerminator(s[0]) then 1 + DotRun(s[1..]) else 0
  }

  lemma {:induction false} DotRunIsLongest(s: string)
    ensures OneLine(s[..DotRun(s)])
    ensures DotRun(s) < |s| ==> IsLineTerminator(s[DotRun(s)])
  {
    if |s| > 0 && !IsLineTerminator(s[0]) {
      DotRunIsLongest(s[1..]);
      assert s[..DotRun(s)] == [s[0]] + s[1..][..DotRun(s[1..])];
    }
  }

  /** `\+opam\.tar\.gz ([a-fA-F0-9]+)` matches at offset `e` of `tail`. */
  predicate SuffixAt(tail: string, e: nat)
    requires e <= |tail|
  {
    StartsWith(tail[e..], ArchiveSuffix) && HexRun(tail[e + |ArchiveSuffix|..]) > 0
  }

  /** Backtracking of the greedy `(.+)`: the longest version length, at most
      `e`, after which the rest of the pattern matches. */
  function VersionEnd(tail: string, e: nat): (r: Option<nat>)
    requires e <= |tail|
    ensures r.Some? ==> 1 <= r.value <= e && r.value + |ArchiveSuffix| <= |tail|
    decreases e
  {
    if e == 0 then None
    else if SuffixAt(tail, e) then Some(e)
    else VersionEnd(tail, e - 1)
  }

  lemma {:induction false} VersionEndMatches(tail: string, e: nat)
    requires e <= |tail|
    ensures VersionEnd(tail, e).Some? ==> SuffixAt(tail, VersionEnd(tail, e).value)
    decreases e
  {
    if e > 0 && !SuffixAt(tail, e) {
      VersionEndMatches(tail, e - 1);
    }
  }

  lemma {:induction false} VersionEndIsLongest(tail: string, e: nat)
    requires e <= |tail|
    ensures VersionEnd(tail, e).Some? ==> forall e' :: VersionEnd(tail, e).value < e' <= e ==> !SuffixAt(tail, e')
    ensures VersionEnd(tail, e).None? ==> forall e' :: 1 <= e' <= e ==> !SuffixAt(tail, e')
    decreases e
  {
    if e > 0 && !SuffixAt(tail, e) {
      VersionEndIsLongest(tail, e - 1);
    }
  }

  /** The search stops at the longest end where the suffix matches. */
  lemma {:induction false} VersionEndFinds(tail: string, hi: nat, e: nat)
    requires 1 <= e <= hi <= |tail|
    requires SuffixAt(tail, e)
    requires forall e' :: e < e' <= hi ==> !SuffixAt(tail, e')
    ensures VersionEnd(tail, hi) == Some(e)
    decreases hi
  {
    if hi > e {
      VersionEndFinds(tail, hi - 1, e);
    }
  }

  /** The three groups of one match. */
  datatype ArchiveLine = ArchiveLine(name: string, version: string, checksum: string)

  /** What `(.+)\+opam\.tar\.gz ([a-fA-F0-9]+)` consumes for these groups. */
  function TailText(version: string, checksum: string): string {
    version + ArchiveSuffix + checksum
  }

  /** The text the whole pattern consumes for a match with these groups. */
  function MatchText(l: ArchiveLine): string {
    ArchivePrefix + (l.name + "." + TailText(l.version, l.checksum))
  }

  /** Groups the pattern can produce: a dot-free name, a version on one line,
      a hex checksum, none of them empty. */
  predicate WellFormed(l: ArchiveLine) {
    && |l.name| > 0 && '.' !in l.name
    && |l.version| > 0 && OneLine(l.version)
    && |l.checksum| > 0 && AllHex(l.checksum)
  }

  /** `s` begins with `t`, and no hex digit follows it. */
  predicate EndsRunAt(s: string, t: string) {
    StartsWith(s, t) && (|t| < |s| ==> !IsHexDigit(s[|t|]))
  }

  /** `(.+)\+opam\.tar\.gz ([a-fA-F0-9]+)` at the start of `tail`: the version
      and checksum groups. */
  function MatchTail(tail: string): Option<(string, string)> {
    match VersionEnd(tail, DotRun(tail))
    case None => None
    case Some(e) =>
      var hex := tail[e + |ArchiveSuffix|..];
      Some((tail[..e], hex[..HexRun(hex)]))
  }

  /** `([^.]+)\.` and then `MatchTail`, at the start of `rest`. */
  function MatchRest(rest: string): Option<ArchiveLine> {
    var d := IndexOf(rest, '.');
    if d < 1 then None
    else match MatchTail(rest[d + 1..])
      case None => None
      case Some((version, checksum)) => Some(ArchiveLine(rest[..d], version, checksum))
  }

  /** The regular expression tried at position `i` of `line`. */
  function MatchAt(line: string, i: nat): Option<ArchiveLine>
    requires i <= |line|
  {
    var s := line[i..];
    if !StartsWith(s, ArchivePrefix) then None else MatchRest(s[|ArchivePrefix|..])
  }

  lemma MatchTailSound(tail: string)
    ensures MatchTail(tail).Some? ==>
      var (version, checksum) := MatchTail(tail).value;
      && |version| > 0 && OneLine(version) && |checksum| > 0 && AllHex(checksum)
      && EndsRunAt(tail, TailText(version, checksum))
  {
    if MatchTail(tail).Some? {
      var run := DotRun(tail);
      var e := VersionEnd(tail, run).value;
      var hex := tail[e + |ArchiveSuffix|..];
      var version, checksum := tail[..e], hex[..HexRun(hex)];
      assert MatchTail(tail).value == (version, checksum);
      VersionEndMatches(tail, run);
      DotRunIsLongest(tail);
      assert version == tail[..run][..e];
      SuffixFollows(tail, e);
      HexRunIsLongest(hex);
      EndsRunAtAppend(tail, version + ArchiveSuffix, checksum);
    }
  }

  /** Where the suffix matches after `tail[..e]`, `tail` starts with both. */
  lemma SuffixFollows(tail: string, e: nat)
    requires e <= |tail| && SuffixAt(tail, e)
    ensures StartsWith(tail, tail[..e] + ArchiveSuffix)
    ensures tail[|tail[..e] + ArchiveSuffix|..] == tail[e + |ArchiveSuffix|..]
  {
    StartsWithAppend(tail, tail[..e], ArchiveSuffix);
  }

  lemma MatchRestSound(rest: string)
    ensures MatchRest(rest).Some? ==>
      var l := MatchRest(rest).value;
      WellFormed(l) && EndsRunAt(rest, l.name + "." + TailText(l.version, l.checksum))
  {
    if MatchRest(rest).Some? {
      var d := IndexOf(rest, '.');
      var tail := rest[d + 1..];
      MatchTailSound(tail);
      IndexOfFirst(rest, '.');
      var l := MatchRest(rest).value;
      assert forall j :: 0 <= j < |l.name| ==> l.name[j] == rest[j];
      assert rest[..d + 1] == l.name + ".";
      assert rest[|l.name + "."|..] == tail;
      EndsRunAtAppend(rest, l.name + ".", TailText(l.version, l.checksum));
    }
  }

  /** Every match has well-formed groups and consumes exactly its match text,
      up to the end of the checksum run. */
  lemma MatchAtSound(line: string, i: nat)
    requires i <= |line|
    ensures MatchAt(line, i).Some? ==>
      WellFormed(MatchAt(line, i).value) && EndsRunAt(line[i..], MatchText(MatchAt(line, i).value))
  {
    var s := line[i..];
    if MatchAt(line, i).Some? {
      var rest := s[|ArchivePrefix|..];
      MatchRestSound(rest);
      var l := MatchRest(rest).value;
      EndsRunAtAppend(s, ArchivePrefix, l.name + "." + TailText(l.version, l.checksum));
    }
  }

  /** A prefix followed by text that ends a run ends that run too. */
  lemma EndsRunAtAppend(s: string, p: string, t: string)
    requires StartsWith(s, p) && EndsRunAt(s[|p|..], t)
    ensures EndsRunAt(s, p + t)
  {
    StartsWithAppend(s, p, t);
    if |p + t| < |s| {
      assert s[|p + t|] == s[|p|..][|t|];
    }
  }

  /** `re.exec(line)`: the first position from `i` on where the pattern
      matches, with its groups. */
  function Exec(line: string, i: nat): (r: Option<(nat, ArchiveLine)>)
    requires i <= |line|
    ensures r.Some? ==> i <= r.value.0 <= |line| && MatchAt(line, r.value.0) == Some(r.value.1)
    decreases |line| - i
  {
    match MatchAt(line, i)
    case Some(l) => Some((i, l))
    case None => if i == |line| then None else Exec(line, i + 1)
  }

  /** `Exec` finds the leftmost match: the pattern matches at no position it skipped. */
  lemma {:induction false} ExecIsLeftmost(line: string, i: nat, j: nat)
    requires i <= j <= |line|
    requires Exec(line, i).None? || j < Exec(line, i).value.0
    ensures MatchAt(line, j).None?
    decreases j - i
  {
    if i < j {
      assert MatchAt(line, i).None?;
      ExecIsLeftmost(line, i + 1, j);
    }
  }

  /** What one line of the listing contributes, if anything. */
  function LineRecord(line: string): (r: Option<ArchiveLine>)
    ensures !StartsWith(line, ArchivePrefix) ==> r.None?
    ensures r.Some? ==> WellFormed(r.value)
  {
    if !StartsWith(line, ArchivePrefix) then None
    else match Exec(line, 0)
      case None => None
      case Some((k, l)) => MatchAtSound(line, k); Some(l)
  }

  /** Address of a prepared archive. */
  function Url(name: string, version: string): string {
    ArchiveUrlBase + name + "." + version + "+opam.tar.gz"
  }

  /** Storing one matched line: the name's inner map is created on first sight. */
  function Record(archives: Archives, l: ArchiveLine): Archives {
    var entry := ArchiveEntry(Url(l.name, l.version), l.checksum);
    if l.name in archives then archives[l.name := archives[l.name][l.version := entry]]
    else archives[l.name := map[l.version := entry]]
  }

  /** What each line contributes; the parser uses `LineRecord`. */
  type Recognizer = string -> Option<ArchiveLine>

  /** The index built from `lines`, one line after another. */
  function ArchivesBy(recognize: Recognizer, lines: seq<string>): Archives {
    if lines == [] then map[]
    else
      var before := ArchivesBy(recognize, lines[..|lines| - 1]);
      match recognize(lines[|lines| - 1])
      case None => before
      case Some(l) => Record(before, l)
  }

  /** The body of the `parseArchives` loop for a matched line: the inner map
      is created on first sight of the name, then the version is set in it. */
  method StoreMatch(archives: Archives, m: ArchiveLine) returns (updated: Archives)
    ensures updated == Record(archives, m)
  {
    updated := archives;
    var opamName, opamVersion, checksum := m.name, m.version, m.checksum;
    var url := Url(opamName, opamVersion);
    var item: map<string, ArchiveEntry>;
    if opamName in updated {
      item := updated[opamName];
    } else {
      item := map[];
      updated := updated[opamName := item];
    }
    item := item[opamVersion := ArchiveEntry(url, checksum)];
    assert item == if opamName in archives then archives[opamName][opamVersion := ArchiveEntry(url, checksum)]
                   else map[opamVersion := ArchiveEntry(url, checksum)];
    updated := updated[opamName := item];
    assert updated == archives[opamName := item];
  }

  /** `parseArchives`. */
  method ParseArchives(data: string) returns (archives: Archives)
    ensures archives == ArchivesBy(LineRecord, Split(data, '\n'))
  {
    var lines := Split(data, '\n');
    archives := map[];
    var i := 0;
    while i < |lines|
      invariant 0 <= i <= |lines|
      invariant archives == ArchivesBy(LineRecord, lines[..i])
    {
      var line := lines[i];
      assert lines[..i + 1][..i] == lines[..i];
      assert lines[..i + 1][i] == line;
      if !StartsWith(line, ArchivePrefix) {
        assert LineRecord(line).None?;
        i := i + 1;
        continue;
      }
      var m := Exec(line, 0);
      if m.None? {
        assert LineRecord(line).None?;
        i := i + 1;
        continue;
      }
      assert LineRecord(line) == Some(m.value.1);
      archives := StoreMatch(archives, m.value.1);
      i := i + 1;
    }
    assert lines[..|lines|] == lines;
  }

  // ---------------------------------------------------------------- properties

  /** The entry the last line naming `name` and `version` describes, if any;
      every other line is ignored. */
  function LastEntry(recognize: Recognizer, lines: seq<string>, name: string, version: string): Option<ArchiveEntry> {
    if lines == [] then None
    else
      var r := recognize(lines[|lines| - 1]);
      if r.Some? && r.value.name == name && r.value.version == version then
        Some(ArchiveEntry(Url(name, version), r.value.checksum))
      else LastEntry(recognize, lines[..|lines| - 1], name, version)
  }

  /** Some line of `lines` is recognised with this name. */
  predicate NameSeen(recognize: Recognizer, lines: seq<string>, name: string) {
    exists j :: 0 <= j < |lines| && recognize(lines[j]).Some? && recognize(lines[j]).value.name == name
  }

  /** Looking a name and version up in a parsed listing finds what the last
      line for them says: later lines overwrite earlier ones and lines for
      other names or versions change nothing. */
  lemma {:induction false} ResolveParsed(recognize: Recognizer, cacheKey: string, lines: seq<string>,
                                         name: string, version: string)
    ensures Resolve(URLIndex(cacheKey, ArchivesBy(recognize, lines)), name, version)
         == LastEntry(recognize, lines, name, version)
  {
    if lines != [] {
      ResolveParsed(recognize, cacheKey, lines[..|lines| - 1], name, version);
    }
  }

  /** A name has an inner map exactly when some recognised line carries it. */
  lemma {:induction false} NamesParsed(recognize: Recognizer, lines: seq<string>, name: string)
    ensures name in ArchivesBy(recognize, lines) <==> NameSeen(recognize, lines, name)
  {
    if lines != [] {
      var init := lines[..|lines| - 1];
      NamesParsed(recognize, init, name);
      if NameSeen(recognize, init, name) {
        var j :| 0 <= j < |init| && recognize(init[j]).Some? && recognize(init[j]).value.name == name;
        assert lines[j] == init[j];
      }
      if NameSeen(recognize, lines, name) {
        var j :| 0 <= j < |lines| && recognize(lines[j]).Some? && recognize(lines[j]).value.name == name;
        if j < |init| {
          assert init[j] == lines[j];
        }
      }
    }
  }

  /** A line that is not recognised leaves the index as it was. */
  lemma UnmatchedLineIgnored(recognize: Recognizer, lines: seq<string>, line: string)
    requires recognize(line).None?
    ensures ArchivesBy(recognize, lines + [line]) == ArchivesBy(recognize, lines)
  {
    assert (lines + [line])[..|lines|] == lines;
  }

  /** Past the version, a well-formed tail has no `+` to start another suffix. */
  lemma NoPlusAfterVersion(version: string, checksum: string, trailer: string, e': nat)
    requires AllHex(checksum)
    requires '+' !in trailer
    requires |version| < e' <= |TailText(version, checksum) + trailer|
    ensures !SuffixAt(TailText(version, checksum) + trailer, e')
  {
    var tail := TailText(version, checksum) + trailer;
    var k := e' - |version|;
    if e' < |tail| {
      assert ArchiveSuffix[0] == '+' && '+' !in ArchiveSuffix[1..];
      if k < |ArchiveSuffix| {
        assert tail[e'] == ArchiveSuffix[k] == ArchiveSuffix[1..][k - 1];
      } else if k < |ArchiveSuffix| + |checksum| {
        assert tail[e'] == checksum[k - |ArchiveSuffix|];
      } else {
        assert tail[e'] == trailer[k - |ArchiveSuffix| - |checksum|];
      }
      assert tail[e'..][0] != ArchiveSuffix[0];
    } else {
      assert |tail[e'..]| < |ArchiveSuffix|;
    }
  }

  /** After the name, a well-formed tail yields its version and checksum. */
  lemma TailMatches(version: string, checksum: string, trailer: string)
    requires |version| > 0 && OneLine(version) && |checksum| > 0 && AllHex(checksum)
    requires trailer == [] || !IsHexDigit(trailer[0])
    requires '+' !in trailer
    ensures MatchTail(TailText(version, checksum) + trailer) == Some((version, checksum))
  {
    var tail := TailText(version, checksum) + trailer;
    var e := |version|;
    var hex := checksum + trailer;
    DropAppend(TailText(version, checksum), trailer, e);
    DropAppend(version + ArchiveSuffix, checksum, e);
    assert tail[e..] == ArchiveSuffix + checksum + trailer;
    TakeAppend(ArchiveSuffix + checksum, trailer, |ArchiveSuffix|);
    assert tail[e + |ArchiveSuffix|..] == hex;
    HexRunOfRun(checksum, trailer);
    assert SuffixAt(tail, e);
    var run := DotRun(tail);
    DotRunIsLongest(tail);
    assert e <= run;
    forall e' | e < e' <= run
      ensures !SuffixAt(tail, e')
    {
      NoPlusAfterVersion(version, checksum, trailer, e');
    }
    VersionEndFinds(tail, run, e);
    TakeAppend(checksum, trailer, |checksum|);
    TakeAppend(version + ArchiveSuffix + checksum, trailer, e);
    TakeAppend(version + ArchiveSuffix, checksum, e);
    TakeAppend(version, ArchiveSuffix, e);
  }

  /** A listing line with a dot-free name, a one-line version, a hex checksum and
      a trailer that neither continues the checksum nor holds a `+` is
      recognised with exactly those three parts. */
  lemma WellFormedLineParses(l: ArchiveLine, trailer: string)
    requires WellFormed(l)
    requires trailer == [] || !IsHexDigit(trailer[0])
    requires '+' !in trailer
    ensures LineRecord(MatchText(l) + trailer) == Some(l)
  {
    var line := MatchText(l) + trailer;
    var tail := TailText(l.version, l.checksum) + trailer;
    var t := l.name + "." + TailText(l.version, l.checksum);
    var rest := t + trailer;
    DropAppend(ArchivePrefix + t, trailer, |ArchivePrefix|);
    assert line[|ArchivePrefix|..] == rest;
    TakeAppend(ArchivePrefix + t, trailer, |ArchivePrefix|);
    assert StartsWith(line, ArchivePrefix);
    assert line[0..] == line;
    assert rest == l.name + ['.'] + tail;
    IndexOfAfter(l.name, '.', tail);
    assert rest[|l.name| + 1..] == tail;
    assert rest[..|l.name|] == l.name;
    TailMatches(l.version, l.checksum, trailer);
    assert MatchRest(rest) == Some(l);
    assert MatchAt(line, 0) == Some(l);
  }

  // ---------------------------------------------------------------- the cache

  /** Response headers, by lower-case name. */
  type Headers = map<string, string>

  /** A header as string interpolation renders it: a missing one reads "undefined". */
  function HeaderText(headers: Headers, name: string): string {
    if name in headers then headers[name] else "undefined"
  }

  /** `responseToIndexCacheKey`: the `last-modified` text and the
      `content-length` text, joined by `__`. */
  function CacheKey(headers: Headers): (key: string)
    ensures StartsWith(key, HeaderText(headers, "last-modified") + "__")
    ensures EndsWith(key, "__" + HeaderText(headers, "content-length"))
  {
    var key := HeaderText(headers, "last-modified") + "__" + HeaderText(headers, "content-length");
    assert key[..|HeaderText(headers, "last-modified") + "__"|] == HeaderText(headers, "last-modified") + "__";
    key
  }

  /** Of two `__` splits of one key, a tail longer than the other holds an `_`. */
  lemma JoinedKeySuffix(a1: string, b1: string, a2: string, b2: string)
    requires a1 + "__" + b1 == a2 + "__" + b2
    ensures |b2| > |b1| ==> '_' in b2
  {
    if |b2| > |b1| {
      var k := a1 + "__" + b1;
      assert b2[|b2| - |b1| - 1] == k[|k| - |b1| - 1];
    }
  }

  /** A key `a__b` with no `_` in `b` determines both `a` and `b`. */
  lemma JoinedKeyParts(a1: string, b1: string, a2: string, b2: string)
    requires '_' !in b1 && '_' !in b2
    requires a1 + "__" + b1 == a2 + "__" + b2
    ensures a1 == a2 && b1 == b2
  {
    JoinedKeySuffix(a1, b1, a2, b2);
    JoinedKeySuffix(a2, b2, a1, b1);
    var k := a1 + "__" + b1;
    assert b1 == k[|k| - |b1|..] == b2;
    assert a1 == k[..|a1|] == a2;
  }

  /** As long as `content-length` holds no `_` (a length never does), two
      responses have the same cache key exactly when both headers agree: a
      change of either header makes `fetchIndex` download the listing again. */
  lemma CacheKeyDeterminesHeaders(h1: Headers, h2: Headers)
    requires '_' !in HeaderText(h1, "content-length") && '_' !in HeaderText(h2, "content-length")
    ensures CacheKey(h1) == CacheKey(h2) <==>
      && HeaderText(h1, "last-modified") == HeaderText(h2, "last-modified")
      && HeaderText(h1, "content-length") == HeaderText(h2, "content-length")
  {
    if CacheKey(h1) == CacheKey(h2) {
      JoinedKeyParts(HeaderText(h1, "last-modified"), HeaderText(h1, "content-length"),
                     HeaderText(h2, "last-modified"), HeaderText(h2, "content-length"));
    }
  }

  /** The requests `fetchIndex` sends to the listing's address. */
  datatype Request = Head | Get

  /** Whether the listing must be downloaded again: there is no cached index,
      or the server's cache key differs from the one stored with it. */
  predicate NeedsFetch(cached: Option<URLIndex>, headHeaders: Headers) {
    cached.None? || CacheKey(headHeaders) != cached.value.cacheKey
  }

  /** The index `_fetchAndCache` builds from a GET response. */
  function FreshIndex(getHeaders: Headers, body: string): URLIndex {
    URLIndex(CacheKey(getHeaders), ArchivesBy(LineRecord, Split(body, '\n')))
  }

  /** `fetchIndex`. `cached` is the cache file's index when the file exists;
      `headHeaders` and `getHeaders`, `body` are what the server answers to HEAD
      and GET. Returns the requests sent, the index, and what is written to
      the cache file. */
  method FetchIndex(cached: Option<URLIndex>, headHeaders: Headers, getHeaders: Headers, body: string)
    returns (requests: seq<Request>, index: URLIndex, written: Option<URLIndex>)
    ensures requests == (if cached.Some? then [Head] else []) + (if NeedsFetch(cached, headHeaders) then [Get] else [])
    ensures NeedsFetch(cached, headHeaders) ==> index == FreshIndex(getHeaders, body) && written == Some(index)
    ensures !NeedsFetch(cached, headHeaders) ==> index == cached.value && written.None?
  {
    requests := [];
    if cached.Some? {
      requests := [Head];
      if CacheKey(headHeaders) == cached.value.cacheKey {
        return requests, cached.value, None;
      }
    }
    requests := requests + [Get];
    var archives := ParseArchives(body);
    index := URLIndex(CacheKey(getHeaders), archives);
    written := Some(index);
  }

  /** A freshly cached index is trusted on the next run while the server reports
      the same headers, and is replaced as soon as its key changes. */
  lemma CachedIndexTrusted(getHeaders: Headers, body: string, headHeaders: Headers)
    ensures !NeedsFetch(Some(FreshIndex(getHeaders, body)), headHeaders)
        <==> CacheKey(headHeaders) == CacheKey(getHeaders)
  {
  }
}

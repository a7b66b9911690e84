/** Keeping a git checkout of a remote repository current, and the version
    helper shared by the resolver (src/resolvers/exotics/opam-resolver/util.js).

    Every subprocess is a `Command`; a `Runner` gives the captured standard
    output of each one, or its failure. A sync is described by the effects it
    performs, in order. */
module RepositorySync {
  import opened Results
  import opened Text
  import opened Semver

  datatype Command = Git(args: seq<string>, cwd: Option<string>)

  /** What a run of a command printed, or how it failed. */
  type Runner = Command -> Result<string>

  datatype Effect = CallOnClone | CallOnUpdate | Spawn(command: Command)

  /** Which of the optional `onClone` / `onUpdate` callbacks the caller passed. */
  datatype Callbacks = Callbacks(onClone: bool, onUpdate: bool)

  function LsRemote(repo: string): Command {
    Git(["ls-remote", repo, "-r", "heads/master"], None)
  }

  function Clone(remote: string, checkout: string): Command {
    Git(["clone", remote, checkout], None)
  }

  function Pull(remote: string, checkout: string): Command {
    Git(["pull", "-f", remote, "master"], Some(checkout))
  }

  /** The commit id `git ls-remote` prints: the trimmed text before the first tab. */
  function ParseLsRemote(data: string): (commit: string)
    ensures '\t' !in commit
    ensures |commit| > 0 ==> !IsSpace(commit[0]) && !IsSpace(commit[|commit| - 1])
  {
    var piece := Split(data, '\t')[0];
    var t := TrimStart(piece);
    assert t == piece[|piece| - |t|..];
    var r := TrimEnd(t);
    assert r == t[..|r|];
    r
  }

  /** An `ls-remote` line `<commit>\t<ref>` yields exactly the commit. */
  lemma ParseLsRemoteLine(commit: string, rest: string)
    requires '\t' !in commit
    requires |commit| > 0 ==> !IsSpace(commit[0]) && !IsSpace(commit[|commit| - 1])
    ensures ParseLsRemote(commit + "\t" + rest) == commit
  {
    IndexOfAfter(commit, '\t', rest);
    var s := commit + "\t" + rest;
    assert s[..|commit|] == commit;
    SplitHead(s, '\t');
  }

  /** `gitReadMaster`: the commit the `master` head of `repo` points at. */
  method GitReadMaster(repo: string, run: Runner) returns (effects: seq<Effect>, commit: Result<string>)
    ensures effects == [Spawn(LsRemote(repo))]
    ensures commit.Ok? <==> run(LsRemote(repo)).Ok?
    ensures commit.Ok? ==> commit.value == ParseLsRemote(run(LsRemote(repo)).value)
    ensures commit.Err? ==> commit.error == run(LsRemote(repo)).error
  {
    effects := [Spawn(LsRemote(repo))];
    var data := run(LsRemote(repo));
    if data.Err? {
      return effects, Err(data.error);
    }
    commit := Ok(ParseLsRemote(data.value));
  }

  /** True when `effects` runs `c`. */
  predicate Runs(effects: seq<Effect>, c: Command) {
    Spawn(c) in effects
  }

  /** The effects of a sync, in order: a missing checkout is cloned; an existing
      one is compared with the remote and pulled from `master` when they differ. */
  function SyncEffects(remote: string, checkout: string, callbacks: Callbacks,
                       checkoutExists: bool, run: Runner): seq<Effect>
  {
    if !checkoutExists then
      (if callbacks.onClone then [CallOnClone] else []) + [Spawn(Clone(remote, checkout))]
    else
      var local, upstream := run(LsRemote(checkout)), run(LsRemote(remote));
      if local.Err? then [Spawn(LsRemote(checkout))]
      else if upstream.Err? || ParseLsRemote(local.value) == ParseLsRemote(upstream.value) then
        [Spawn(LsRemote(checkout)), Spawn(LsRemote(remote))]
      else
        [Spawn(LsRemote(checkout)), Spawn(LsRemote(remote))]
        + (if callbacks.onUpdate then [CallOnUpdate] else []) + [Spawn(Pull(remote, checkout))]
  }

  /** Whether the sync completes: every command it runs succeeds. */
  predicate SyncSucceeds(effects: seq<Effect>, run: Runner) {
    forall i :: 0 <= i < |effects| && effects[i].Spawn? ==> run(effects[i].command).Ok?
  }

  /** The outcome of a sync, from the commands' outcomes alone. */
  predicate SyncCompletes(remote: string, checkout: string, checkoutExists: bool, run: Runner) {
    if !checkoutExists then run(Clone(remote, checkout)).Ok?
    else
      var local, upstream := run(LsRemote(checkout)), run(LsRemote(remote));
      && local.Ok? && upstream.Ok?
      && (ParseLsRemote(local.value) != ParseLsRemote(upstream.value) ==> run(Pull(remote, checkout)).Ok?)
  }

  lemma SyncSucceedsAppend(a: seq<Effect>, b: seq<Effect>, run: Runner)
    ensures SyncSucceeds(a + b, run) <==> SyncSucceeds(a, run) && SyncSucceeds(b, run)
  {
    if SyncSucceeds(a + b, run) {
      forall i | 0 <= i < |a| && a[i].Spawn? ensures run(a[i].command).Ok? {
        assert (a + b)[i] == a[i];
      }
      forall i | 0 <= i < |b| && b[i].Spawn? ensures run(b[i].command).Ok? {
        assert (a + b)[|a| + i] == b[i];
      }
    }
  }

  lemma SyncSucceedsOne(e: Effect, run: Runner)
    ensures SyncSucceeds([e], run) <==> (e.Spawn? ==> run(e.command).Ok?)
  {
    assert [e][0] == e;
  }

  /** A sync succeeds exactly when the commands it chose to run all succeed. */
  lemma SyncSucceedsCompletes(remote: string, checkout: string, callbacks: Callbacks,
                              checkoutExists: bool, run: Runner)
    ensures SyncSucceeds(SyncEffects(remote, checkout, callbacks, checkoutExists, run), run)
        <==> SyncCompletes(remote, checkout, checkoutExists, run)
  {
    if !checkoutExists {
      var hooks: seq<Effect> := if callbacks.onClone then [CallOnClone] else [];
      SyncSucceedsAppend(hooks, [Spawn(Clone(remote, checkout))], run);
      SyncSucceedsOne(Spawn(Clone(remote, checkout)), run);
      if callbacks.onClone { SyncSucceedsOne(CallOnClone, run); }
    } else {
      var local, upstream := run(LsRemote(checkout)), run(LsRemote(remote));
      var lsReads := [Spawn(LsRemote(checkout)), Spawn(LsRemote(remote))];
      SyncSucceedsOne(Spawn(LsRemote(checkout)), run);
      SyncSucceedsAppend([Spawn(LsRemote(checkout))], [Spawn(LsRemote(remote))], run);
      SyncSucceedsOne(Spawn(LsRemote(remote)), run);
      assert lsReads == [Spawn(LsRemote(checkout))] + [Spawn(LsRemote(remote))];
      if local.Ok? && upstream.Ok? && ParseLsRemote(local.value) != ParseLsRemote(upstream.value) {
        var hooks: seq<Effect> := if callbacks.onUpdate then [CallOnUpdate] else [];
        if callbacks.onUpdate { SyncSucceedsOne(CallOnUpdate, run); }
        SyncSucceedsAppend(lsReads, hooks, run);
        SyncSucceedsAppend(lsReads + hooks, [Spawn(Pull(remote, checkout))], run);
        SyncSucceedsOne(Spawn(Pull(remote, checkout)), run);
      }
    }
  }

  /** `cloneOrUpdateRepository`. */
  method CloneOrUpdateRepository(remote: string, checkout: string, callbacks: Callbacks,
                                 checkoutExists: bool, run: Runner)
    returns (effects: seq<Effect>, r: Result<()>)
    ensures effects == SyncEffects(remote, checkout, callbacks, checkoutExists, run)
    ensures r.Ok? <==> SyncCompletes(remote, checkout, checkoutExists, run)
    ensures r.Err? ==>
              && |effects| > 0 && effects[|effects| - 1].Spawn?
              && SyncSucceeds(effects[..|effects| - 1], run)
              && run(effects[|effects| - 1].command) == Err(r.error)
  {
    if checkoutExists {
      var readLocal, localCommit := GitReadMaster(checkout, run);
      effects := readLocal;
      if localCommit.Err? {
        return effects, Err(localCommit.error);
      }
      var readRemote, remoteCommit := GitReadMaster(remote, run);
      effects := effects + readRemote;
      if remoteCommit.Err? {
        return effects, Err(remoteCommit.error);
      }
      r := Ok(());
      assert effects == [Spawn(LsRemote(checkout)), Spawn(LsRemote(remote))];
      if localCommit.value != remoteCommit.value {
        if callbacks.onUpdate {
          effects := effects + [CallOnUpdate];
        }
        effects := effects + [Spawn(Pull(remote, checkout))];
        var pulled := run(Pull(remote, checkout));
        r := if pulled.Ok? then Ok(()) else Err(pulled.error);
      }
    } else {
      effects := [];
      if callbacks.onClone {
        effects := effects + [CallOnClone];
      }
      effects := effects + [Spawn(Clone(remote, checkout))];
      var cloned := run(Clone(remote, checkout));
      r := if cloned.Ok? then Ok(()) else Err(cloned.error);
    }
  }

  /** A missing checkout: `onClone` (when given) and then exactly one clone, with no commit comparison. */
  lemma SyncClonesMissingCheckout(remote: string, checkout: string, callbacks: Callbacks, run: Runner)
    ensures var e := SyncEffects(remote, checkout, callbacks, false, run);
      && |e| == (if callbacks.onClone then 2 else 1)
      && (callbacks.onClone ==> e[0] == CallOnClone)
      && e[|e| - 1] == Spawn(Clone(remote, checkout))
      && (CallOnClone in e <==> callbacks.onClone)
      && !Runs(e, LsRemote(checkout)) && !Runs(e, LsRemote(remote)) && !Runs(e, Pull(remote, checkout))
  {
  }

  /** An existing checkout is pulled exactly when its commit differs from the remote's,
      after both reads; `onUpdate` is called only immediately before such a pull. */
  lemma SyncPullsOnlyOnNewCommits(remote: string, checkout: string, callbacks: Callbacks, run: Runner)
    ensures var e := SyncEffects(remote, checkout, callbacks, true, run);
      && !Runs(e, Clone(remote, checkout))
      && (Runs(e, Pull(remote, checkout)) <==>
            && run(LsRemote(checkout)).Ok? && run(LsRemote(remote)).Ok?
            && ParseLsRemote(run(LsRemote(checkout)).value) != ParseLsRemote(run(LsRemote(remote)).value))
      && (CallOnUpdate in e <==> callbacks.onUpdate && Runs(e, Pull(remote, checkout)))
      && (Runs(e, Pull(remote, checkout)) ==> e[|e| - 1] == Spawn(Pull(remote, checkout)))
      && (Runs(e, Pull(remote, checkout)) ==>
            && |e| == (if callbacks.onUpdate then 4 else 3)
            && e[..2] == [Spawn(LsRemote(checkout)), Spawn(LsRemote(remote))]
            && (callbacks.onUpdate ==> e[2] == CallOnUpdate))
  {
    var e := SyncEffects(remote, checkout, callbacks, true, run);
    var local, upstream := run(LsRemote(checkout)), run(LsRemote(remote));
    var pull := Pull(remote, checkout);
    assert pull != LsRemote(checkout) && pull != LsRemote(remote) && Clone(remote, checkout) != pull;
    if local.Err? || upstream.Err? || ParseLsRemote(local.value) == ParseLsRemote(upstream.value) {
      assert local.Err? ==> e == [Spawn(LsRemote(checkout))];
      assert local.Ok? ==> e == [Spawn(LsRemote(checkout)), Spawn(LsRemote(remote))];
    } else {
      var clone := Clone(remote, checkout);
      assert |clone.args| != |LsRemote(checkout).args| && clone != LsRemote(checkout) && clone != LsRemote(remote);
      if callbacks.onUpdate {
        assert e == [Spawn(LsRemote(checkout)), Spawn(LsRemote(remote)), CallOnUpdate, Spawn(pull)];
      } else {
        assert e == [Spawn(LsRemote(checkout)), Spawn(LsRemote(remote)), Spawn(pull)];
      }
    }
  }

  /** `stripVersionPrelease`: the version with its prerelease tag removed; an
      unparseable version violates an invariant. */
  function StripVersionPrerelease(parse: Parser, version: string): (r: Result<string>)
    ensures r.Err? <==> parse(version).None?
    ensures r.Err? ==> r.error == InvariantViolation("Invalid version: " + version)
  {
    match parse(version)
    case None => Err(InvariantViolation("Invalid version: " + version))
    case Some(v) => Ok(Format(v.(prerelease := [])))
  }

  /** The stripped text is a plain release with the original major, minor and patch. */
  lemma StripKeepsRelease(parse: Parser, version: string)
    requires ReadsReleases(parse)
    requires parse(version).Some?
    ensures var v := parse(version).value;
      && StripVersionPrerelease(parse, version) == Ok(Format(Release(v)))
      && parse(StripVersionPrerelease(parse, version).value) == Some(SemVer(v.major, v.minor, v.patch, [], []))
  {
  }

  /** Stripping twice is stripping once. */
  lemma StripIdempotent(parse: Parser, version: string)
    requires ReadsReleases(parse)
    requires parse(version).Some?
    ensures StripVersionPrerelease(parse, StripVersionPrerelease(parse, version).value)
         == StripVersionPrerelease(parse, version)
  {
    StripKeepsRelease(parse, version);
  }
}

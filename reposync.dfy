/** The `buf alpha repo sync` command: flag validation, module-flag parsing, the syncer
    options it assembles, the registry-backed collaborators it hands to the syncer, its
    error-handler policy, and the push-or-create step of its sink. Every RPC is an input
    (the outcome the registry answered with); helpers from other packages are the fields of
    `Helpers`, uninterpreted functions. */
module RepoSync {
  import opened Errors
  import opened BufSync

  datatype Visibility = Public | Private

  /** The command's flags. */
  datatype Flags = Flags(
    errorFormat: string,
    modules: seq<string>,
    create: bool,
    createVisibility: string,
    allBranches: bool)

  /** Functions of other packages whose bodies are not part of this model. */
  datatype Helpers = Helpers(
    validateErrorFormatFlag: string -> Option<Error>,           // bufcli.ValidateErrorFormatFlag
    visibilityFlagToVisibility: string -> Result<Visibility>,   // bufcli.VisibilityFlagToVisibility
    moduleIdentityForString: string -> Result<ModuleIdentity>,  // bufmoduleref.ModuleIdentityForString
    normalize: string -> string,                                // normalpath.Normalize
    newModule: (string, ModuleIdentity) -> Result<Module>,      // bufsync.NewModule
    newHashFromHex: string -> Result<Hash>)                     // git.NewHashFromHex

  // ---------------------------------------------------------------------------
  // run: flag validation

  /** Either `run` returns an error, or it calls `sync` with these arguments. */
  datatype RunStep =
    | Rejected(err: Error)
    | ProceedToSync(modules: seq<string>, createWithVisibility: string, allBranches: bool)

  /** `run`: the error format must be valid, --create and --create-visibility come together,
      and the visibility must parse; only then does it go on to `sync`. */
  function Run(f: Flags, h: Helpers): (r: RunStep)
    ensures h.validateErrorFormatFlag(f.errorFormat).Some? ==>
              r == Rejected(h.validateErrorFormatFlag(f.errorFormat).value)
    ensures r.ProceedToSync? <==>
              && h.validateErrorFormatFlag(f.errorFormat).None?
              && (f.create <==> f.createVisibility != "")
              && (f.createVisibility != "" ==> h.visibilityFlagToVisibility(f.createVisibility).Ok?)
    ensures r.ProceedToSync? ==> r == ProceedToSync(f.modules, f.createVisibility, f.allBranches)
    // the visibility handed on is non-empty exactly when --create is set
    ensures r.ProceedToSync? ==> (r.createWithVisibility != "" <==> f.create)
    // every inconsistency of the create flags is an invalid-argument error
    ensures h.validateErrorFormatFlag(f.errorFormat).None? && r.Rejected? ==> r.err.InvalidArgument?
  {
    match h.validateErrorFormatFlag(f.errorFormat)
    case Some(e) => Rejected(e)
    case None =>
      if f.createVisibility != "" then
        if !f.create then Rejected(InvalidArgument("Cannot set --create-visibility without --create."))
        else
          match h.visibilityFlagToVisibility(f.createVisibility)
          case Fail(_) => Rejected(InvalidArgument("invalid --create-visibility"))
          case Ok(_) => ProceedToSync(f.modules, f.createVisibility, f.allBranches)
      else if f.create then Rejected(InvalidArgument("--create-visibility is required if --create is set."))
      else ProceedToSync(f.modules, f.createVisibility, f.allBranches)
  }

  // ---------------------------------------------------------------------------
  // sync: module flags

  /** strings.IndexRune: the index of the first `c` in `s`, or -1. */
  function IndexOf(s: string, c: char): (r: int)
    ensures -1 <= r < |s|
  {
    if |s| == 0 then -1
    else if s[0] == c then 0
    else
      var k := IndexOf(s[1..], c);
      if k == -1 then -1 else 1 + k
  }

  /** IndexOf answers -1 exactly when `c` does not occur, and otherwise finds its first occurrence. */
  lemma {:induction false} IndexOfFirst(s: string, c: char)
    ensures IndexOf(s, c) == -1 <==> forall i | 0 <= i < |s| :: s[i] != c
    ensures IndexOf(s, c) != -1 ==> s[IndexOf(s, c)] == c && forall i | 0 <= i < IndexOf(s, c) :: s[i] != c
  {
    if |s| > 0 && s[0] != c {
      IndexOfFirst(s[1..], c);
      assert forall i | 1 <= i < |s| :: s[i] == s[1..][i - 1];
    }
  }

  /** A `--module` value split at its first colon into directory and identity. */
  function SplitModuleFlag(flag: string): (r: Option<(string, string)>)
    ensures r.None? <==> ':' !in flag
    ensures r.Some? ==> ':' !in r.value.0 && r.value.0 + ":" + r.value.1 == flag
  {
    var colon := IndexOf(flag, ':');
    IndexOfFirst(flag, ':');
    if colon == -1 then None
    else
      assert flag == flag[..colon] + [flag[colon]] + flag[colon + 1..];
      Some((flag[..colon], flag[colon + 1..]))
  }

  /** The split is at the first colon: any decomposition whose directory part has no colon is it. */
  lemma SplitAtFirstColon(dir: string, identity: string)
    requires ':' !in dir
    ensures SplitModuleFlag(dir + ":" + identity) == Some((dir, identity))
  {
    var flag := dir + ":" + identity;
    var colon := IndexOf(flag, ':');
    IndexOfFirst(flag, ':');
    assert flag[|dir|] == ':';
    assert flag[..|dir|] == dir;
    assert flag[..colon] == dir;
    assert flag[colon + 1..] == identity;
  }

  /** The error for a `--module` value without a colon. */
  function MissingIdentity(flag: string): Error
  {
    InvalidArgument("module " + flag + " is missing an identity")
  }

  /** One `--module` value turned into a module: identity from after the first colon,
      directory normalised from before it. */
  function ParseModuleFlag(flag: string, h: Helpers): (r: Result<Module>)
    ensures ':' !in flag ==> r == Fail(MissingIdentity(flag))
  {
    match SplitModuleFlag(flag)
    case None => Fail(MissingIdentity(flag))
    case Some((dir, identity)) =>
      match h.moduleIdentityForString(identity)
      case Fail(e) => Fail(Wrapped("module identity", e))
      case Ok(id) =>
        match h.newModule(h.normalize(dir), id)
        case Fail(e) => Fail(Wrapped("prepare module for sync", e))
        case Ok(m) => Ok(m)
  }

  /** What a `--module` value `dir:identity` with a colon-free `dir` becomes. */
  lemma ParseModuleFlagAt(dir: string, identity: string, h: Helpers)
    requires ':' !in dir
    ensures h.moduleIdentityForString(identity).Fail? ==>
              ParseModuleFlag(dir + ":" + identity, h)
              == Fail(Wrapped("module identity", h.moduleIdentityForString(identity).err))
    ensures h.moduleIdentityForString(identity).Ok? ==>
              var m := h.newModule(h.normalize(dir), h.moduleIdentityForString(identity).value);
              ParseModuleFlag(dir + ":" + identity, h)
              == if m.Fail? then Fail(Wrapped("prepare module for sync", m.err)) else m
  {
    SplitAtFirstColon(dir, identity);
  }

  /** The loop over the `--module` values: each is parsed in turn, and the first failure
      stops the loop. The per-value parser is a parameter, so the facts below hold for any. */
  function ParseEach<T>(flags: seq<string>, parse: string -> Result<T>): Result<seq<T>>
  {
    if |flags| == 0 then Ok([])
    else
      match ParseEach(flags[..|flags| - 1], parse)
      case Fail(e) => Fail(e)
      case Ok(ms) =>
        match parse(flags[|flags| - 1])
        case Fail(e) => Fail(e)
        case Ok(m) => Ok(ms + [m])
  }

  function FlagParser(h: Helpers): string -> Result<Module>
  {
    flag => ParseModuleFlag(flag, h)
  }

  /** All `--module` values parsed in order, stopping at the first malformed one. */
  function ParseModuleFlags(flags: seq<string>, h: Helpers): Result<seq<Module>>
  {
    ParseEach(flags, FlagParser(h))
  }

  /** The loop succeeds exactly when every value parses. */
  lemma {:induction false} ParseEachOk<T>(flags: seq<string>, parse: string -> Result<T>)
    ensures ParseEach(flags, parse).Ok? <==> forall i | 0 <= i < |flags| :: parse(flags[i]).Ok?
  {
    if |flags| > 0 {
      var init := flags[..|flags| - 1];
      assert forall i | 0 <= i < |init| :: init[i] == flags[i];
      ParseEachOk(init, parse);
    }
  }

  /** A successful loop yields each value's result, in input order. */
  lemma {:induction false} ParseEachValues<T>(flags: seq<string>, parse: string -> Result<T>)
    ensures ParseEach(flags, parse).Ok? ==>
              && |ParseEach(flags, parse).value| == |flags|
              && forall i | 0 <= i < |flags| ::
                   parse(flags[i]).Ok? && ParseEach(flags, parse).value[i] == parse(flags[i]).value
  {
    if |flags| > 0 && ParseEach(flags, parse).Ok? {
      var init := flags[..|flags| - 1];
      ParseEachValues(init, parse);
      var prefix, final := ParseEach(init, parse).value, parse(flags[|flags| - 1]).value;
      assert ParseEach(flags, parse).value == prefix + [final];
      assert forall i | 0 <= i < |init| :: init[i] == flags[i] && (prefix + [final])[i] == prefix[i];
    }
  }

  /** When the loop fails, the error is that of the first value that does not parse. */
  lemma {:induction false} ParseEachFirstError<T>(flags: seq<string>, parse: string -> Result<T>)
    ensures ParseEach(flags, parse).Fail? ==>
              exists j | 0 <= j < |flags| ::
                && parse(flags[j]).Fail?
                && ParseEach(flags, parse).err == parse(flags[j]).err
                && forall i | 0 <= i < j :: parse(flags[i]).Ok?
  {
    if |flags| > 0 {
      var init := flags[..|flags| - 1];
      assert forall i | 0 <= i < |init| :: init[i] == flags[i];
      ParseEachFirstError(init, parse);
      if ParseEach(init, parse).Ok? {
        ParseEachOk(init, parse);
      }
    }
  }

  /** The module flags parse exactly when each one does, giving each flag's module in flag
      order; otherwise the error is that of the first malformed flag. */
  lemma ParseModuleFlagsSpec(flags: seq<string>, h: Helpers)
    ensures ParseModuleFlags(flags, h).Ok? <==> forall i | 0 <= i < |flags| :: ParseModuleFlag(flags[i], h).Ok?
    ensures ParseModuleFlags(flags, h).Ok? ==>
              && |ParseModuleFlags(flags, h).value| == |flags|
              && forall i | 0 <= i < |flags| :: ParseModuleFlags(flags, h).value[i] == ParseModuleFlag(flags[i], h).value
    ensures ParseModuleFlags(flags, h).Fail? ==>
              exists j | 0 <= j < |flags| ::
                && ParseModuleFlag(flags[j], h).Fail?
                && ParseModuleFlags(flags, h).err == ParseModuleFlag(flags[j], h).err
                && forall i | 0 <= i < j :: ParseModuleFlag(flags[i], h).Ok?
  {
    ParseEachOk(flags, FlagParser(h));
    ParseEachValues(flags, FlagParser(h));
    ParseEachFirstError(flags, FlagParser(h));
  }

  /** One more value after a successful prefix. */
  lemma ParseEachStep<T>(flags: seq<string>, i: nat, parse: string -> Result<T>)
    requires i < |flags| && ParseEach(flags[..i], parse).Ok?
    ensures parse(flags[i]).Fail? ==> ParseEach(flags[..i + 1], parse) == Fail(parse(flags[i]).err)
    ensures parse(flags[i]).Ok? ==>
              ParseEach(flags[..i + 1], parse) == Ok(ParseEach(flags[..i], parse).value + [parse(flags[i]).value])
  {
    assert flags[..i + 1][..i] == flags[..i];
  }

  /** Once a prefix fails, every longer list fails with the same error. */
  lemma {:induction false} ParseEachPrefixFail<T>(flags: seq<string>, i: nat, parse: string -> Result<T>)
    requires i <= |flags| && ParseEach(flags[..i], parse).Fail?
    ensures ParseEach(flags, parse) == ParseEach(flags[..i], parse)
    decreases |flags| - i
  {
    if i == |flags| {
      assert flags[..i] == flags;
    } else {
      assert flags[..i + 1][..i] == flags[..i];
      ParseEachPrefixFail(flags, i + 1, parse);
    }
  }

  // ---------------------------------------------------------------------------
  // sync: the syncer options

  /** The registry-backed collaborators `sync` hands to the syncer. Each stands for the
      closure built over the client configuration; what it does when called is
      ResolveSyncPoint, CheckSyncedGitCommits and GetDefaultBranch respectively. */
  datatype Collaborator = RegistrySyncPointResolver | RegistryGitCommitChecker | RegistryDefaultBranchGetter

  type CommandOption = SyncerOption<Collaborator, Collaborator, Collaborator>

  /** The options `sync` always passes, in order, and all-branches when the flag is set. */
  function BaseOptions(allBranches: bool): (r: seq<CommandOption>)
    ensures |r| == if allBranches then 4 else 3
    ensures r[0] == SyncerWithResumption(RegistrySyncPointResolver)
    ensures r[1] == SyncerWithGitCommitChecker(RegistryGitCommitChecker)
    ensures r[2] == SyncerWithModuleDefaultBranchGetter(RegistryDefaultBranchGetter)
    ensures allBranches ==> r[3] == SyncerWithAllBranches
  {
    [ SyncerWithResumption(RegistrySyncPointResolver),
      SyncerWithGitCommitChecker(RegistryGitCommitChecker),
      SyncerWithModuleDefaultBranchGetter(RegistryDefaultBranchGetter) ]
    + (if allBranches then [SyncerWithAllBranches] else [])
  }

  /** One SyncerWithModule option per module, in order. */
  function ModuleOptions(ms: seq<Module>): (r: seq<CommandOption>)
    ensures |r| == |ms|
    ensures forall i | 0 <= i < |ms| :: r[i] == SyncerWithModule(ms[i])
  {
    seq(|ms|, i requires 0 <= i < |ms| => SyncerWithModule(ms[i]))
  }

  lemma ModuleOptionsSnoc(ms: seq<Module>, m: Module)
    ensures ModuleOptions(ms + [m]) == ModuleOptions(ms) + [SyncerWithModule(m)]
  {
  }

  /** Where `sync` stops: with nothing to do, with an error, or calling NewSyncer with these options. */
  datatype SyncStep = NothingToSync | Aborted(err: Error) | CallNewSyncer(options: seq<CommandOption>)

  /** `sync` up to the NewSyncer call. `openRepository` and `newClientConfig` are the errors
      (if any) of opening the repository and building the client configuration. */
  method Sync(modules: seq<string>, allBranches: bool, openRepository: Option<Error>,
              newClientConfig: Option<Error>, h: Helpers) returns (s: SyncStep)
    // no modules: done before the repository is opened
    ensures modules == [] ==> s == NothingToSync
    ensures modules != [] && openRepository.Some? ==> s == Aborted(Wrapped("open repository", openRepository.value))
    ensures modules != [] && openRepository.None? && newClientConfig.Some? ==>
              s == Aborted(Wrapped("create connect client", newClientConfig.value))
    // otherwise the first malformed module aborts, else the options are the base ones then one per module in order
    ensures modules != [] && openRepository.None? && newClientConfig.None? ==>
              match ParseModuleFlags(modules, h)
              case Fail(e) => s == Aborted(e)
              case Ok(ms) => s == CallNewSyncer(BaseOptions(allBranches) + ModuleOptions(ms))
  {
    if |modules| == 0 {
      return NothingToSync;
    }
    if openRepository.Some? {
      return Aborted(Wrapped("open repository", openRepository.value));
    }
    if newClientConfig.Some? {
      return Aborted(Wrapped("create connect client", newClientConfig.value));
    }
    var options := SyncerOptions(modules, allBranches, h);
    s := if options.Fail? then Aborted(options.err) else CallNewSyncer(options.value);
  }

  /** The option list `sync` hands to NewSyncer: the base options, then one SyncerWithModule
      per module flag in flag order; the first malformed flag stops the assembly. */
  method SyncerOptions(modules: seq<string>, allBranches: bool, h: Helpers)
    returns (r: Result<seq<CommandOption>>)
    ensures ParseModuleFlags(modules, h).Fail? ==> r == Fail(ParseModuleFlags(modules, h).err)
    ensures ParseModuleFlags(modules, h).Ok? ==>
              r == Ok(BaseOptions(allBranches) + ModuleOptions(ParseModuleFlags(modules, h).value))
  {
    var options: seq<CommandOption> := [
      SyncerWithResumption(RegistrySyncPointResolver),
      SyncerWithGitCommitChecker(RegistryGitCommitChecker),
      SyncerWithModuleDefaultBranchGetter(RegistryDefaultBranchGetter)
    ];
    if allBranches {
      options := options + [SyncerWithAllBranches];
    }
    var i := 0;
    while i < |modules|
      invariant 0 <= i <= |modules|
      invariant ParseModuleFlags(modules[..i], h).Ok?
      invariant options == BaseOptions(allBranches) + ModuleOptions(ParseModuleFlags(modules[..i], h).value)
    {
      ParseEachStep(modules, i, FlagParser(h));
      var parsed := ParseModuleFlag(modules[i], h);
      if parsed.Fail? {
        ParseEachPrefixFail(modules, i + 1, FlagParser(h));
        return Fail(parsed.err);
      }
      ModuleOptionsSnoc(ParseModuleFlags(modules[..i], h).value, parsed.value);
      options := options + [SyncerWithModule(parsed.value)];
      i := i + 1;
    }
    assert modules[..i] == modules;
    return Ok(options);
  }

  /** The options `sync` builds configure a syncer whose modules are the parsed modules in
      flag order, with all three registry collaborators and the all-branches flag as given;
      applying them fails exactly when two modules share a String() form. */
  lemma {:induction false} SyncOptionsConfigure(allBranches: bool, ms: seq<Module>)
    ensures ApplyAll(EmptyConfig(), BaseOptions(allBranches) + ModuleOptions(ms)).1.None? <==> DistinctStrings(ms)
    ensures ApplyAll(EmptyConfig(), BaseOptions(allBranches) + ModuleOptions(ms)).1.None? ==>
              ApplyAll(EmptyConfig(), BaseOptions(allBranches) + ModuleOptions(ms)).0
              == Config(ms, Some(RegistrySyncPointResolver), Some(RegistryGitCommitChecker),
                        Some(RegistryDefaultBranchGetter), allBranches)
  {
    var base := BaseOptions(allBranches);
    var empty: Config<Collaborator, Collaborator, Collaborator> := EmptyConfig();
    ApplyAllAppend(empty, base, ModuleOptions(ms));
    var c := Config([], Some(RegistrySyncPointResolver), Some(RegistryGitCommitChecker),
                    Some(RegistryDefaultBranchGetter), allBranches);
    var c1 := empty.(syncPointResolver := Some(RegistrySyncPointResolver));
    var c2 := c1.(syncedGitCommitChecker := Some(RegistryGitCommitChecker));
    var c3 := c2.(moduleDefaultBranchGetter := Some(RegistryDefaultBranchGetter));
    assert ApplyAll(empty, base) == ApplyAll(c1, base[1..]);
    assert ApplyAll(c1, base[1..]) == ApplyAll(c2, base[2..]) by { assert base[1..][1..] == base[2..]; }
    assert ApplyAll(c2, base[2..]) == ApplyAll(c3, base[3..]) by { assert base[2..][1..] == base[3..]; }
    if allBranches {
      assert base[3..][1..] == [];
      assert ApplyAll(c3, base[3..]) == (c, None);
    } else {
      assert base[3..] == [];
    }
    ModulesOfModuleOptions(ms);
    assert c.modulesToSync + ModulesOf(ModuleOptions(ms)) == ms;
    ApplyAllRegistersInOrder(c, ModuleOptions(ms));
    ModuleOptionsOnlyTouchModules(c, ModuleOptions(ms));
  }

  lemma {:induction false} ModulesOfModuleOptions(ms: seq<Module>)
    ensures ModulesOf(ModuleOptions(ms)) == ms
  {
    if ms != [] {
      assert ModuleOptions(ms)[1..] == ModuleOptions(ms[1..]);
      ModulesOfModuleOptions(ms[1..]);
    }
  }

  lemma {:induction false} ModuleOptionsOnlyTouchModules<R, C, G>(c: Config<R, C, G>, opts: seq<SyncerOption<R, C, G>>)
    requires forall i | 0 <= i < |opts| :: opts[i].SyncerWithModule?
    ensures ApplyAll(c, opts).0 == c.(modulesToSync := ApplyAll(c, opts).0.modulesToSync)
    decreases |opts|
  {
    if opts != [] {
      ModuleOptionsOnlyTouchModules(ApplyOption(c, opts[0]).0, opts[1..]);
    }
  }

  // ---------------------------------------------------------------------------
  // the registry-backed collaborators

  /** The sync point resolver, given the outcome of GetGitSyncPoint (the recorded commit
      hash in hex): NotFound means no sync point, a hash that does not parse is an error. */
  function ResolveSyncPoint(response: Result<string>, newHashFromHex: string -> Result<Hash>): (r: Result<Option<Hash>>)
    ensures r == Ok(None) <==> response.Fail? && CodeOf(response.err) == NotFound
    ensures r.Ok? && r.value.Some? <==> response.Ok? && newHashFromHex(response.value).Ok?
    ensures r.Ok? && r.value.Some? ==> r.value.value == newHashFromHex(response.value).value
    ensures r.Fail? && response.Fail? ==> r.err == Wrapped("get git sync point", response.err)
    ensures r.Fail? && response.Ok? ==>
              r.err == Wrapped("invalid sync point from BSR", newHashFromHex(response.value).err)
  {
    match response
    case Fail(e) =>
      if CodeOf(e) == NotFound then Ok(None) else Fail(Wrapped("get git sync point", e))
    case Ok(hex) =>
      match newHashFromHex(hex)
      case Fail(e) => Fail(Wrapped("invalid sync point from BSR", e))
      case Ok(hash) => Ok(Some(hash))
  }

  /** The error for a label the registry returned that was not asked about. */
  function UnexpectedSyncedHash(hash: string): Error
  {
    Message("received unexpected synced hash " + hash)
  }

  /** The synced-commit checker, given the requested hashes and the outcome of
      GetLabelsInNamespace (the names of the labels found). NotFound means the repository
      does not exist yet: a nil set, no error. Otherwise the result is the set of returned
      labels, each of which must have been requested. */
  method CheckSyncedGitCommits(commitHashes: set<string>, response: Result<seq<string>>)
    returns (r: Result<Option<set<string>>>)
    ensures response.Fail? ==>
              r == if CodeOf(response.err) == NotFound then Ok(None)
                   else Fail(Wrapped("get labels in namespace", response.err))
    ensures response.Ok? ==>
              (r.Ok? <==> forall i | 0 <= i < |response.value| :: response.value[i] in commitHashes)
    ensures response.Ok? && r.Ok? ==>
              r.value == Some(set i | 0 <= i < |response.value| :: response.value[i])
    ensures r.Ok? && r.value.Some? ==> r.value.value <= commitHashes
    ensures response.Ok? && r.Fail? ==>
              exists j | 0 <= j < |response.value| ::
                && response.value[j] !in commitHashes
                && (forall i | 0 <= i < j :: response.value[i] in commitHashes)
                && r.err == UnexpectedSyncedHash(response.value[j])
  {
    if response.Fail? {
      if CodeOf(response.err) == NotFound {
        return Ok(None);
      }
      return Fail(Wrapped("get labels in namespace", response.err));
    }
    var labels := response.value;
    var syncedHashes: set<string> := {};
    for k := 0 to |labels|
      invariant forall i | 0 <= i < k :: labels[i] in commitHashes
      invariant syncedHashes == set i | 0 <= i < k :: labels[i]
    {
      var syncedHash := labels[k];
      if syncedHash !in commitHashes {
        return Fail(UnexpectedSyncedHash(syncedHash));
      }
      syncedHashes := syncedHashes + {syncedHash};
      assert (set i | 0 <= i < k + 1 :: labels[i]) == (set i | 0 <= i < k :: labels[i]) + {labels[k]};
    }
    return Ok(Some(syncedHashes));
  }

  /** The default-branch getter, given the outcome of GetRepositoryByFullName (the
      repository's default branch): NotFound becomes exactly ErrModuleDoesNotExist. */
  function GetDefaultBranch(response: Result<string>): (r: Result<string>)
    ensures r == Fail(ModuleDoesNotExist) <==> response.Fail? && CodeOf(response.err) == NotFound
    ensures r.Ok? <==> response.Ok?
    ensures r.Ok? ==> r.value == response.value
    ensures r.Fail? && CodeOf(response.err) != NotFound ==> r.err == Wrapped("get repository by full name", response.err)
  {
    match response
    case Fail(e) =>
      if CodeOf(e) == NotFound then Fail(ModuleDoesNotExist) else Fail(Wrapped("get repository by full name", e))
    case Ok(defaultBranch) => Ok(defaultBranch)
  }

  /** The getter meets the ModuleDefaultBranchGetter contract: a caller testing with
      errors.Is sees ErrModuleDoesNotExist exactly when the registry said NotFound
      (provided the transport error is not itself that sentinel). */
  lemma DefaultBranchGetterContract(response: Result<string>)
    requires response.Fail? ==> !Is(response.err, ModuleDoesNotExist)
    ensures (GetDefaultBranch(response).Fail? && Is(GetDefaultBranch(response).err, ModuleDoesNotExist))
            <==> (response.Fail? && CodeOf(response.err) == NotFound)
  {
  }

  // ---------------------------------------------------------------------------
  // the error handler

  /** git.Commit, as far as the handler looks at it. */
  datatype Commit = Commit(hash: Hash)

  /** BuildFailure: log and carry on. */
  function BuildFailure(m: Module, commit: Commit, err: Error): (r: Option<Error>)
    ensures !HandlerAborts(r)
  {
    None
  }

  /** InvalidModuleConfig: log and carry on. */
  function InvalidModuleConfig(m: Module, commit: Commit, err: Error): (r: Option<Error>)
    ensures !HandlerAborts(r)
  {
    None
  }

  /** The diagnostic for a sync point whose commit is gone. */
  function RebaseDiagnostic(syncPoint: Hash, m: Module): Error
  {
    Message("last synced commit " + syncPoint.hex + " was not found for module " + m.str + "; did you rebase?")
  }

  /** InvalidSyncPoint: always abort when given an error; a missing object becomes a
      rebase diagnostic, anything else is passed through unchanged. */
  function InvalidSyncPoint(m: Module, branch: string, syncPoint: Hash, err: Option<Error>): (r: Option<Error>)
    ensures HandlerAborts(r) <==> err.Some?
    ensures err.Some? && Is(err.value, ObjectNotFound) ==> r == Some(RebaseDiagnostic(syncPoint, m))
    ensures err.Some? && !Is(err.value, ObjectNotFound) ==> r == err
  {
    if err.Some? && Is(err.value, ObjectNotFound) then Some(RebaseDiagnostic(syncPoint, m))
    else err
  }

  // ---------------------------------------------------------------------------
  // the sink: push, or create the repository and push again

  /** registryv1alpha1.GitSyncPoint, as returned by SyncGitCommit. */
  datatype GitSyncPoint = GitSyncPoint(gitCommitHash: string, bsrCommitName: string)

  /** A call that pushOrCreate makes: `push` or `create`. */
  datatype Call = Push | Create

  datatype PushOrCreateRun = PushOrCreateRun(result: Result<GitSyncPoint>, calls: seq<Call>)

  /** `create`: parse the visibility (its error is returned as is), then create the
      repository, reporting AlreadyExists as an Internal error. `response` is the error
      (if any) of CreateRepositoryByFullName. */
  function CreateRepository(visibility: string, visibilityFlagToVisibility: string -> Result<Visibility>,
                            response: Option<Error>): (r: Option<Error>)
    ensures visibilityFlagToVisibility(visibility).Fail? ==> r == Some(visibilityFlagToVisibility(visibility).err)
    ensures visibilityFlagToVisibility(visibility).Ok? ==> (r.None? <==> response.None?)
    // AlreadyExists never comes back from a create that reached the registry
    ensures visibilityFlagToVisibility(visibility).Ok? && r.Some? ==>
              CodeOf(r.value) != AlreadyExists
              && (CodeOf(response.value) == AlreadyExists ==> CodeOf(r.value) == Internal)
              && (CodeOf(response.value) != AlreadyExists ==> r == response)
  {
    match visibilityFlagToVisibility(visibility)
    case Fail(e) => Some(e)
    case Ok(_) =>
      if response.Some? && CodeOf(response.value) == AlreadyExists then
        Some(Connect(Internal, "expected repository to be missing but found the repository to already exist"))
      else response
  }

  /** `pushOrCreate`, given what each call it may make would return: the first push, the
      create RPC, and the second push. */
  function PushOrCreate(createWithVisibility: string, visibilityFlagToVisibility: string -> Result<Visibility>,
                        firstPush: Result<GitSyncPoint>, createResponse: Option<Error>,
                        secondPush: Result<GitSyncPoint>): (run: PushOrCreateRun)
    // a successful push is the answer, with no create
    ensures firstPush.Ok? ==> run == PushOrCreateRun(firstPush, [Push])
    // NotFound with a visibility: create once; a failed create is an error, otherwise push again
    ensures firstPush.Fail? && createWithVisibility != "" && CodeOf(firstPush.err) == NotFound ==>
              var created := CreateRepository(createWithVisibility, visibilityFlagToVisibility, createResponse);
              run == if created.Some? then PushOrCreateRun(Fail(Wrapped("create repo", created.value)), [Push, Create])
                     else PushOrCreateRun(secondPush, [Push, Create, Push])
    // any other failure is an error, with no create
    ensures firstPush.Fail? && (createWithVisibility == "" || CodeOf(firstPush.err) != NotFound) ==>
              run == PushOrCreateRun(Fail(Wrapped("push", firstPush.err)), [Push])
  {
    match firstPush
    case Ok(syncPoint) => PushOrCreateRun(Ok(syncPoint), [Push])
    case Fail(e) =>
      if createWithVisibility != "" && CodeOf(e) == NotFound then
        match CreateRepository(createWithVisibility, visibilityFlagToVisibility, createResponse)
        case Some(createErr) => PushOrCreateRun(Fail(Wrapped("create repo", createErr)), [Push, Create])
        case None => PushOrCreateRun(secondPush, [Push, Create, Push])
      else PushOrCreateRun(Fail(Wrapped("push", e)), [Push])
  }

  function Count(calls: seq<Call>, c: Call): nat
  {
    if calls == [] then 0 else (if calls[0] == c then 1 else 0) + Count(calls[1..], c)
  }

  /** pushOrCreate always pushes first, pushes at most twice and creates at most once; it
      creates exactly when the first push said NotFound and a visibility was given; a
      successful result is the answer of one of the pushes. */
  lemma PushOrCreateCalls(createWithVisibility: string, visibilityFlagToVisibility: string -> Result<Visibility>,
                          firstPush: Result<GitSyncPoint>, createResponse: Option<Error>,
                          secondPush: Result<GitSyncPoint>)
    ensures var run := PushOrCreate(createWithVisibility, visibilityFlagToVisibility, firstPush, createResponse, secondPush);
            && |run.calls| > 0 && run.calls[0] == Push
            && Count(run.calls, Push) <= 2
            && Count(run.calls, Create) <= 1
            && (Create in run.calls <==> firstPush.Fail? && CodeOf(firstPush.err) == NotFound && createWithVisibility != "")
            && (run.result.Ok? ==> run.result == firstPush || (run.result == secondPush && Count(run.calls, Push) == 2))
  {
  }

  /** The sink `sync` passes to the syncer: a push failure is always an error (which aborts
      the sync) that wraps the push error; otherwise the stderr write's error, if any. */
  function SyncModuleCommit(pushed: Result<GitSyncPoint>, stderrWrite: Option<Error>): (r: Option<Error>)
    ensures pushed.Fail? ==> r.Some? && r.value.Wrapped? && r.value.cause == pushed.err
    ensures pushed.Ok? ==> r == stderrWrite
  {
    match pushed
    case Fail(e) => Some(Wrapped("failed to push or create", e))
    case Ok(_) => stderrWrite
  }
}

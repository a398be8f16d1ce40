/** The public contract of the syncer package: modules, the options that configure a
    syncer, and the error-handler policy hooks. The syncer engine itself (the commit walk)
    is not part of this model; only the configuration the options accumulate is. */
module BufSync {
  import opened Errors

  /** bufmoduleref.ModuleIdentity: where a module lives in the registry. */
  datatype ModuleIdentity = ModuleIdentity(remote: string, owner: string, repository: string)

  /** The Module interface: the directory relative to the repository root, the remote
      identity it syncs to, and its String() form, by which duplicates are recognised. */
  datatype Module = Module(dir: string, remoteIdentity: ModuleIdentity, str: string)

  /** A git commit hash. */
  datatype Hash = Hash(hex: string)

  /** A SyncerOption. The syncer does not look inside the collaborators it is given, so
      the resolver, checker and getter types are parameters. */
  datatype SyncerOption<R, C, G> =
    | SyncerWithModule(syncModule: Module)
    | SyncerWithResumption(resolver: R)
    | SyncerWithGitCommitChecker(checker: C)
    | SyncerWithModuleDefaultBranchGetter(getter: G)
    | SyncerWithAllBranches

  /** The fields of a syncer that the options write, as one value. */
  datatype Config<R, C, G> = Config(
    modulesToSync: seq<Module>,
    syncPointResolver: Option<R>,
    syncedGitCommitChecker: Option<C>,
    moduleDefaultBranchGetter: Option<G>,
    allBranches: bool)

  /** A syncer before any option is applied: no modules, no collaborators, current branch only. */
  function EmptyConfig<R, C, G>(): Config<R, C, G>
  {
    Config([], None, None, None, false)
  }

  /** Some module of `modules` has the String() form `s`. */
  predicate HasModuleString(modules: seq<Module>, s: string)
  {
    exists i | 0 <= i < |modules| :: modules[i].str == s
  }

  /** No two modules share a String() form. */
  ghost predicate DistinctStrings(modules: seq<Module>)
  {
    forall i, j | 0 <= i < j < |modules| :: modules[i].str != modules[j].str
  }

  /** The error SyncerWithModule returns for a module registered twice. */
  function DuplicateModule(m: Module): Error
  {
    Message("duplicate module " + m.str)
  }

  /** What applying one option does to the configuration, and the error it returns. */
  function ApplyOption<R, C, G>(c: Config<R, C, G>, o: SyncerOption<R, C, G>): (r: (Config<R, C, G>, Option<Error>))
    // only a module whose String() is already registered is refused, and a refusal changes nothing
    ensures r.1.Some? <==> o.SyncerWithModule? && HasModuleString(c.modulesToSync, o.syncModule.str)
    ensures r.1.Some? ==> r.0 == c && r.1.value == DuplicateModule(o.syncModule)
    // an accepted module goes at the end; every other option leaves the module list alone
    ensures o.SyncerWithModule? && r.1.None? ==> r.0.modulesToSync == c.modulesToSync + [o.syncModule]
    ensures !o.SyncerWithModule? ==> r.0.modulesToSync == c.modulesToSync
    ensures DistinctStrings(c.modulesToSync) ==> DistinctStrings(r.0.modulesToSync)
    // each of the other options overwrites its own field and no other
    ensures r.0.syncPointResolver == if o.SyncerWithResumption? then Some(o.resolver) else c.syncPointResolver
    ensures r.0.syncedGitCommitChecker == if o.SyncerWithGitCommitChecker? then Some(o.checker) else c.syncedGitCommitChecker
    ensures r.0.moduleDefaultBranchGetter ==
            if o.SyncerWithModuleDefaultBranchGetter? then Some(o.getter) else c.moduleDefaultBranchGetter
    ensures r.0.allBranches == (c.allBranches || o.SyncerWithAllBranches?)
  {
    match o
    case SyncerWithModule(m) =>
      if HasModuleString(c.modulesToSync, m.str) then (c, Some(DuplicateModule(m)))
      else (c.(modulesToSync := c.modulesToSync + [m]), None)
    case SyncerWithResumption(resolver) => (c.(syncPointResolver := Some(resolver)), None)
    case SyncerWithGitCommitChecker(checker) => (c.(syncedGitCommitChecker := Some(checker)), None)
    case SyncerWithModuleDefaultBranchGetter(getter) => (c.(moduleDefaultBranchGetter := Some(getter)), None)
    case SyncerWithAllBranches => (c.(allBranches := true), None)
  }

  /** Applying the same collaborator option twice leaves the second value in place. */
  lemma OverwriteKeepsLast<R, C, G>(c: Config<R, C, G>, o1: SyncerOption<R, C, G>, o2: SyncerOption<R, C, G>)
    requires (o1.SyncerWithResumption? && o2.SyncerWithResumption?)
          || (o1.SyncerWithGitCommitChecker? && o2.SyncerWithGitCommitChecker?)
          || (o1.SyncerWithModuleDefaultBranchGetter? && o2.SyncerWithModuleDefaultBranchGetter?)
    ensures ApplyOption(c, o1).1.None?
    ensures ApplyOption(ApplyOption(c, o1).0, o2) == ApplyOption(c, o2)
  {
  }

  /** SyncerWithAllBranches is idempotent. */
  lemma AllBranchesIdempotent<R, C, G>(c: Config<R, C, G>)
    ensures ApplyOption(c, SyncerWithAllBranches).1.None?
    ensures ApplyOption(ApplyOption(c, SyncerWithAllBranches).0, SyncerWithAllBranches)
         == ApplyOption(c, SyncerWithAllBranches)
  {
  }

  /** The modules of the SyncerWithModule options in `opts`, in the order given. */
  function ModulesOf<R, C, G>(opts: seq<SyncerOption<R, C, G>>): seq<Module>
  {
    if opts == [] then []
    else (if opts[0].SyncerWithModule? then [opts[0].syncModule] else []) + ModulesOf(opts[1..])
  }

  /** Options applied one after another in the order given, stopping at the first that fails. */
  function ApplyAll<R, C, G>(c: Config<R, C, G>, opts: seq<SyncerOption<R, C, G>>): (Config<R, C, G>, Option<Error>)
    decreases |opts|
  {
    if opts == [] then (c, None)
    else
      var step := ApplyOption(c, opts[0]);
      if step.1.Some? then step else ApplyAll(step.0, opts[1..])
  }

  /** Applying `a` and then `b` is applying `a + b`. */
  lemma {:induction false} ApplyAllAppend<R, C, G>(c: Config<R, C, G>, a: seq<SyncerOption<R, C, G>>, b: seq<SyncerOption<R, C, G>>)
    ensures ApplyAll(c, a + b) ==
            if ApplyAll(c, a).1.Some? then ApplyAll(c, a) else ApplyAll(ApplyAll(c, a).0, b)
    decreases |a|
  {
    if a == [] {
      assert a + b == b;
    } else {
      assert (a + b)[0] == a[0];
      assert (a + b)[1..] == a[1..] + b;
      ApplyAllAppend(ApplyOption(c, a[0]).0, a[1..], b);
    }
  }

  /** Registration order and uniqueness: starting from distinct modules, applying options
      in order succeeds exactly when the registered modules followed by the new ones have
      distinct String() forms, and then the module list is the old one followed by the new
      modules in option order. Whatever happens, the list stays distinct. */
  lemma {:induction false} ApplyAllRegistersInOrder<R, C, G>(c: Config<R, C, G>, opts: seq<SyncerOption<R, C, G>>)
    requires DistinctStrings(c.modulesToSync)
    ensures DistinctStrings(ApplyAll(c, opts).0.modulesToSync)
    ensures ApplyAll(c, opts).1.None? <==> DistinctStrings(c.modulesToSync + ModulesOf(opts))
    ensures ApplyAll(c, opts).1.None? ==> ApplyAll(c, opts).0.modulesToSync == c.modulesToSync + ModulesOf(opts)
    decreases |opts|
  {
    if opts != [] {
      var step := ApplyOption(c, opts[0]);
      if opts[0].SyncerWithModule? {
        var m := opts[0].syncModule;
        assert ModulesOf(opts) == [m] + ModulesOf(opts[1..]);
        if step.1.Some? {
          var i :| 0 <= i < |c.modulesToSync| && c.modulesToSync[i].str == m.str;
          var all := c.modulesToSync + ModulesOf(opts);
          assert all[i].str == all[|c.modulesToSync|].str;
        } else {
          ApplyAllRegistersInOrder(step.0, opts[1..]);
          assert step.0.modulesToSync + ModulesOf(opts[1..]) == c.modulesToSync + ModulesOf(opts);
        }
      } else {
        assert ModulesOf(opts) == ModulesOf(opts[1..]);
        ApplyAllRegistersInOrder(step.0, opts[1..]);
      }
    }
  }

  /** A syncer under configuration: the fields the options write. */
  class Syncer<R, C, G> {
    var modulesToSync: seq<Module>
    var syncPointResolver: Option<R>
    var syncedGitCommitChecker: Option<C>
    var moduleDefaultBranchGetter: Option<G>
    var allBranches: bool

    /** The configuration this syncer holds. */
    ghost function Snapshot(): Config<R, C, G>
      reads this
    {
      Config(modulesToSync, syncPointResolver, syncedGitCommitChecker, moduleDefaultBranchGetter, allBranches)
    }

    /** The configuration invariant: registered modules have distinct String() forms. */
    ghost predicate Valid()
      reads this
    {
      DistinctStrings(modulesToSync)
    }

    constructor ()
      ensures Valid() && Snapshot() == EmptyConfig()
    {
      modulesToSync := [];
      syncPointResolver := None;
      syncedGitCommitChecker := None;
      moduleDefaultBranchGetter := None;
      allBranches := false;
    }

    /** SyncerWithModule: refuse a module whose String() is already registered, else append it. */
    method AddModule(m: Module) returns (err: Option<Error>)
      modifies this
      ensures (Snapshot(), err) == ApplyOption(old(Snapshot()), SyncerWithModule(m))
      ensures err.None? <==> !HasModuleString(old(modulesToSync), m.str)
      ensures err.None? ==> modulesToSync == old(modulesToSync) + [m]
      ensures err.Some? ==> err.value == DuplicateModule(m) && Snapshot() == old(Snapshot())
      ensures old(Valid()) ==> Valid()
    {
      for i := 0 to |modulesToSync|
        invariant Snapshot() == old(Snapshot())
        invariant forall j | 0 <= j < i :: modulesToSync[j].str != m.str
      {
        if modulesToSync[i].str == m.str {
          return Some(DuplicateModule(m));
        }
      }
      modulesToSync := modulesToSync + [m];
      return None;
    }

    /** SyncerWithResumption: set the sync point resolver; never fails. */
    method SetResumption(resolver: R) returns (err: Option<Error>)
      modifies this
      ensures (Snapshot(), err) == ApplyOption(old(Snapshot()), SyncerWithResumption(resolver))
      ensures err.None? && Snapshot() == old(Snapshot()).(syncPointResolver := Some(resolver))
    {
      syncPointResolver := Some(resolver);
      return None;
    }

    /** SyncerWithGitCommitChecker: set the synced-commit checker; never fails. */
    method SetGitCommitChecker(checker: C) returns (err: Option<Error>)
      modifies this
      ensures (Snapshot(), err) == ApplyOption(old(Snapshot()), SyncerWithGitCommitChecker(checker))
      ensures err.None? && Snapshot() == old(Snapshot()).(syncedGitCommitChecker := Some(checker))
    {
      syncedGitCommitChecker := Some(checker);
      return None;
    }

    /** SyncerWithModuleDefaultBranchGetter: set the default-branch getter; never fails. */
    method SetModuleDefaultBranchGetter(getter: G) returns (err: Option<Error>)
      modifies this
      ensures (Snapshot(), err) == ApplyOption(old(Snapshot()), SyncerWithModuleDefaultBranchGetter(getter))
      ensures err.None? && Snapshot() == old(Snapshot()).(moduleDefaultBranchGetter := Some(getter))
    {
      moduleDefaultBranchGetter := Some(getter);
      return None;
    }

    /** SyncerWithAllBranches: sync every branch of the remote; never fails. */
    method SetAllBranches() returns (err: Option<Error>)
      modifies this
      ensures (Snapshot(), err) == ApplyOption(old(Snapshot()), SyncerWithAllBranches)
      ensures err.None? && Snapshot() == old(Snapshot()).(allBranches := true)
    {
      allBranches := true;
      return None;
    }

    /** Run one option against this syncer, as calling the option's closure does. */
    method Apply(o: SyncerOption<R, C, G>) returns (err: Option<Error>)
      modifies this
      ensures (Snapshot(), err) == ApplyOption(old(Snapshot()), o)
      ensures old(Valid()) ==> Valid()
    {
      match o
      case SyncerWithModule(m) => err := AddModule(m);
      case SyncerWithResumption(resolver) => err := SetResumption(resolver);
      case SyncerWithGitCommitChecker(checker) => err := SetGitCommitChecker(checker);
      case SyncerWithModuleDefaultBranchGetter(getter) => err := SetModuleDefaultBranchGetter(getter);
      case SyncerWithAllBranches => err := SetAllBranches();
    }
  }

  /** The ErrorHandler contract: a nil return lets the sync carry on, any error aborts it. */
  predicate HandlerAborts(r: Option<Error>)
  {
    r.Some?
  }
}

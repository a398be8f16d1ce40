# buf repository sync: syncer configuration and the sync command's decision logic

This project models two parts of buf's Git-to-registry sync in Dafny.

- **The syncer's configuration** (`bufsync`). Each `SyncerOption` updates one field of a syncer. `SyncerWithModule` appends to the ordered module list and refuses a module whose `String()` is already registered. The resumption resolver, the synced-commit checker and the default-branch getter are each overwritten by their option. `SyncerWithAllBranches` sets the all-branches flag.
- **The `buf alpha repo sync` command** (`reposync`). It covers:
  - the `--create` / `--create-visibility` consistency check in `run`;
  - parsing `<dir>:<identity>` module flags at the first colon;
  - the order in which `sync` assembles the syncer options;
  - how the three registry-backed collaborators turn RPC outcomes into results, where NotFound becomes "no sync point", a nil set, or `ErrModuleDoesNotExist`;
  - the logging error handler, which continues on config and build failures and aborts on an invalid sync point;
  - the push / create-on-NotFound / push-again step of the sink, and `create`'s remapping of AlreadyExists to Internal.

Files:
- `errors.dfy` (module `Errors`) models Go error values: sentinels, connect errors that carry a status code, and errors wrapped with `%w`. It also defines `errors.Is` (`Is`) and `connect.CodeOf` (`CodeOf`), both of which follow the wrap chain.
- `bufsync.dfy` (module `BufSync`) holds `Module`, `SyncerOption` and the `Syncer` class, whose fields the option methods update in place. Each method is proved against the pure specification `ApplyOption`. `ApplyAll` describes options applied one after another. The syncer does not look inside its collaborators, so their types are type parameters.
- `reposync.dfy` (module `RepoSync`) holds the command's logic. Every RPC is an input to the model: the outcome the registry answered with. Helpers from other packages are uninterpreted functions, passed in as the fields of `Helpers`: `ValidateErrorFormatFlag`, `VisibilityFlagToVisibility`, `ModuleIdentityForString`, `normalpath.Normalize`, `NewModule` and `NewHashFromHex`. Opening the repository and building the client configuration appear only as the errors they may return.

## Model

| member | source | states |
|---|---|---|
| BufSync.ApplyOption | private/buf/bufsync/bufsync.go:122-168 | Only a module whose String() is already registered is refused, with a "duplicate module" error, and a refusal leaves the configuration unchanged. An accepted module goes at the end of the list. Every other option leaves the list alone and overwrites only its own field. Distinct module strings stay distinct. |
| BufSync.OverwriteKeepsLast | private/buf/bufsync/bufsync.go:135-159 | The resumption, checker and getter options never fail. Applying one of them twice has the effect of applying only the second. |
| BufSync.AllBranchesIdempotent | private/buf/bufsync/bufsync.go:163-168 | SyncerWithAllBranches never fails. Applying it twice has the same effect as applying it once. |
| BufSync.ApplyAllRegistersInOrder | private/buf/bufsync/bufsync.go:119-131 | Start from distinct modules and apply options in order. This succeeds exactly when the old modules followed by the new ones have distinct String() forms. The list is then the old list followed by the new modules in option order, and it stays distinct whether or not a module was refused. |
| BufSync.Syncer.constructor | private/buf/bufsync/bufsync.go:99-117 | A syncer before any option is applied has no modules, no collaborators and the all-branches flag off, and it satisfies the distinctness invariant. |
| BufSync.Syncer.AddModule | private/buf/bufsync/bufsync.go:122-131 | The loop refuses a module whose String() is already in modulesToSync and leaves the state unchanged; otherwise it appends the module and returns nil. The new state is ApplyOption of the old one, and distinctness is preserved. |
| BufSync.Syncer.SetResumption | private/buf/bufsync/bufsync.go:135-140 | Sets syncPointResolver, returns nil, and changes no other field. |
| BufSync.Syncer.SetGitCommitChecker | private/buf/bufsync/bufsync.go:144-149 | Sets syncedGitCommitChecker, returns nil, and changes no other field. |
| BufSync.Syncer.SetModuleDefaultBranchGetter | private/buf/bufsync/bufsync.go:154-159 | Sets moduleDefaultBranchGetter, returns nil, and changes no other field. |
| BufSync.Syncer.SetAllBranches | private/buf/bufsync/bufsync.go:163-168 | Sets allBranches to true, returns nil, and changes no other field. |
| BufSync.Syncer.Apply | private/buf/bufsync/bufsync.go:116-117 | Running an option's closure on the syncer gives the state and error that ApplyOption describes, and keeps the distinctness invariant. |
| RepoSync.Run | private/buf/cmd/buf/command/alpha/repo/reposync/reposync.go:131-159 | An invalid error format is returned as is. Otherwise `run` reaches `sync` exactly when `--create` is set exactly when `--create-visibility` is non-empty, and that visibility parses. Each violation is an invalid-argument error. `sync` receives the module flags, the visibility (non-empty exactly when `--create` is set) and the all-branches flag. |
| RepoSync.IndexOfFirst | private/buf/cmd/buf/command/alpha/repo/reposync/reposync.go:197 | strings.IndexRune's answer is -1 exactly when the character does not occur. Otherwise it is an index holding the character, with no earlier occurrence. |
| RepoSync.SplitModuleFlag | private/buf/cmd/buf/command/alpha/repo/reposync/reposync.go:197-205 | There is no split exactly when the flag has no colon. Otherwise the directory part has no colon, and directory + ":" + identity is the flag. |
| RepoSync.SplitAtFirstColon | private/buf/cmd/buf/command/alpha/repo/reposync/reposync.go:197-205 | The split is at the first colon: every decomposition whose directory part has no colon is the one computed. |
| RepoSync.ParseModuleFlag | private/buf/cmd/buf/command/alpha/repo/reposync/reposync.go:196-209 | A flag without a colon is rejected with the "missing an identity" invalid-argument error. |
| RepoSync.ParseModuleFlagAt | private/buf/cmd/buf/command/alpha/repo/reposync/reposync.go:196-209 | For `dir:identity` with a colon-free dir, the identity is parsed from the suffix, and the module is built from Normalize(dir) and that identity. A failure of either step is returned, wrapped. |
| RepoSync.ParseModuleFlagsSpec | private/buf/cmd/buf/command/alpha/repo/reposync/reposync.go:195-211 | The module flags parse exactly when each one does, giving each flag's module in flag order. Otherwise the error is that of the first malformed flag. |
| RepoSync.BaseOptions | private/buf/cmd/buf/command/alpha/repo/reposync/reposync.go:187-194 | Resumption first, then the commit checker, then the default-branch getter, then all-branches if and only if the flag is set. |
| RepoSync.ModuleOptions | private/buf/cmd/buf/command/alpha/repo/reposync/reposync.go:210 | One SyncerWithModule per module, in order. |
| RepoSync.Sync | private/buf/cmd/buf/command/alpha/repo/reposync/reposync.go:161-211 | With no modules it returns nil before anything else. Failures to open the repository or build the client configuration are returned, wrapped. Otherwise the first malformed module flag aborts before NewSyncer is called. If none is malformed, NewSyncer gets the base options followed by one module option per flag, in input order. |
| RepoSync.SyncerOptions | private/buf/cmd/buf/command/alpha/repo/reposync/reposync.go:187-211 | The first malformed module flag's error is returned. If none is malformed, the list is the base options followed by one SyncerWithModule per parsed module, in flag order. |
| RepoSync.SyncOptionsConfigure | private/buf/cmd/buf/command/alpha/repo/reposync/reposync.go:187-211 | Applied in order, the options `sync` builds fail exactly when two parsed modules share a String() form. Otherwise they give a syncer whose modules are the parsed modules in flag order, with all three registry collaborators set and all-branches as given. |
| RepoSync.ResolveSyncPoint | private/buf/cmd/buf/command/alpha/repo/reposync/reposync.go:257-282 | "No sync point, no error" comes back exactly when the RPC said NotFound. A sync point comes back exactly when the RPC succeeded and the hash parsed, and it is the parsed hash. Any other RPC failure, or a hash that does not parse, is an error that wraps the cause. |
| RepoSync.CheckSyncedGitCommits | private/buf/cmd/buf/command/alpha/repo/reposync/reposync.go:284-310 | NotFound gives a nil set with no error, and any other RPC failure is a wrapped error. Otherwise the call succeeds exactly when every returned label was requested, and the result is the set of returned labels, a subset of the request. If a label was not requested, the error names the first such label. |
| RepoSync.GetDefaultBranch | private/buf/cmd/buf/command/alpha/repo/reposync/reposync.go:312-327 | The call fails with exactly ErrModuleDoesNotExist when the RPC said NotFound, and any other failure is wrapped. On success it returns the repository's default branch. |
| RepoSync.DefaultBranchGetterContract | private/buf/bufsync/bufsync.go:192-198 | errors.Is(result, ErrModuleDoesNotExist) holds exactly when the registry said NotFound, as the ModuleDefaultBranchGetter contract asks. |
| RepoSync.BuildFailure | private/buf/cmd/buf/command/alpha/repo/reposync/reposync.go:337-348 | Always nil: the sync carries on. |
| RepoSync.InvalidModuleConfig | private/buf/cmd/buf/command/alpha/repo/reposync/reposync.go:350-361 | Always nil: the sync carries on. |
| RepoSync.InvalidSyncPoint | private/buf/cmd/buf/command/alpha/repo/reposync/reposync.go:363-386 | Aborts exactly when given a non-nil error. An error that Is ObjectNotFound becomes the "did you rebase?" diagnostic; any other error is returned unchanged. |
| RepoSync.CreateRepository | private/buf/cmd/buf/command/alpha/repo/reposync/reposync.go:480-503 | A visibility that does not parse returns that error. Otherwise the result is nil exactly when the RPC succeeded, AlreadyExists is reported as Internal, and any other RPC error is returned as is. |
| RepoSync.PushOrCreate | private/buf/cmd/buf/command/alpha/repo/reposync/reposync.go:388-434 | If the first push succeeds, its result is returned with no create. If it fails with NotFound and a visibility is set, there is one create: a failed create is a wrapped error, otherwise the second push's result is returned. Any other push failure is a wrapped error with no create. |
| RepoSync.PushOrCreateCalls | private/buf/cmd/buf/command/alpha/repo/reposync/reposync.go:399-433 | The first call is always a push. There are at most two pushes and at most one create, and a create happens exactly when the first push said NotFound and a visibility was given. A success is a push's own answer. |
| RepoSync.SyncModuleCommit | private/buf/cmd/buf/command/alpha/repo/reposync/reposync.go:222-254 | A failed push or create is always an error, which aborts the sync, and it wraps the push error. Otherwise the result is the stderr write's error, if any. |

## Left out

- The syncer engine: `newSyncer`, the branch selection, the commit walk, sync-point reconciliation and module materialisation. They are not in the modelled files. `ApplyAll` states what applying options in the order given means; the model does not claim how `newSyncer` consumes them.
- `NewSyncer`'s own error and the call to `Sync` (reposync.go:212-221): the model of `sync` stops at the option list handed to `NewSyncer`.
- Cobra/pflag wiring, flag binding and help text (reposync.go:56-129): these are user-interface plumbing.
- `git.OpenRepository`, `storagegit.NewProvider`, `repo.Close` and `bufcli.NewConnectClientConfig`: these are I/O, so only the errors they may return are inputs.
- The connect clients and the request messages they send. An RPC is reduced to its outcome: a value, or an error carrying a status code.
- `push`'s manifest and blob encoding (`manifest.NewFromBucket`, `bufmanifest.ToProtoManifestAndBlobs`) and the `timestamppb` conversions. Their code is not part of this model, so the outcome of a `push` is an input.
- zap logging in the error handler and the stderr write in the sink. The write appears only as the error it may return.
- The exact text of error messages. Errors keep their kind, their sentinel identity, their connect code and their wrap chain. The detail strings are abbreviations.
- A connect error's own wrapped cause is not modelled, so `errors.Is` looks through `%w` wrapping only.
- `ModuleIdentityForString`, `normalpath.Normalize`, `NewModule`, `NewHashFromHex`, `VisibilityFlagToVisibility` and `ValidateErrorFormatFlag`: their bodies are not part of this model, so they are uninterpreted functions. A `Module`'s `String()` form is a field of the module rather than computed.
- Context cancellation.
- RepoSync.ResolveSyncPoint: takes the sync point's hash string as the RPC's answer. It therefore does not model a success response that carries no sync point message.

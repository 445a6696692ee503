# node-runner, modelled in Dafny

node-runner is the start-up program of a Docker container. It checks that the host has
mapped a folder onto `/node`. It then loads the user's script, `/node/<node_script>.js`.
Before running the script, it installs the npm packages listed in
`/node/npm_install.json`. Finally it calls the script with `this` bound to a small record
of capabilities. One of those capabilities, `install_module`, lets the script install
further packages, optionally into a sub-folder of `/node` (a sub-folder as spelled: a `..`
in the sub-path is not resolved). For each package,
`install_module` does four things:
- it makes sure the `node_modules` store folder exists;
- it puts the install root at the front of the `NODE_PATH` search path, unless the text
  `root:` already occurs in it;
- it works out the package's lookup key (for example `@scope/thing@1.0` becomes `@scope/thing`);
- it runs `npm install` only when the package can neither be resolved nor found in the store.

The model is split into these modules:

- `Strings`: the JavaScript string operations the code relies on. `indexOf` and `split` are
  proved against independent descriptions; `startsWith` is the prefix relation.
- `Paths`: the install root, the store folder and `ensureDirSync` as a `mkdir -p` on a
  set of existing paths, plus the script name and path.
- `LookupKey`: the package name → lookup key rule (`rootName`).
- `SearchPath`: the `NODE_PATH` update, which is a textual `indexOf(root + ':')` test.
- `Resolver`: one `installModule` call as a function on a host state. The host state is
  the search path, the set of existing paths, and a log of installer runs and script
  invocations. This module also covers the run over a whole manifest, which stops at
  the first failing installer run.
- `Sequencer`: the bootstrap. It checks, in order, the mount point, the script, the
  script's load and the manifest's parse. It then installs the manifest's packages and
  finally invokes the script.
- `NodeRunner`: the imperative program. `Runner` is a class holding the process state in
  its fields. `InstallModule`, `InstallManifest` (the `forEach` loop) and `Bootstrap`
  change those fields step by step, as the source does. Each is proved to leave exactly
  the state that `Resolver.Resolve`, `Resolver.InstallAll` or `Sequencer.Run` describes.

The surroundings are supplied as inputs:
- `Oracles.resolvable`: the lookup keys `module_exists` reports as resolvable.
- `Oracles.failing`: which `npm install` runs throw.
- `Launch`: the `node_script` variable, whether `require` of the script succeeds, and the
  parsed result of the manifest.

`execSync('npm install …')` is recorded in the host's log as `Npm(InstallCall(package, root))`.
The script's invocation is recorded as `Invoke(path, capabilities)`.

Where the code does something other than what a reader of its messages would expect,
the model follows the code.

- The `NODE_PATH` test is a substring test. A root is therefore taken to be present
  when it occurs inside a longer entry (`/opt/node:` contains `/node:`). A last entry,
  which has no `:` after it, is not recognised, so the root is added again. Both cases
  are proved as lemmas.
- The lookup key is computed by splitting on `@` only. A `/` inside a name is kept.
- The four checked aborts (no mount point, no script, a script that does not load, a
  manifest that does not parse) end in a bare `return`, so the process exits without an
  error status. A failing `npm install` is different: the exception from `execSync` is
  caught nowhere, so Node reports an uncaught exception and exits with a non-zero status.
  The model records which of these ended the run (`Status`), not the exit status.

## Model

| member | source | states |
|---|---|---|
| Strings.StartsWith | node-runner.js:81 | no contract of its own: `startsWith` as the prefix relation on strings; used by `LookupKey.RootName` and the statements of `Paths` and `LookupKey` |
| Strings.IndexOf | node-runner.js:73 | `indexOf` returns -1 exactly when the text does not occur; otherwise it returns a position where the text occurs, with no occurrence before it |
| Strings.Split | node-runner.js:79 | `split('@')` always yields at least one piece, and at least two when the separator occurs |
| Strings.SplitPieces | node-runner.js:79 | no piece of a split contains the separator; the first piece is the whole string or the part before the first separator |
| Strings.SplitJoin | node-runner.js:79 | joining the pieces of a split with the separator gives back the original string |
| Paths.Normalise | node-runner.js:64-66 | a sub-path is made to start with `/`, by prefixing one only when it is missing |
| Paths.ModulePath | node-runner.js:62-68 | as text, the install root is `/node` itself or begins with `/node/`; `.` and `..` segments are not resolved, so the sub-path `../x` gives `/node/../x` |
| Paths.ModulePathCases | node-runner.js:62-68 | no sub-path gives `/node`; a sub-path starting with `/` is appended as is; any other sub-path gets a `/` in between |
| Paths.ModulePathRecovers | node-runner.js:62-68 | the root determines the normalised sub-path; normalising first does not change the root; two sub-paths give the same root exactly when they normalise alike |
| Paths.EntryPath | node-runner.js:87 | as text, the package folder is the store, a `/`, and then exactly the key; `..` in the key is not resolved, so on disk the folder need not lie in the store |
| Paths.StorePath | node-runner.js:69 | the store lies directly below the root, in the folder `node_modules` |
| Paths.EnsureDir | node-runner.js:70-72 | after `ensureDirSync`, the folder and all its ancestors exist, nothing that existed disappears, and every new path is the folder or one of its ancestors |
| Paths.WithStore | node-runner.js:70-72 | after the existence test and `ensureDirSync`, the store exists, no path is lost, and no new path is longer than the store |
| Paths.WithStoreKeepsEntries | node-runner.js:70-72 | creating the store is idempotent and does not change whether the spelled path `store/key` of a package folder exists |
| Paths.ScriptName | node-runner.js:114 | the script name is never empty: it is `node_script` when that is set and non-empty, otherwise `node-script` |
| Paths.ScriptPath | node-runner.js:114-115 | no contract of its own: `Paths.ScriptPathRoundTrip` states its shape and that it determines the name |
| Paths.ScriptPathRoundTrip | node-runner.js:114-115 | the script path is `/node/` + name + `.js`; the name can be read back from the path, and two settings give the same path exactly when they give the same name |
| LookupKey.RootName | node-runner.js:79-86 | no contract of its own: `LookupKey.RootNameMeetsDescription` characterises its result, and the lemmas below give its examples |
| LookupKey.RootNameMeetsDescription | node-runner.js:79-86 | the computed key is the unique key that has no `@` (apart from a leading scope `@`) and is the package name, or the name up to its version `@` |
| LookupKey.RootNameIsPrefix | node-runner.js:79-86 | the key is a prefix of the package name |
| LookupKey.RootNameIdempotent | node-runner.js:79-86 | the key of a key is the key itself |
| LookupKey.RootNameOfPlainName | node-runner.js:79-86 | a name without `@` is its own key |
| LookupKey.RootNameOfPinnedName | node-runner.js:79-86 | `left-pad@1.2.0` has key `left-pad` |
| LookupKey.RootNameOfPinnedScopedName | node-runner.js:79-86 | `@scope/thing@1.0.0` has key `@scope/thing` |
| LookupKey.RootNameKeepsSlashes | node-runner.js:79-86 | splitting is on `@` only: `foo/bar` keeps its `/`, and `@s/n/x@1` has key `@s/n/x` |
| LookupKey.UnversionedUnique | node-runner.js:79-86 | at most one string fits the description of a key for a given name |
| SearchPath.WithRoot | node-runner.js:73-74 | no contract of its own: `SearchPath.WithRootOnlyPrepends` and the lemmas below state what the update does |
| SearchPath.WithRootOnlyPrepends | node-runner.js:73-74 | the search path is left alone or has `root:` prepended, and it changes exactly when `root:` does not occur in it |
| SearchPath.WithRootContainsRoot | node-runner.js:73-74 | afterwards `root:` occurs in the search path |
| SearchPath.WithRootIdempotent | node-runner.js:73-74 | a second update with the same root changes nothing |
| SearchPath.WithRootKeepsText | node-runner.js:73-74 | any text that occurred in the search path still occurs afterwards |
| SearchPath.WithRootMatchesInsideEntry | node-runner.js:73-74 | with root `/node`, `/opt/node:/usr/lib` counts as already containing the root and is unchanged |
| SearchPath.WithRootMissesLastEntry | node-runner.js:73-74 | with root `/node`, `/usr/lib:/node` is not recognised and becomes `/node:/usr/lib:/node` |
| Resolver.NeedsInstall | node-runner.js:87 | no contract of its own: the installer is needed when the lookup key is not resolvable and `store/key` is not among the existing paths; `Resolver.ResolveEffect` uses it |
| Resolver.Resolve | node-runner.js:60-96 | no contract of its own: `Resolver.ResolveEffect` states its effect field by field, and `NodeRunner.Runner.InstallModule` is proved against it |
| Resolver.ResolveEffect | node-runner.js:60-96 | one call makes the store exist, updates the search path for its root, and runs the installer once with the package and the root exactly when the key is neither resolvable nor present as `store/key`; it fails exactly when that run fails |
| Resolver.Planned | node-runner.js:173-178 | no contract of its own: the reference list of installer runs a manifest calls for, used by `Resolver.InstallAllLog` and `Resolver.InstallAllStops` |
| Resolver.InstallAll | node-runner.js:173-178 | no contract of its own: `Resolver.InstallAllState`, `Resolver.InstallAllCompletes`, `Resolver.InstallAllLog` and `Resolver.InstallAllStops` state its result, and `NodeRunner.Runner.InstallManifest` is proved against it |
| Resolver.NoneFailsEveryEntry | node-runner.js:174-177 | the manifest runs without failure exactly when no entry's installer run would fail |
| Resolver.FailureIsFirst | node-runner.js:174-177 | when some entry is the first to fail, the manifest does not run without failure |
| Resolver.SomeEntryFailsFirst | node-runner.js:174-177 | when the manifest does not run without failure, some entry is the first to fail |
| Resolver.InstallAllState | node-runner.js:173-178 | after the loop, the search path and the store are those of one update for `/node`, or unchanged for an empty list |
| Resolver.InstallAllExtend | node-runner.js:174-177 | one more entry adds that entry's installer run, decided on the paths before the loop, and fails exactly when that run fails |
| Resolver.InstallAllFailed | node-runner.js:174-177 | once an entry has failed, the entries after it change nothing |
| Resolver.InstallAllCompletes | node-runner.js:174-177 | the loop completes exactly when no entry fails |
| Resolver.InstallAllLog | node-runner.js:174-177 | a completed loop runs the installer, in list order, for exactly the entries that need it |
| Resolver.InstallAllStops | node-runner.js:174-177 | a loop whose entry k fails first reports that entry's installer run and has run the installer only for entries up to k |
| Sequencer.Run | node-runner.js:99-189 | no contract of its own: `Sequencer.AbortsInOrder`, `Sequencer.InvokesAfterInstalls`, `Sequencer.InstallFailureEndsRun` and `Sequencer.InvokesAtMostOnce` state its outcome, and `NodeRunner.Runner.Bootstrap` is proved against it |
| Sequencer.ManifestLoads | node-runner.js:161-172 | no contract of its own: the manifest is absent or parses; used by `Sequencer.AbortsInOrder` |
| Sequencer.ManifestModules | node-runner.js:161-178 | no contract of its own: the entries the loop runs over, empty when the manifest is absent or not a list; used by `Sequencer.InvokesAfterInstalls` and `Sequencer.InstallFailureEndsRun` |
| Sequencer.ChecksPass | node-runner.js:102-172 | no contract of its own: all four checks pass; used by `Sequencer.AbortsInOrder`, `Sequencer.InvokesAfterInstalls` and `Sequencer.InstallFailureEndsRun` |
| Sequencer.AbortsInOrder | node-runner.js:102-172 | the run stops at the first failing check: mount point, then script file, then script load, then manifest parse; a stopped run changes nothing |
| Sequencer.InvokesAfterInstalls | node-runner.js:146-184 | the script is invoked exactly when every check passes and no manifest entry fails; it is invoked after all installer runs, with the script path and the capability record, and the run leaves NODE_PATH and the paths as one `/node` update does (untouched for an empty manifest) |
| Sequencer.InstallFailureEndsRun | node-runner.js:173-184 | when manifest entry k is the first to fail, the run ends with that entry's installer failure, and the log gains only the installer runs planned for entries up to k (no invocation) |
| Sequencer.InvokesAtMostOnce | node-runner.js:184 | a run invokes the script at most once, and only when it reports success |
| Sequencer.CapabilitiesShape | node-runner.js:146-154 | the capability record has exactly the seven entries `ask`, `fs`, `install_module`, `isNumeric`, `uuid`, `transform` and `shell` |
| Sequencer.ManifestExample | node-runner.js:159-184 | a manifest holding `left-pad@1.2.0`, whose key `left-pad` is already in the store, and `@scope/thing@1.0.0`, which is missing, runs the installer once, for the scoped package at `/node`, and then invokes `/node/node-script.js` |
| NodeRunner.Runner.InstallModule | node-runner.js:60-96 | the in-place update of the process state is the state `Resolve` describes, including the failure |
| NodeRunner.Runner.InstallManifest | node-runner.js:173-178 | the `forEach` loop leaves the state and failure that `InstallAll` describes |
| NodeRunner.Runner.Bootstrap | node-runner.js:99-189 | the top level leaves the state and status that `Run` describes |

## Left out

- Console output (the banner, the abort explanations, the progress lines) is not modelled.
  It influences nothing.
- `execSync` of `npm install …` is reduced to a log entry. Whether it throws comes from
  `Oracles.failing`. The command text, `--unsafe-perm` and the inherited terminal are not
  modelled.
- The effect of a successful install on the file system or on `module_exists` is not
  modelled: both stay fixed for the run. A manifest listing the same package twice
  therefore plans the installer for it twice.
- `module_exists` is a fixed set of resolvable keys. How `require.resolve` searches is not
  modelled.
- `require('module').Module._initPaths()` (line 75) is not modelled. The model's search
  path is only the `NODE_PATH` text.
- An undefined `NODE_PATH` (on which line 73 would throw) is not modelled: the search path
  is always a string.
- A non-string `modulePath` or manifest entry (on which indexing or `split` behaves
  differently or throws) is not modelled: both are strings.
- Resolver.NeedsInstall, Resolver.ResolveEffect: existence is judged on the spelling of a
  path, while `fs.existsSync` (lines 70 and 87) resolves `.`, `..`, doubled and trailing `/`
  first. So the model plans an install that the code skips when the key is such a path.
  Examples are the empty key (`/node/node_modules/` exists once the store does) and
  `./lib/x` when `/node/node_modules/lib/x` exists. The same goes for the store of a sub-path
  such as `x/`, which is spelt `/node/x//node_modules`. Path canonicalisation is not
  modelled.
- `ensureDirSync` failing (permissions, a file in the way) is not modelled. Files and
  folders are not told apart in the set of paths.
- `require` of the script is a yes/no input (`Launch.scriptLoads`). A script whose export is
  not a function, which `node_script.call` at line 184 would reject, is not modelled. What
  the script does once invoked is not modelled either.
- The capability record holds tags only. `ask` (readline-sync), `fs` (fs-extra), `isNumeric`,
  `uuid`, `transform` (qewd-transform-json) and `shell` (lines 31-58) are library wrappers
  outside this model.
- `require` of the manifest is reduced to its outcome (`Manifest`: unparsable, not a list, or
  a list of names). Node's module cache is not modelled.
- The process's exit status is not modelled.

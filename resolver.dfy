/** `installModule` (node-runner.js, lines 60-96) over an explicit host state, and the
    manifest loop that calls it once per entry (lines 173-178). */
module Resolver {
  import opened Wrappers
  import opened Strings
  import opened Paths
  import opened LookupKey
  import opened SearchPath

  /** One run of `npm install --unsafe-perm <package> --prefix <prefix>`. */
  datatype InstallCall = InstallCall(package: string, prefix: string)

  /** The services in the capability record the script is invoked with. */
  datatype Service = ReadlineSync | FsExtra | InstallModuleFn | IsNumericFn | UuidV4 | TransformJson | ShellFn

  /** What the runner does that is visible outside the process, in the order it happens:
      installer runs, and the invocation of the script with its context object. */
  datatype Event = Npm(call: InstallCall) | Invoke(script: string, context: map<string, Service>)

  /** The state node-runner.js changes: NODE_PATH, the set of paths that exist, and the
      events so far. */
  datatype Host = Host(nodePath: string, paths: set<string>, log: seq<Event>)

  /** The answers of collaborators outside the model: the lookup keys `module-exists` can
      resolve, and the installer runs that exit with a nonzero status. */
  datatype Oracles = Oracles(resolvable: set<string>, failing: set<InstallCall>)

  /** The state after installing, and the installer run that failed, if one did. */
  datatype Step = Step(host: Host, failure: Option<InstallCall>)

  /** Line 87: the package is installed only when `module-exists` cannot resolve its lookup key
      and the store below `root` holds no directory of that name. */
  predicate NeedsInstall(paths: set<string>, o: Oracles, moduleName: string, root: string) {
    var key := RootName(moduleName);
    key !in o.resolvable && EntryPath(StorePath(root), key) !in paths
  }

  /** `installModule(moduleName, modulePath)`: create the store if missing, put the root on
      NODE_PATH, and run the installer with the full specifier when the package is missing.
      A failing installer run surfaces as the exception `execSync` throws. */
  function Resolve(h: Host, o: Oracles, moduleName: string, modulePath: Option<string>): (step: Step) {
    var root := ModulePath(modulePath);
    var paths := WithStore(h.paths, StorePath(root));
    var nodePath := WithRoot(h.nodePath, root);
    if NeedsInstall(paths, o, moduleName, root) then
      var call := InstallCall(moduleName, root);
      Step(Host(nodePath, paths, h.log + [Npm(call)]), if call in o.failing then Some(call) else None)
    else
      Step(Host(nodePath, paths, h.log), None)
  }

  /** The effect of one `installModule` call, with the install decision stated on the paths as
      they were before the call: the installer runs exactly once, with the whole specifier and
      the derived root, when neither `module-exists` nor the store has the lookup key, and not
      at all otherwise; the call fails exactly when that run fails. */
  lemma ResolveEffect(h: Host, o: Oracles, moduleName: string, modulePath: Option<string>)
    ensures var s := Resolve(h, o, moduleName, modulePath);
      var root := ModulePath(modulePath);
      var call := InstallCall(moduleName, root);
      var needed := RootName(moduleName) !in o.resolvable
        && StorePath(root) + "/" + RootName(moduleName) !in h.paths;
      s.host.nodePath == WithRoot(h.nodePath, root)
      && s.host.paths == WithStore(h.paths, StorePath(root))
      && s.host.log == h.log + (if needed then [Npm(call)] else [])
      && s.failure == (if needed && call in o.failing then Some(call) else None)
  {
    var root := ModulePath(modulePath);
    WithStoreKeepsEntries(h.paths, StorePath(root), RootName(moduleName));
  }

  /** A manifest entry whose installer run is needed and fails. */
  predicate Fails(paths: set<string>, o: Oracles, moduleName: string) {
    NeedsInstall(paths, o, moduleName, NodeRoot) && InstallCall(moduleName, NodeRoot) in o.failing
  }

  /** No entry of `names` fails. */
  predicate NoneFails(paths: set<string>, o: Oracles, names: seq<string>)
    decreases |names|
  {
    names == [] || (NoneFails(paths, o, names[..|names| - 1]) && !Fails(paths, o, names[|names| - 1]))
  }

  /** `NoneFails` says of every entry that it does not fail. */
  lemma {:induction false} NoneFailsEveryEntry(paths: set<string>, o: Oracles, names: seq<string>)
    ensures NoneFails(paths, o, names) <==> forall i :: 0 <= i < |names| ==> !Fails(paths, o, names[i])
    decreases |names|
  {
    if names != [] {
      var init := names[..|names| - 1];
      NoneFailsEveryEntry(paths, o, init);
      assert forall i :: 0 <= i < |init| ==> init[i] == names[i];
    }
  }

  /** Entry `k` is the first of `names` whose installation fails. */
  predicate FirstFailure(paths: set<string>, o: Oracles, names: seq<string>, k: int) {
    0 <= k < |names| && NoneFails(paths, o, names[..k]) && Fails(paths, o, names[k])
  }

  /** A list whose first `k` entries do not fail but whose entry `k` does has not all
      entries succeeding. */
  lemma {:induction false} FailureIsFirst(paths: set<string>, o: Oracles, names: seq<string>, k: int)
    requires FirstFailure(paths, o, names, k)
    ensures !NoneFails(paths, o, names)
    decreases |names|
  {
    var n := |names|;
    if k < n - 1 {
      var init := names[..n - 1];
      assert names[..k] == init[..k] && names[k] == init[k];
      FailureIsFirst(paths, o, init, k);
    }
  }

  /** The installer runs a list of manifest entries calls for, in list order, judged against
      the paths that existed before the first of them. */
  function Planned(paths: set<string>, o: Oracles, names: seq<string>): (calls: seq<Event>)
    decreases |names|
  {
    if names == [] then
      []
    else
      var last := names[|names| - 1];
      Planned(paths, o, names[..|names| - 1])
        + (if NeedsInstall(paths, o, last, NodeRoot) then [Npm(InstallCall(last, NodeRoot))] else [])
  }

  /** Lines 173-178: `installModule(name)` for each manifest entry in order, without a subpath;
      the first exception ends the loop. */
  function InstallAll(h: Host, o: Oracles, names: seq<string>): (step: Step)
    decreases |names|
  {
    if names == [] then
      Step(h, None)
    else
      var s := InstallAll(h, o, names[..|names| - 1]);
      if s.failure.Some? then s else Resolve(s.host, o, names[|names| - 1], None)
  }

  /** After the manifest loop NODE_PATH holds `/node` and the store `/node/node_modules`
      exists, as soon as there was one entry; an empty list changes nothing. */
  lemma {:induction false} InstallAllState(h: Host, o: Oracles, names: seq<string>)
    ensures var s := InstallAll(h, o, names);
      s.host.nodePath == (if names == [] then h.nodePath else WithRoot(h.nodePath, NodeRoot))
      && s.host.paths == (if names == [] then h.paths else WithStore(h.paths, StorePath(NodeRoot)))
    decreases |names|
  {
    if names != [] {
      var init := names[..|names| - 1];
      InstallAllState(h, o, init);
      if init != [] {
        WithRootIdempotent(h.nodePath, NodeRoot);
        WithStoreKeepsEntries(h.paths, StorePath(NodeRoot), "");
      }
    }
  }

  /** One more manifest entry after a loop that has not failed: its decision is the one the
      original paths give, whatever the earlier entries created. */
  lemma InstallAllExtend(h: Host, o: Oracles, names: seq<string>)
    requires names != [] && InstallAll(h, o, names[..|names| - 1]).failure.None?
    ensures var last := names[|names| - 1];
      var inner := InstallAll(h, o, names[..|names| - 1]);
      var s := InstallAll(h, o, names);
      var call := InstallCall(last, NodeRoot);
      s.host.log == inner.host.log
        + (if NeedsInstall(h.paths, o, last, NodeRoot) then [Npm(call)] else [])
      && s.failure == (if Fails(h.paths, o, last) then Some(call) else None)
  {
    var last := names[|names| - 1];
    InstallAllState(h, o, names[..|names| - 1]);
    WithStoreKeepsEntries(h.paths, StorePath(NodeRoot), RootName(last));
  }

  /** Once the loop has failed, later entries change nothing: the failure of a prefix is the
      failure of the whole list. */
  lemma {:induction false} InstallAllFailed(h: Host, o: Oracles, names: seq<string>, j: nat)
    requires j <= |names| && InstallAll(h, o, names[..j]).failure.Some?
    ensures InstallAll(h, o, names) == InstallAll(h, o, names[..j])
    decreases |names| - j
  {
    if j < |names| {
      var init := names[..|names| - 1];
      assert init[..j] == names[..j];
      InstallAllFailed(h, o, init, j);
    } else {
      assert names[..j] == names;
    }
  }

  /** The manifest loop completes exactly when no entry's installer run fails. */
  lemma {:induction false} InstallAllCompletes(h: Host, o: Oracles, names: seq<string>)
    ensures InstallAll(h, o, names).failure.None? <==> NoneFails(h.paths, o, names)
    decreases |names|
  {
    if names != [] {
      var init := names[..|names| - 1];
      InstallAllCompletes(h, o, init);
      if InstallAll(h, o, init).failure.None? {
        InstallAllExtend(h, o, names);
      }
    }
  }

  /** A completed manifest loop has run the installer for exactly the entries that need it,
      in list order. */
  lemma {:induction false} InstallAllLog(h: Host, o: Oracles, names: seq<string>)
    ensures var s := InstallAll(h, o, names);
      s.failure.None? ==> s.host.log == h.log + Planned(h.paths, o, names)
    decreases |names|
  {
    if names != [] && InstallAll(h, o, names).failure.None? {
      var n := |names|;
      var init, last := names[..n - 1], names[n - 1];
      InstallAllLog(h, o, init);
      InstallAllExtend(h, o, names);
      var extra := if NeedsInstall(h.paths, o, last, NodeRoot) then [Npm(InstallCall(last, NodeRoot))] else [];
      assert Planned(h.paths, o, names) == Planned(h.paths, o, init) + extra;
    }
  }

  /** A failing installer run ends the manifest loop: when entry `k` is the first that fails,
      the loop fails with that entry's run, having run the installer for the entries before it
      that needed it and for that entry, and for no later one. */
  lemma InstallAllStops(h: Host, o: Oracles, names: seq<string>, k: int)
    requires FirstFailure(h.paths, o, names, k)
    ensures var s := InstallAll(h, o, names);
      s.failure == Some(InstallCall(names[k], NodeRoot))
      && s.host.log == h.log + Planned(h.paths, o, names[..k + 1])
  {
    var prefix := names[..k + 1];
    assert prefix[..k] == names[..k] && prefix[k] == names[k];
    InstallAllFailsAtLast(h, o, prefix);
    InstallAllFailed(h, o, names, k + 1);
  }

  /** The case of `InstallAllStops` where the first failing entry is the last one. */
  lemma InstallAllFailsAtLast(h: Host, o: Oracles, names: seq<string>)
    requires FirstFailure(h.paths, o, names, |names| - 1)
    ensures var s := InstallAll(h, o, names);
      s.failure == Some(InstallCall(names[|names| - 1], NodeRoot))
      && s.host.log == h.log + Planned(h.paths, o, names)
  {
    var init := names[..|names| - 1];
    InstallAllCompletes(h, o, init);
    InstallAllLog(h, o, init);
    InstallAllExtend(h, o, names);
  }

  /** When the entries do not all succeed, one of them is the first to fail. */
  lemma {:induction false} SomeEntryFailsFirst(paths: set<string>, o: Oracles, names: seq<string>)
    requires !NoneFails(paths, o, names)
    ensures exists k :: FirstFailure(paths, o, names, k)
    decreases |names|
  {
    var n := |names|;
    var init := names[..n - 1];
    if NoneFails(paths, o, init) {
      assert names[..n - 1] == init;
      assert FirstFailure(paths, o, names, n - 1);
    } else {
      SomeEntryFailsFirst(paths, o, init);
      var k :| FirstFailure(paths, o, init, k);
      assert names[..k] == init[..k] && names[k] == init[k];
      assert FirstFailure(paths, o, names, k);
    }
  }
}

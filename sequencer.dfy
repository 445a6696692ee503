/** The top level of node-runner.js (lines 99-189): the mount-point and script checks, loading
    the script, the capability record, the optional manifest and the single invocation, each
    step run only when every step before it succeeded. */
module Sequencer {
  import opened Wrappers
  import opened Paths
  import opened LookupKey
  import opened SearchPath
  import opened Resolver

  /** What `require('/node/npm_install.json')` gives when the file exists: an exception, a
      value that is not an array, or an array of package specifiers. */
  datatype Manifest = Unparsable | NotAList | ModuleList(names: seq<string>)

  /** The inputs of one run that come from outside the model: the `node_script` variable,
      whether `require` of the script succeeds, and the manifest contents. */
  datatype Launch = Launch(nodeScript: Option<string>, scriptLoads: bool, manifest: Manifest)

  /** Where a run ends: one of the five aborts, or the invocation of the script. */
  datatype Status =
    | MissingMountPoint
    | MissingScript(path: string)
    | LoadError(path: string)
    | ManifestError
    | InstallFailure(call: InstallCall)
    | Invoked

  /** The state a run leaves behind, and where it ended. */
  datatype Outcome = Outcome(host: Host, status: Status)

  /** Lines 146-154: the context object the script is invoked with. */
  const Capabilities: map<string, Service> := map[
    "ask" := ReadlineSync,
    "fs" := FsExtra,
    "install_module" := InstallModuleFn,
    "isNumeric" := IsNumericFn,
    "uuid" := UuidV4,
    "transform" := TransformJson,
    "shell" := ShellFn
  ]

  /** Loading the manifest does not abort the run: it is absent, or it parses. */
  predicate ManifestLoads(paths: set<string>, manifest: Manifest) {
    ManifestPath !in paths || !manifest.Unparsable?
  }

  /** The entries handed to `installModule`: those of a manifest that exists and is an array,
      and none otherwise. */
  function ManifestModules(paths: set<string>, manifest: Manifest): (modules: seq<string>) {
    if ManifestPath in paths && manifest.ModuleList? then manifest.names else []
  }

  /** Every check before the manifest loop passes. */
  predicate ChecksPass(paths: set<string>, launch: Launch) {
    NodeRoot in paths && ScriptPath(launch.nodeScript) in paths && launch.scriptLoads
    && ManifestLoads(paths, launch.manifest)
  }

  /** One run of node-runner.js from the host state `h`. */
  function Run(h: Host, o: Oracles, launch: Launch): (r: Outcome) {
    var script := ScriptPath(launch.nodeScript);
    if NodeRoot !in h.paths then
      Outcome(h, MissingMountPoint)
    else if script !in h.paths then
      Outcome(h, MissingScript(script))
    else if !launch.scriptLoads then
      Outcome(h, LoadError(script))
    else if !ManifestLoads(h.paths, launch.manifest) then
      Outcome(h, ManifestError)
    else
      var s := InstallAll(h, o, ManifestModules(h.paths, launch.manifest));
      match s.failure
      case Some(call) => Outcome(s.host, InstallFailure(call))
      case None => Outcome(Host(s.host.nodePath, s.host.paths, s.host.log + [Invoke(script, Capabilities)]), Invoked)
  }

  /** The number of script invocations in a log. */
  function Invocations(log: seq<Event>): (n: nat)
    decreases |log|
  {
    if log == [] then 0
    else Invocations(log[..|log| - 1]) + (if log[|log| - 1].Invoke? then 1 else 0)
  }

  /** Invocations add up over concatenated logs. */
  lemma {:induction false} InvocationsAppend(a: seq<Event>, b: seq<Event>)
    ensures Invocations(a + b) == Invocations(a) + Invocations(b)
    decreases |b|
  {
    if b != [] {
      InvocationsAppend(a, b[..|b| - 1]);
      assert (a + b)[..|a + b| - 1] == a + b[..|b| - 1];
    } else {
      assert a + b == a;
    }
  }

  /** The manifest loop only ever runs the installer: it invokes nothing. */
  lemma {:induction false} PlannedInvokesNothing(paths: set<string>, o: Oracles, names: seq<string>)
    ensures Invocations(Planned(paths, o, names)) == 0
    decreases |names|
  {
    if names != [] {
      var init, last := names[..|names| - 1], names[|names| - 1];
      PlannedInvokesNothing(paths, o, init);
      var extra := if NeedsInstall(paths, o, last, NodeRoot) then [Npm(InstallCall(last, NodeRoot))] else [];
      InvocationsAppend(Planned(paths, o, init), extra);
      assert Invocations(extra) == 0 by {
        if extra != [] {
          assert extra[..0] == [];
        }
      }
    }
  }

  /** Each failure stops everything after it: a missing `/node`, a missing script, a script
      that does not load and a manifest that does not parse each end the run in that order of
      precedence, and leave NODE_PATH, the file system and the log exactly as they were. */
  lemma AbortsInOrder(h: Host, o: Oracles, launch: Launch)
    ensures var r := Run(h, o, launch);
      var script := ScriptPath(launch.nodeScript);
      (r.status == MissingMountPoint <==> NodeRoot !in h.paths)
      && (r.status == MissingScript(script) <==> NodeRoot in h.paths && script !in h.paths)
      && (r.status == LoadError(script) <==>
            NodeRoot in h.paths && script in h.paths && !launch.scriptLoads)
      && (r.status == ManifestError <==>
            NodeRoot in h.paths && script in h.paths && launch.scriptLoads
            && !ManifestLoads(h.paths, launch.manifest))
      && (!ChecksPass(h.paths, launch) ==> r.host == h)
  {
  }

  /** The script is invoked exactly when every check passes and no manifest entry's install
      fails; it is then invoked once, last, with the seven-service context, after the installer
      ran for exactly the manifest entries that need it, in order, leaving NODE_PATH and the
      paths as one `/node` update leaves them (or untouched for an empty manifest). */
  lemma {:induction false} InvokesAfterInstalls(h: Host, o: Oracles, launch: Launch)
    ensures var r := Run(h, o, launch);
      var modules := ManifestModules(h.paths, launch.manifest);
      (r.status == Invoked <==> ChecksPass(h.paths, launch) && NoneFails(h.paths, o, modules))
      && (r.status == Invoked ==>
            r.host.log == h.log + Planned(h.paths, o, modules)
              + [Invoke(ScriptPath(launch.nodeScript), Capabilities)]
            && r.host.nodePath == (if modules == [] then h.nodePath else WithRoot(h.nodePath, NodeRoot))
            && r.host.paths == (if modules == [] then h.paths else WithStore(h.paths, StorePath(NodeRoot))))
  {
    var modules := ManifestModules(h.paths, launch.manifest);
    if ChecksPass(h.paths, launch) {
      InstallAllCompletes(h, o, modules);
      InstallAllLog(h, o, modules);
      InstallAllState(h, o, modules);
    }
  }

  /** A failing install ends the run before the invocation: the failing run is that of the
      first manifest entry that fails, and the installer has run for no later entry. */
  lemma {:induction false} InstallFailureEndsRun(h: Host, o: Oracles, launch: Launch, k: int)
    requires ChecksPass(h.paths, launch)
    requires FirstFailure(h.paths, o, ManifestModules(h.paths, launch.manifest), k)
    ensures var r := Run(h, o, launch);
      var modules := ManifestModules(h.paths, launch.manifest);
      r.status == InstallFailure(InstallCall(modules[k], NodeRoot))
      && r.host.log == h.log + Planned(h.paths, o, modules[..k + 1])
  {
    InstallAllStops(h, o, ManifestModules(h.paths, launch.manifest), k);
  }

  /** Whatever happens, a run invokes the script at most once, and exactly once when it ends
      in `Invoked`. */
  lemma {:induction false} InvokesAtMostOnce(h: Host, o: Oracles, launch: Launch)
    ensures var r := Run(h, o, launch);
      Invocations(r.host.log) == Invocations(h.log) + (if r.status == Invoked then 1 else 0)
  {
    var r := Run(h, o, launch);
    var modules := ManifestModules(h.paths, launch.manifest);
    if ChecksPass(h.paths, launch) {
      var s := InstallAll(h, o, modules);
      PlannedInvokesNothing(h.paths, o, modules);
      if s.failure.None? {
        InstallAllLog(h, o, modules);
        InvocationsAppend(h.log, Planned(h.paths, o, modules));
        InvocationsAppend(h.log + Planned(h.paths, o, modules), [Invoke(ScriptPath(launch.nodeScript), Capabilities)]);
        assert [Invoke(ScriptPath(launch.nodeScript), Capabilities)][..0] == [];
      } else {
        InstallAllCompletes(h, o, modules);
        SomeEntryFailsFirst(h.paths, o, modules);
        var k :| FirstFailure(h.paths, o, modules, k);
        InstallAllStops(h, o, modules, k);
        PlannedInvokesNothing(h.paths, o, modules[..k + 1]);
        InvocationsAppend(h.log, Planned(h.paths, o, modules[..k + 1]));
      }
    }
  }

  /** The context object has exactly its seven services. */
  lemma CapabilitiesShape()
    ensures Capabilities.Keys == {"ask", "fs", "install_module", "isNumeric", "uuid", "transform", "shell"}
    ensures |Capabilities| == 7
  {
  }

  /** A manifest of `left-pad@1.2.0` and `@scope/thing@1.0.0`, with `left-pad` already in the
      store and `@scope/thing` nowhere: the installer runs once, with the full specifier
      `@scope/thing@1.0.0` and the prefix `/node`, and then the default script is invoked. */
  lemma ManifestExample(h: Host, o: Oracles, launch: Launch)
    requires NodeRoot in h.paths && ScriptPath(None) in h.paths && ManifestPath in h.paths
    requires EntryPath(StorePath(NodeRoot), "left-pad") in h.paths
    requires EntryPath(StorePath(NodeRoot), "@scope/thing") !in h.paths
    requires "@scope/thing" !in o.resolvable && InstallCall("@scope/thing@1.0.0", NodeRoot) !in o.failing
    requires launch == Launch(None, true, ModuleList(["left-pad@1.2.0", "@scope/thing@1.0.0"]))
    ensures Run(h, o, launch).status == Invoked
    ensures Run(h, o, launch).host.log == h.log
      + [Npm(InstallCall("@scope/thing@1.0.0", NodeRoot)), Invoke(ScriptPath(None), Capabilities)]
  {
    ExampleInstalls(h.paths, o, launch.manifest.names);
    InvokesAfterInstalls(h, o, launch);
  }

  /** The manifest part of the example above. Its manifest is a parameter pinned by
      `requires` only to keep the solver from unfolding the recursive functions on a literal;
      the lemma is an example, not a conditional fact. */
  lemma ExampleInstalls(paths: set<string>, o: Oracles, modules: seq<string>)
    requires EntryPath(StorePath(NodeRoot), "left-pad") in paths
    requires EntryPath(StorePath(NodeRoot), "@scope/thing") !in paths
    requires "@scope/thing" !in o.resolvable && InstallCall("@scope/thing@1.0.0", NodeRoot) !in o.failing
    requires modules == ["left-pad@1.2.0", "@scope/thing@1.0.0"]
    ensures NoneFails(paths, o, modules)
    ensures Planned(paths, o, modules) == [Npm(InstallCall(modules[1], NodeRoot))]
  {
    ExampleDecisions(paths, o, modules[0], "left-pad", modules[1], "@scope/thing");
    var first := modules[..1];
    assert first == [modules[0]] && first[..0] == [] && modules[..|modules| - 1] == first;
    assert Planned(paths, o, first) == [];
    assert Planned(paths, o, modules) == Planned(paths, o, first) + [Npm(InstallCall(modules[1], NodeRoot))];
  }

  /** The two install decisions of the example above, with the literals passed as pinned
      parameters for the same reason. */
  lemma ExampleDecisions(paths: set<string>, o: Oracles, plain: string, plainKey: string,
                         scoped: string, scopedKey: string)
    requires plain == "left-pad@1.2.0" && plainKey == "left-pad"
    requires scoped == "@scope/thing@1.0.0" && scopedKey == "@scope/thing"
    requires EntryPath(StorePath(NodeRoot), plainKey) in paths
    requires EntryPath(StorePath(NodeRoot), scopedKey) !in paths
    requires scopedKey !in o.resolvable && InstallCall(scoped, NodeRoot) !in o.failing
    ensures !NeedsInstall(paths, o, plain, NodeRoot) && !Fails(paths, o, plain)
    ensures NeedsInstall(paths, o, scoped, NodeRoot) && !Fails(paths, o, scoped)
  {
    RootNameOfPinnedName();
    RootNameOfPinnedScopedName();
  }
}

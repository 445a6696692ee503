/** node-runner.js as a program over mutable process state: `installModule` and the top-level
    bootstrap change NODE_PATH, the file system and the log step by step, and each is proved
    to leave exactly the state its specification function describes. */
module NodeRunner {
  import opened Wrappers
  import opened Strings
  import opened Paths
  import opened LookupKey
  import opened SearchPath
  import opened Resolver
  import opened Sequencer

  class Runner {
    /** `process.env.NODE_PATH`. */
    var nodePath: string
    /** The paths that exist in the container's file system. */
    var paths: set<string>
    /** Installer runs and the script invocation, in order. */
    var log: seq<Event>

    constructor (nodePath: string, paths: set<string>)
      ensures this.nodePath == nodePath && this.paths == paths && log == []
    {
      this.nodePath := nodePath;
      this.paths := paths;
      log := [];
    }

    /** The state as a value. */
    function State(): Host
      reads this
    {
      Host(nodePath, paths, log)
    }

    /** `installModule(moduleName, modulePath)`, lines 60-96; the result is the installer run
        whose failure `execSync` raises, if any. */
    method InstallModule(moduleName: string, modulePath: Option<string>, o: Oracles)
      returns (failure: Option<InstallCall>)
      modifies this
      ensures Step(State(), failure) == Resolve(old(State()), o, moduleName, modulePath)
    {
      var root := ModulePath(modulePath);
      var store := StorePath(root);
      if store !in paths {
        paths := EnsureDir(paths, store);
      }
      if IndexOf(nodePath, root + ":") == -1 {
        nodePath := root + ":" + nodePath;
      }
      var key := RootName(moduleName);
      failure := None;
      if key !in o.resolvable && EntryPath(store, key) !in paths {
        var call := InstallCall(moduleName, root);
        log := log + [Npm(call)];
        if call in o.failing {
          failure := Some(call);
        }
      }
    }

    /** The top level, lines 99-189: each check in turn, the manifest loop, the invocation. */
    method Bootstrap(o: Oracles, launch: Launch) returns (status: Status)
      modifies this
      ensures Outcome(State(), status) == Run(old(State()), o, launch)
    {
      if NodeRoot !in paths {
        return MissingMountPoint;
      }
      var scriptPath := ScriptPath(launch.nodeScript);
      if scriptPath !in paths {
        return MissingScript(scriptPath);
      }
      if !launch.scriptLoads {
        return LoadError(scriptPath);
      }
      var context := Capabilities;
      var modules: seq<string> := [];
      if ManifestPath in paths {
        match launch.manifest
        case Unparsable =>
          return ManifestError;
        case NotAList =>
        case ModuleList(names) =>
          modules := names;
      }
      assert modules == ManifestModules(old(State()).paths, launch.manifest);
      var failure := InstallManifest(modules, o);
      if failure.Some? {
        return InstallFailure(failure.value);
      }
      log := log + [Invoke(scriptPath, context)];
      status := Invoked;
    }

    /** Lines 173-178: one `installModule(name)` call per manifest entry, in order, with no
        sub-path; the first failing installer run ends the loop, as the exception it raises does. */
    method InstallManifest(modules: seq<string>, o: Oracles) returns (failure: Option<InstallCall>)
      modifies this
      ensures Step(State(), failure) == InstallAll(old(State()), o, modules)
    {
      ghost var start := State();
      var i := 0;
      while i < |modules|
        invariant 0 <= i <= |modules|
        invariant InstallAll(start, o, modules[..i]) == Step(State(), None)
      {
        assert modules[..i + 1][..i] == modules[..i];
        failure := InstallModule(modules[i], None, o);
        if failure.Some? {
          InstallAllFailed(start, o, modules, i + 1);
          return;
        }
        i := i + 1;
      }
      assert modules[..i] == modules;
      failure := None;
    }
  }
}

/** The file-system locations node-runner.js works with, and the directory
    creation it performs, over a file system seen as the set of paths that exist. */
module Paths {
  import opened Wrappers
  import opened Strings

  /** The mount point every script, manifest and installed package lives under. */
  const NodeRoot: string := "/node"

  /** The script base name used when the `node_script` variable is unset or empty. */
  const DefaultScriptName: string := "node-script"

  /** The optional list of packages the script needs. */
  const ManifestPath: string := "/node/npm_install.json"

  /** A subpath given to `installModule` gets a leading `/` unless it already has one;
      the empty subpath, whose first character is undefined, gets one too. */
  function Normalise(subpath: string): (p: string)
    ensures |p| > 0 && p[0] == '/'
    ensures |subpath| > 0 && subpath[0] == '/' ==> p == subpath
    ensures !(|subpath| > 0 && subpath[0] == '/') ==> p == "/" + subpath
  {
    if |subpath| > 0 && subpath[0] == '/' then subpath else "/" + subpath
  }

  /** The installation root of `installModule`: `/node` without a subpath, otherwise `/node`
      followed by the normalised subpath. Either way, as text, it is `/node` itself or begins
      with `/node/`; a `..` segment is not resolved, so on disk it need not lie below `/node`. */
  function ModulePath(subpath: Option<string>): (root: string)
    ensures root == NodeRoot || StartsWith(root, NodeRoot + "/")
  {
    match subpath
    case None => NodeRoot
    case Some(p) => NodeRoot + Normalise(p)
  }

  /** The root for each kind of subpath: none, one that starts with `/`, one that does not. */
  lemma ModulePathCases(subpath: Option<string>)
    ensures subpath.None? ==> ModulePath(subpath) == "/node"
    ensures subpath.Some? && StartsWith(subpath.value, "/") ==> ModulePath(subpath) == "/node" + subpath.value
    ensures subpath.Some? && !StartsWith(subpath.value, "/") ==> ModulePath(subpath) == "/node/" + subpath.value
  {
  }

  /** The subpath can be read back from the root, up to its leading `/`: a root given with a
      subpath is `/node` followed by the normalised subpath, so `p` and `Normalise(p)` name the
      same root and two subpaths give the same root only when they normalise alike. */
  lemma ModulePathRecovers(p: string, q: string)
    ensures ModulePath(Some(p))[|NodeRoot|..] == Normalise(p)
    ensures ModulePath(Some(Normalise(p))) == ModulePath(Some(p))
    ensures ModulePath(Some(p)) == ModulePath(Some(q)) <==> Normalise(p) == Normalise(q)
  {
    assert ModulePath(Some(p))[|NodeRoot|..] == Normalise(p);
    assert ModulePath(Some(q))[|NodeRoot|..] == Normalise(q);
  }

  /** The package store below an installation root. */
  function StorePath(root: string): (store: string)
    ensures StartsWith(store, root + "/")
    ensures store[|root|..] == "/node_modules"
  {
    root + "/node_modules"
  }

  /** Where a package's directory lies in a store, as spelled: the store, a `/` and the key.
      Nothing resolves `..` in the key, so on disk the directory need not lie in the store. */
  function EntryPath(store: string, key: string): (entry: string)
    ensures |entry| > |store| && StartsWith(entry, store + "/")
    ensures entry[|store| + 1..] == key
  {
    store + "/" + key
  }

  /** The proper ancestors of a path: each prefix that ends just before a `/`. */
  function Ancestors(path: string): (ancestors: set<string>) {
    set i | 0 < i < |path| && path[i] == '/' :: path[..i]
  }

  /** `fs.ensureDirSync(dir)`: `dir` and all its ancestors exist afterwards; nothing else is
      created, and in particular nothing longer than `dir`. */
  function EnsureDir(paths: set<string>, dir: string): (after: set<string>)
    ensures paths <= after && dir in after && Ancestors(dir) <= after
    ensures forall x :: x in after && x !in paths ==> x == dir || x in Ancestors(dir)
    ensures forall x :: x in after && x !in paths ==> |x| <= |dir|
  {
    paths + {dir} + Ancestors(dir)
  }

  /** Lines 70-72: the store directory is created when it does not exist yet. */
  function WithStore(paths: set<string>, store: string): (after: set<string>)
    ensures store in after && paths <= after
    ensures forall x :: x in after && x !in paths ==> |x| <= |store|
  {
    if store in paths then paths else EnsureDir(paths, store)
  }

  /** Preparing the store a second time changes nothing, and never changes whether a
      package directory inside it exists. */
  lemma WithStoreKeepsEntries(paths: set<string>, store: string, key: string)
    ensures WithStore(WithStore(paths, store), store) == WithStore(paths, store)
    ensures EntryPath(store, key) in WithStore(paths, store) <==> EntryPath(store, key) in paths
  {
  }

  /** The script name: the `node_script` variable when it is set and not empty (JavaScript's
      `||` keeps a truthy left operand), the default name otherwise. Never empty. */
  function ScriptName(nodeScript: Option<string>): (name: string)
    ensures name != ""
    ensures nodeScript.Some? && nodeScript.value != "" ==> name == nodeScript.value
    ensures nodeScript.None? || nodeScript.value == "" ==> name == DefaultScriptName
  {
    match nodeScript
    case Some(s) => if s != "" then s else DefaultScriptName
    case None => DefaultScriptName
  }

  /** The script file: the script name under `/node/` with the `.js` extension. */
  function ScriptPath(nodeScript: Option<string>): (path: string) {
    "/node/" + ScriptName(nodeScript) + ".js"
  }

  /** The script name a script path was built from. */
  function ScriptNameOf(path: string): (name: string)
    requires |path| >= 9
  {
    path[6..|path| - 3]
  }

  /** The script path lies directly in `/node/`, carries the `.js` extension, gives back its
      script name, and so two settings of `node_script` name the same file exactly when they
      give the same script name. */
  lemma ScriptPathRoundTrip(nodeScript: Option<string>, other: Option<string>)
    ensures var path := ScriptPath(nodeScript);
      StartsWith(path, "/node/") && |path| >= 10 && path[|path| - 3..] == ".js"
      && ScriptNameOf(path) == ScriptName(nodeScript)
    ensures ScriptPath(nodeScript) == ScriptPath(other) <==> ScriptName(nodeScript) == ScriptName(other)
  {
    var path, path' := ScriptPath(nodeScript), ScriptPath(other);
    assert ScriptNameOf(path) == ScriptName(nodeScript);
    assert ScriptNameOf(path') == ScriptName(other);
  }
}

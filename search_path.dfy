/** The update of the process-wide NODE_PATH value made by `installModule`
    (node-runner.js, lines 73-75). */
module SearchPath {
  import opened Strings

  /** NODE_PATH after `installModule` ran for `root`: `root:` is put in front unless the text
      `root:` already occurs somewhere in it. */
  function WithRoot(nodePath: string, root: string): (updated: string) {
    if IndexOf(nodePath, root + ":") == -1 then root + ":" + nodePath else nodePath
  }

  /** The update only ever prepends `root:`, does so exactly when `root:` did not occur, and
      the old value survives as a suffix. */
  lemma WithRootOnlyPrepends(nodePath: string, root: string)
    ensures var updated := WithRoot(nodePath, root);
      (updated == nodePath || updated == root + ":" + nodePath)
      && (updated != nodePath <==> !Contains(nodePath, root + ":"))
      && |updated| >= |nodePath| && updated[|updated| - |nodePath|..] == nodePath
  {
    var updated := WithRoot(nodePath, root);
    if updated != nodePath {
      assert updated == root + ":" + nodePath;
    }
  }

  /** Afterwards `root:` occurs in NODE_PATH. */
  lemma WithRootContainsRoot(nodePath: string, root: string)
    ensures Contains(WithRoot(nodePath, root), root + ":")
  {
    if IndexOf(nodePath, root + ":") == -1 {
      assert OccursAt(root + ":" + nodePath, root + ":", 0);
    }
  }

  /** A second update with the same root changes nothing. */
  lemma WithRootIdempotent(nodePath: string, root: string)
    ensures WithRoot(WithRoot(nodePath, root), root) == WithRoot(nodePath, root)
  {
    WithRootContainsRoot(nodePath, root);
  }

  /** Nothing is removed: whatever text occurred in NODE_PATH still occurs in it. */
  lemma WithRootKeepsText(nodePath: string, root: string, text: string)
    requires Contains(nodePath, text)
    ensures Contains(WithRoot(nodePath, root), text)
  {
    var updated := WithRoot(nodePath, root);
    if updated != nodePath {
      var i :| OccursAt(nodePath, text, i);
      var offset := |root| + 1;
      assert updated == (root + ":") + nodePath;
      assert updated[offset + i..offset + i + |text|] == nodePath[i..i + |text|];
      assert OccursAt(updated, text, offset + i);
    }
  }

  /** The test is on text, not on entries: `/node` is not added when another entry merely
      ends in `/node`. */
  lemma WithRootMatchesInsideEntry()
    ensures WithRoot("/opt/node:/usr/lib", "/node") == "/opt/node:/usr/lib"
  {
    var nodePath, key := "/opt/node:/usr/lib", "/node" + ":";
    assert nodePath[4..10] == key;
    assert OccursAt(nodePath, key, 4);
    assert IndexOf(nodePath, key) != -1;
  }

  /** An entry that is last, with no `:` after it, is not recognised: `/node` is put in front
      again. The literals are parameters pinned by `requires` only to keep the solver from
      unfolding `IndexOf` on them; the lemma is an example, not a conditional fact. */
  lemma WithRootMissesLastEntry(nodePath: string, root: string)
    requires nodePath == "/usr/lib:/node" && root == "/node"
    ensures WithRoot(nodePath, root) == "/node:/usr/lib:/node"
  {
    NoMatchInLastEntry(nodePath, root + ":");
  }

  /** The occurrence test of the example above; its literals are pinned parameters for the
      same reason. */
  lemma NoMatchInLastEntry(nodePath: string, key: string)
    requires nodePath == "/usr/lib:/node" && key == "/node:"
    ensures !Contains(nodePath, key)
  {
    forall i | 0 <= i && i + 6 <= |nodePath|
      ensures !OccursAt(nodePath, key, i)
    {
      assert nodePath[i..i + 6][0] == nodePath[i];
      assert nodePath[i..i + 6][5] == nodePath[i + 5];
    }
  }
}

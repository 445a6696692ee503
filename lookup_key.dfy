/** The lookup key of `installModule` (node-runner.js, lines 79-86): the part of a package
    specifier that decides whether the package is already present. The specifier is split on
    `@` only; a `/` plays no part. */
module LookupKey {
  import opened Strings

  /** `moduleName.split('@')`, then `'@' + pieces[1]` for a scoped name and `pieces[0]` otherwise. */
  function RootName(moduleName: string): (key: string)
  {
    var pieces := Split(moduleName, '@');
    if StartsWith(moduleName, "@") then
      assert moduleName[0] == '@';
      "@" + pieces[1]
    else
      pieces[0]
  }

  /** `key` is `s` with any version suffix removed: it holds no `@`, and it is either all of
      `s` or is followed in `s` by an `@`. */
  ghost predicate Unversioned(s: string, key: string) {
    '@' !in key && (key == s || StartsWith(s, key + "@"))
  }

  /** The independent description of the lookup key: a plain name keeps what precedes its first
      `@`; a scoped name keeps its leading `@` and what precedes the next `@`. */
  ghost predicate IsKeyOf(moduleName: string, key: string) {
    if StartsWith(moduleName, "@") then
      StartsWith(key, "@") && Unversioned(moduleName[1..], key[1..])
    else
      Unversioned(moduleName, key)
  }

  /** At most one key is an unversioned form of a string. */
  lemma UnversionedUnique(s: string, k1: string, k2: string)
    requires Unversioned(s, k1) && Unversioned(s, k2)
    ensures k1 == k2
  {
    assert forall j :: 0 <= j < |k1| ==> k1[j] == s[j] && k1[j] != '@';
    assert forall j :: 0 <= j < |k2| ==> k2[j] == s[j] && k2[j] != '@';
    assert k1 != s ==> |k1| < |s| && s[|k1|] == '@';
    assert k2 != s ==> |k2| < |s| && s[|k2|] == '@';
  }

  /** `RootName` computes exactly the key the description admits, and no other. */
  lemma RootNameMeetsDescription(moduleName: string, key: string)
    ensures IsKeyOf(moduleName, key) <==> key == RootName(moduleName)
  {
    var pieces := Split(moduleName, '@');
    SplitPieces(moduleName, '@');
    if StartsWith(moduleName, "@") {
      assert moduleName[0] == '@';
      SplitLeading(moduleName, '@');
      SplitPieces(moduleName[1..], '@');
      var tail := Split(moduleName[1..], '@');
      assert pieces[1] == tail[0];
      var k := RootName(moduleName);
      assert k == "@" + tail[0] && k[1..] == tail[0];
      assert IsKeyOf(moduleName, k);
      if IsKeyOf(moduleName, key) {
        UnversionedUnique(moduleName[1..], key[1..], k[1..]);
        assert key == [key[0]] + key[1..];
      }
    } else {
      assert IsKeyOf(moduleName, RootName(moduleName));
      if IsKeyOf(moduleName, key) {
        UnversionedUnique(moduleName, key, RootName(moduleName));
      }
    }
  }

  /** The key is a prefix of the specifier: only a trailing version pin is dropped. */
  lemma RootNameIsPrefix(moduleName: string)
    ensures StartsWith(moduleName, RootName(moduleName))
  {
    RootNameMeetsDescription(moduleName, RootName(moduleName));
    var key := RootName(moduleName);
    if StartsWith(moduleName, "@") {
      assert moduleName == "@" + moduleName[1..] && key == "@" + key[1..];
    }
  }

  /** A key is its own key: looking up by the key of an already stripped name changes nothing. */
  lemma RootNameIdempotent(moduleName: string)
    ensures RootName(RootName(moduleName)) == RootName(moduleName)
  {
    var key := RootName(moduleName);
    RootNameMeetsDescription(moduleName, key);
    if StartsWith(moduleName, "@") {
      assert StartsWith(key, "@") && key[1..] == key[1..];
    }
    assert IsKeyOf(key, key);
    RootNameMeetsDescription(key, key);
  }

  /** A name with no `@` at all is its own key. */
  lemma RootNameOfPlainName(moduleName: string)
    requires '@' !in moduleName
    ensures RootName(moduleName) == moduleName
  {
    RootNameMeetsDescription(moduleName, moduleName);
  }

  /** A version pin is dropped from a plain name. */
  lemma RootNameOfPinnedName()
    ensures RootName("left-pad@1.2.0") == "left-pad"
  {
    assert IsKeyOf("left-pad@1.2.0", "left-pad") by {
      assert "left-pad@1.2.0" == "left-pad" + "@" + "1.2.0";
    }
    RootNameMeetsDescription("left-pad@1.2.0", "left-pad");
  }

  /** A version pin is dropped from a scoped name, and the scope is kept. */
  lemma RootNameOfPinnedScopedName()
    ensures RootName("@scope/thing@1.0.0") == "@scope/thing"
  {
    assert IsKeyOf("@scope/thing@1.0.0", "@scope/thing") by {
      assert "@scope/thing@1.0.0"[1..] == "scope/thing" + "@" + "1.0.0";
      assert "@scope/thing"[1..] == "scope/thing";
    }
    RootNameMeetsDescription("@scope/thing@1.0.0", "@scope/thing");
  }

  /** A `/` does not end the key: the whole of a name with no `@` is its key, and a scoped name
      keeps every segment up to its version pin (`foo/bar` and `@s/n/x@1`). The literals are
      passed as parameters pinned by `requires` only to keep the solver from unfolding
      `RootName` on them; the lemma is an example, not a conditional fact. */
  lemma RootNameKeepsSlashes(plain: string, scoped: string, scopedKey: string)
    requires plain == "foo/bar" && scoped == "@s/n/x@1" && scopedKey == "@s/n/x"
    ensures RootName(plain) == plain
    ensures RootName(scoped) == scopedKey
  {
    RootNameOfPlainName(plain);
    assert scoped[1..] == scopedKey[1..] + "@" + "1";
    assert IsKeyOf(scoped, scopedKey);
    RootNameMeetsDescription(scoped, scopedKey);
  }
}

/** The few JavaScript string operations node-runner.js relies on:
    `startsWith`, `indexOf` and `split` on a single separator character. */
module Strings {

  /** `s.startsWith(p)`. */
  predicate StartsWith(s: string, p: string) {
    p <= s
  }

  /** `t` occurs in `s` starting at position `i`. */
  predicate OccursAt(s: string, t: string, i: int) {
    0 <= i && i + |t| <= |s| && s[i..i + |t|] == t
  }

  /** `t` occurs somewhere in `s`. */
  ghost predicate Contains(s: string, t: string) {
    exists i :: OccursAt(s, t, i)
  }

  /** An occurrence in `s[1..]` is an occurrence in `s` one position further on. */
  lemma OccursShift(s: string, t: string)
    requires |s| > 0
    ensures forall i :: 0 <= i ==> (OccursAt(s[1..], t, i) <==> OccursAt(s, t, i + 1))
    ensures forall i :: 0 < i ==> (OccursAt(s, t, i) <==> OccursAt(s[1..], t, i - 1))
  {
    forall i | 0 <= i
      ensures OccursAt(s[1..], t, i) <==> OccursAt(s, t, i + 1)
    {
      if i + |t| <= |s| - 1 {
        assert s[1..][i..i + |t|] == s[i + 1..i + 1 + |t|];
      }
    }
    forall i | 0 < i
      ensures OccursAt(s, t, i) <==> OccursAt(s[1..], t, i - 1)
    {
      if i + |t| <= |s| {
        assert s[1..][i - 1..i - 1 + |t|] == s[i..i + |t|];
      }
    }
  }

  /** `s.indexOf(t)`: the first position at which `t` occurs in `s`, or -1 when it does not occur. */
  function IndexOf(s: string, t: string): (r: int)
    ensures r == -1 <==> !Contains(s, t)
    ensures r != -1 ==> OccursAt(s, t, r) && forall i :: 0 <= i < r ==> !OccursAt(s, t, i)
    decreases |s|
  {
    if |t| > |s| then
      -1
    else if s[..|t|] == t then
      assert OccursAt(s, t, 0);
      0
    else
      var r := IndexOf(s[1..], t);
      OccursShift(s, t);
      assert !OccursAt(s, t, 0);
      assert Contains(s, t) ==> Contains(s[1..], t) by {
        if Contains(s, t) {
          var i :| OccursAt(s, t, i);
          assert OccursAt(s[1..], t, i - 1);
        }
      }
      assert r != -1 ==> OccursAt(s[1..], t, r) && OccursAt(s, t, r + 1);
      if r == -1 then -1 else r + 1
  }

  /** `s.split(c)` for a one-character separator: the pieces between the occurrences of `c`.
      There is always at least one piece, and at least two as soon as `c` occurs. */
  function Split(s: string, c: char): (pieces: seq<string>)
    ensures |pieces| >= 1
    ensures c in s ==> |pieces| >= 2
    decreases |s|
  {
    if s == [] then
      [[]]
    else
      var rest := Split(s[1..], c);
      if s[0] == c then
        [[]] + rest
      else
        [[s[0]] + rest[0]] + rest[1..]
  }

  /** `pieces.join(c)`. */
  function Join(pieces: seq<string>, c: char): (s: string)
    requires |pieces| >= 1
  {
    if |pieces| == 1 then pieces[0] else pieces[0] + [c] + Join(pieces[1..], c)
  }

  /** No piece contains the separator, and the first piece is the part of `s` before its
      first `c` (all of `s` when `c` does not occur). */
  lemma {:induction false} SplitPieces(s: string, c: char)
    ensures var pieces := Split(s, c);
      (forall k :: 0 <= k < |pieces| ==> c !in pieces[k])
      && (pieces[0] == s || StartsWith(s, pieces[0] + [c]))
    decreases |s|
  {
    if s != [] {
      SplitPieces(s[1..], c);
      var rest := Split(s[1..], c);
      if s[0] != c {
        var pieces := Split(s, c);
        assert pieces[0] == [s[0]] + rest[0];
        assert forall k :: 1 <= k < |pieces| ==> pieces[k] == rest[k];
        if rest[0] != s[1..] {
          assert s == [s[0]] + s[1..];
        }
      }
    }
  }

  /** Joining the pieces of a split with the separator gives back the string. */
  lemma {:induction false} SplitJoin(s: string, c: char)
    ensures Join(Split(s, c), c) == s
    decreases |s|
  {
    if s != [] {
      var rest := Split(s[1..], c);
      SplitJoin(s[1..], c);
      if s[0] == c {
        assert Split(s, c) == [[]] + rest;
        assert ([[]] + rest)[1..] == rest;
      } else {
        var pieces := Split(s, c);
        assert pieces == [[s[0]] + rest[0]] + rest[1..];
        if |rest| == 1 {
          assert Join(pieces, c) == [s[0]] + rest[0];
        } else {
          assert pieces[1..] == rest[1..];
          assert Join(rest, c) == rest[0] + [c] + Join(rest[1..], c);
        }
      }
    }
  }

  /** Splitting a string that starts with the separator gives an empty first piece
      followed by the pieces of the rest. */
  lemma SplitLeading(s: string, c: char)
    requires |s| > 0 && s[0] == c
    ensures Split(s, c) == [[]] + Split(s[1..], c)
  {
  }
}

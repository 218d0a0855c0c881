/** Definitions shared by the other modules. */
module Prelude {

  datatype Option<+T> = None | Some(value: T)

  /** A 16-bit code unit, the widest character the lexer handles. */
  type Unit = x: int | 0 <= x < 0x1_0000 witness 0

  type Text = seq<Unit>

  /** The elements of s are pairwise different. */
  ghost predicate NoDuplicates<T>(s: seq<T>) {
    forall i, j :: 0 <= i < j < |s| ==> s[i] != s[j]
  }

  lemma OnceOnly<T>(s: seq<T>, x: T)
    requires NoDuplicates(s)
    ensures multiset(s)[x] <= 1
  {
    if k :| 0 <= k < |s| && s[k] == x {
      assert s == s[..k] + [s[k]] + s[k + 1..];
      assert x !in s[..k] && x !in s[k + 1..];
    }
  }

  lemma TwoPositions<T>(s: seq<T>, i: nat, j: nat)
    requires i < j < |s| && s[i] == s[j]
    ensures multiset(s)[s[i]] >= 2
  {
    assert s == s[..j] + [s[j]] + s[j + 1..];
    assert s[i] in s[..j];
    assert s[i] in multiset(s[..j]);
  }
}

/** Small failure-compatible wrappers shared by the model. */
module Prelude {

  /** A value that the source writes as `T | null` or `T | undefined`. */
  datatype Option<+T> = None | Some(value: T) {
    function GetOr(default: T): T {
      if Some? then value else default
    }
  }

  /** A value or the error a command throws or returns. */
  datatype Result<+T, +E> = Ok(value: T) | Err(error: E)

  /** The entries of a list are pairwise different. */
  ghost predicate Distinct<T>(s: seq<T>) {
    forall i, j :: 0 <= i < j < |s| ==> s[i] != s[j]
  }

  /** The elements of a list as a set. */
  function Elements<T>(s: seq<T>): set<T> {
    set x | x in s
  }

  /** In a list without repetition every element counts once. */
  lemma {:induction false} DistinctCount<T>(s: seq<T>, x: T)
    requires Distinct(s)
    ensures multiset(s)[x] == if x in s then 1 else 0
    decreases |s|
  {
    if s != [] {
      var front := s[..|s| - 1];
      assert s == front + [s[|s| - 1]];
      DistinctCount(front, x);
    }
  }

  lemma TwiceCounts<T>(t: seq<T>, i: nat, j: nat)
    requires i < j < |t| && t[i] == t[j]
    ensures multiset(t)[t[i]] >= 2
  {
    var front, back := t[..j], t[j..];
    assert t == front + back;
    assert front[i] in multiset(front) && back[0] in multiset(back);
  }

  /** A rearrangement of a list without repetition has no repetition. */
  lemma DistinctRearranged<T>(s: seq<T>, t: seq<T>)
    requires Distinct(s) && multiset(s) == multiset(t)
    ensures Distinct(t)
  {
    forall i, j | 0 <= i < j < |t| ensures t[i] != t[j] {
      if t[i] == t[j] {
        TwiceCounts(t, i, j);
        DistinctCount(s, t[i]);
      }
    }
  }

  lemma SliceOfSlice<T>(s: seq<T>, a: nat, b: nat, c: nat, d: nat)
    requires a <= b <= |s| && c <= d <= b - a
    ensures s[a..b][c..d] == s[a + c..a + d]
  {
    var x, y := s[a..b][c..d], s[a + c..a + d];
    assert |x| == |y|;
    forall i | 0 <= i < |x| ensures x[i] == y[i] {
      assert s[a..b][c + i] == s[a + (c + i)];
    }
  }
}

/** The tree of src/components/RouteMap.tsx, over any containment test: the parent of
    an entry is the nearest earlier entry that contains it. */
module ContainmentTree {
  import opened Prelude

  /** The nearest container of entry `index` among the entries before `bound`. */
  function NearestBefore<T>(bound: nat, index: nat, dests: seq<T>, contains: (T, T) -> bool): (r: Option<nat>)
    requires bound <= |dests| && index < |dests|
    ensures r.Some? ==> r.value < bound && contains(dests[r.value], dests[index])
                        && forall i :: r.value < i < bound ==> !contains(dests[i], dests[index])
    ensures r.None? ==> forall i :: 0 <= i < bound ==> !contains(dests[i], dests[index])
  {
    if bound == 0 then None
    else if contains(dests[bound - 1], dests[index]) then Some(bound - 1)
    else NearestBefore(bound - 1, index, dests, contains)
  }

  function Parent<T>(index: nat, dests: seq<T>, contains: (T, T) -> bool): Option<nat>
    requires index < |dests|
  {
    NearestBefore(index, index, dests, contains)
  }

  /** Parents of parents, nearest first. */
  function Chain<T>(index: nat, dests: seq<T>, contains: (T, T) -> bool): (r: seq<nat>)
    requires index < |dests|
    ensures forall a :: 0 <= a < |r| ==> r[a] < index
    decreases index
  {
    var p := Parent(index, dests, contains);
    if p.None? then [] else [p.value] + Chain(p.value, dests, contains)
  }

  predicate HasChildren<T>(index: nat, dests: seq<T>, contains: (T, T) -> bool)
    requires index < |dests|
  {
    exists i :: index < i < |dests| && contains(dests[index], dests[i])
  }

  method ParentPrefixIndex<T>(index: nat, dests: seq<T>, contains: (T, T) -> bool) returns (r: Option<nat>)
    requires index < |dests|
    ensures r == Parent(index, dests, contains)
  {
    var i: nat := index;
    while i > 0
      invariant i <= index
      invariant Parent(index, dests, contains) == NearestBefore(i, index, dests, contains)
    {
      i := i - 1;
      if contains(dests[i], dests[index]) { return Some(i); }
    }
    r := None;
  }

  /** The walk returns the whole chain, so its `seen` guard never cuts it short. */
  method Ancestors<T>(index: nat, dests: seq<T>, contains: (T, T) -> bool) returns (result: seq<nat>)
    requires index < |dests|
    ensures result == Chain(index, dests, contains)
  {
    result := [];
    var current: nat := index;
    var seen: set<nat> := {};
    while true
      invariant current <= index
      invariant result + Chain(current, dests, contains) == Chain(index, dests, contains)
      invariant forall s :: s in seen ==> s >= current
      decreases current
    {
      var parent := ParentPrefixIndex(current, dests, contains);
      if parent.None? || parent.value in seen { return; }
      seen := seen + {parent.value};
      result := result + [parent.value];
      current := parent.value;
    }
  }

  method TreeDepth<T>(index: nat, dests: seq<T>, contains: (T, T) -> bool) returns (depth: nat)
    requires index < |dests|
    ensures depth == |Chain(index, dests, contains)|
  {
    depth := 0;
    var current: nat := index;
    var seen: set<nat> := {};
    while true
      invariant current <= index
      invariant depth + |Chain(current, dests, contains)| == |Chain(index, dests, contains)|
      invariant forall s :: s in seen ==> s >= current
      decreases current
    {
      var parent := ParentPrefixIndex(current, dests, contains);
      if parent.None? || parent.value in seen { return; }
      seen := seen + {parent.value};
      depth := depth + 1;
      current := parent.value;
    }
  }

  // ----- laminar containment --------------------------------------------

  /** A strict order in which two containers of one entry are nested or `same`. */
  ghost predicate Laminar<T(!new)>(contains: (T, T) -> bool, same: (T, T) -> bool) {
    && (forall a, b :: contains(a, b) ==> !contains(b, a))
    && (forall a, b, c :: contains(a, b) && contains(b, c) ==> contains(a, c))
    && (forall a, b, c :: contains(a, c) && contains(b, c) ==> contains(a, b) || contains(b, a) || same(a, b))
    && (forall a, b, c :: same(a, b) && contains(b, c) ==> contains(a, c))
    && (forall a, b :: same(a, b) ==> !contains(a, b) && !contains(b, a))
  }

  ghost function Containers<T>(index: nat, dests: seq<T>, contains: (T, T) -> bool): set<nat>
    requires index < |dests|
  {
    set j | 0 <= j < |dests| && contains(dests[j], dests[index])
  }

  /** Every entry of `chain` contains entry `index`, and each contains all those
      before it: tightest first, each once. */
  ghost predicate TightestFirst<T>(chain: seq<nat>, index: nat, dests: seq<T>, contains: (T, T) -> bool)
    requires index < |dests|
  {
    (forall a :: 0 <= a < |chain| ==> chain[a] < |dests| && contains(dests[chain[a]], dests[index])) &&
    (forall a, b :: 0 <= a < b < |chain| ==> contains(dests[chain[b]], dests[chain[a]]))
  }

  lemma {:induction false} ChainOrder<T(!new)>(index: nat, dests: seq<T>, contains: (T, T) -> bool,
                                               same: (T, T) -> bool)
    requires Laminar(contains, same)
    requires index < |dests|
    ensures TightestFirst(Chain(index, dests, contains), index, dests, contains)
    decreases index
  {
    var p := Parent(index, dests, contains);
    if p.Some? {
      ChainOrder(p.value, dests, contains, same);
      var chain, rest := Chain(index, dests, contains), Chain(p.value, dests, contains);
      assert chain == [p.value] + rest;
      forall a | 0 <= a < |rest| ensures contains(dests[rest[a]], dests[index]) {
        assert contains(dests[rest[a]], dests[p.value]);
      }
    }
  }

  /** The tree is faithful: each entry's ancestors are exactly its containers. */
  ghost predicate ExactAncestry<T>(dests: seq<T>, contains: (T, T) -> bool) {
    forall i :: 0 <= i < |dests| ==> Elements(Chain(i, dests, contains)) == Containers(i, dests, contains)
  }

  /** No entry contains an earlier one, and no two entries that are the same block
      precede an entry inside that block. */
  ghost predicate WellListed<T>(dests: seq<T>, contains: (T, T) -> bool, same: (T, T) -> bool) {
    (forall i, j :: 0 <= i < j < |dests| ==> !contains(dests[j], dests[i])) &&
    (forall j, k, i :: 0 <= j < k < i < |dests| && same(dests[j], dests[k]) ==> !contains(dests[k], dests[i]))
  }

  lemma {:induction false} ChainComplete<T(!new)>(i: nat, dests: seq<T>, contains: (T, T) -> bool, same: (T, T) -> bool)
    requires Laminar(contains, same)
    requires WellListed(dests, contains, same) && i < |dests|
    ensures Elements(Chain(i, dests, contains)) == Containers(i, dests, contains)
    decreases i
  {
    ChainOrder(i, dests, contains, same);
    forall j | j in Containers(i, dests, contains) ensures j in Chain(i, dests, contains) {
      var p := Parent(i, dests, contains);
      assert j != i && j < i && p.Some? && j <= p.value;
      if j < p.value {
        assert contains(dests[j], dests[p.value]);
        ChainComplete(p.value, dests, contains, same);
        assert j in Containers(p.value, dests, contains);
      }
    }
  }

  lemma AncestryImpliesWellListed<T(!new)>(dests: seq<T>, contains: (T, T) -> bool, same: (T, T) -> bool)
    requires Laminar(contains, same)
    requires ExactAncestry(dests, contains)
    ensures WellListed(dests, contains, same)
  {
    forall i, j | 0 <= i < j < |dests| ensures !contains(dests[j], dests[i]) {
      assert j in Containers(i, dests, contains) <==> j in Chain(i, dests, contains);
    }
    forall j, k, i | 0 <= j < k < i < |dests| && same(dests[j], dests[k])
      ensures !contains(dests[k], dests[i])
    {
      ChainOrder(i, dests, contains, same);
      var chain := Chain(i, dests, contains);
      assert j in Containers(i, dests, contains) <==> j in chain;
      assert k in Containers(i, dests, contains) <==> k in chain;
    }
  }

  /** For every list, the tree is faithful exactly when the list is well listed. */
  lemma AncestryExact<T(!new)>(dests: seq<T>, contains: (T, T) -> bool, same: (T, T) -> bool)
    requires Laminar(contains, same)
    ensures ExactAncestry(dests, contains) <==> WellListed(dests, contains, same)
  {
    if ExactAncestry(dests, contains) {
      AncestryImpliesWellListed(dests, contains, same);
    }
    if WellListed(dests, contains, same) {
      forall i | 0 <= i < |dests| ensures Elements(Chain(i, dests, contains)) == Containers(i, dests, contains) {
        ChainComplete(i, dests, contains, same);
      }
    }
  }

  /** An entry is drawn as branchable whenever it is some entry's ancestor, and in a
      well-listed list only then. */
  lemma ChildrenAreDescendants<T(!new)>(index: nat, dests: seq<T>, contains: (T, T) -> bool, same: (T, T) -> bool)
    requires Laminar(contains, same)
    requires index < |dests|
    ensures (exists k :: 0 <= k < |dests| && index in Chain(k, dests, contains)) ==> HasChildren(index, dests, contains)
    ensures WellListed(dests, contains, same) && HasChildren(index, dests, contains) ==>
              exists k :: 0 <= k < |dests| && index in Chain(k, dests, contains)
  {
    if k :| 0 <= k < |dests| && index in Chain(k, dests, contains) {
      ChainOrder(k, dests, contains, same);
      var a :| 0 <= a < |Chain(k, dests, contains)| && Chain(k, dests, contains)[a] == index;
    }
    if WellListed(dests, contains, same) && HasChildren(index, dests, contains) {
      var k :| index < k < |dests| && contains(dests[index], dests[k]);
      ChainComplete(k, dests, contains, same);
      assert index in Containers(k, dests, contains);
    }
  }
}

/** Reordering a backend group in src/components/ProfileManager.tsx: the moves and drops
    that produce a new id order, and the placement of that order in the flat list. */
module GroupOrder {
  import opened Prelude
  import opened SandboxTypes

  /** The profiles of one backend, in list order. */
  function GroupOf(profiles: seq<Profile>, backend: Backend): (r: seq<Profile>)
    ensures forall i :: 0 <= i < |r| ==> r[i].backend == backend
  {
    if profiles == [] then []
    else
      var rest, last := GroupOf(profiles[..|profiles| - 1], backend), profiles[|profiles| - 1];
      if last.backend == backend then rest + [last] else rest
  }

  function OthersOf(profiles: seq<Profile>, backend: Backend): seq<Profile> {
    if profiles == [] then []
    else
      var rest, last := OthersOf(profiles[..|profiles| - 1], backend), profiles[|profiles| - 1];
      if last.backend == backend then rest else rest + [last]
  }

  function IdsOf(profiles: seq<Profile>): (r: seq<string>)
    ensures |r| == |profiles| && forall i :: 0 <= i < |r| ==> r[i] == profiles[i].id
  {
    seq(|profiles|, i requires 0 <= i < |profiles| => profiles[i].id)
  }

  /** What a map filled from the group in order holds for an id: the last entry. */
  function LastWith(group: seq<Profile>, id: string): (r: Option<Profile>)
    ensures r.Some? ==> r.value in group && r.value.id == id
    ensures r.None? ==> forall i :: 0 <= i < |group| ==> group[i].id != id
  {
    if group == [] then None
    else if group[|group| - 1].id == id then Some(group[|group| - 1])
    else LastWith(group[..|group| - 1], id)
  }

  function Resolved(orderedIds: seq<string>, group: seq<Profile>): (r: seq<Profile>)
    ensures forall i :: 0 <= i < |r| ==> r[i] in group
  {
    if orderedIds == [] then []
    else
      var rest, p := Resolved(orderedIds[..|orderedIds| - 1], group), LastWith(group, orderedIds[|orderedIds| - 1]);
      if p.Some? then rest + [p.value] else rest
  }

  /** The slots of the backend take the ordered profiles in turn, while they last. */
  function Placed(profiles: seq<Profile>, backend: Backend, ordered: seq<Profile>): (r: seq<Profile>)
    ensures |r| == |profiles|
  {
    if profiles == [] then []
    else
      var n := |profiles| - 1;
      var i := |GroupOf(profiles[..n], backend)|;
      Placed(profiles[..n], backend, ordered)
      + [if profiles[n].backend == backend && i < |ordered| then ordered[i] else profiles[n]]
  }

  function Reordered(profiles: seq<Profile>, backend: Backend, orderedIds: seq<string>): seq<Profile> {
    Placed(profiles, backend, Resolved(orderedIds, GroupOf(profiles, backend)))
  }

  method ApplyGroupOrder(profiles: seq<Profile>, backend: Backend, orderedIds: seq<string>) returns (r: seq<Profile>)
    ensures r == Reordered(profiles, backend, orderedIds)
  {
    hide LastWith, GroupOf, Resolved, Placed;
    var group := GroupOf(profiles, backend);
    var ordered: seq<Profile> := [];
    NothingPlaced(group, backend, orderedIds[..0], profiles[..0]);
    for k := 0 to |orderedIds|
      invariant ordered == Resolved(orderedIds[..k], group)
    {
      assert orderedIds[..k + 1] == orderedIds[..k] + [orderedIds[k]];
      ResolvedAppended(orderedIds[..k], orderedIds[k], group);
      var p := LastWith(group, orderedIds[k]);
      if p.Some? { ordered := ordered + [p.value]; }
    }
    assert orderedIds[..|orderedIds|] == orderedIds;
    r := [];
    var i: nat := 0;
    NothingPlaced(ordered, backend, [], profiles[..0]);
    for k := 0 to |profiles|
      invariant r == Placed(profiles[..k], backend, ordered)
      invariant i == if |GroupOf(profiles[..k], backend)| <= |ordered| then |GroupOf(profiles[..k], backend)|
                     else |ordered|
    {
      assert profiles[..k + 1] == profiles[..k] + [profiles[k]];
      Appended(profiles[..k], profiles[k], backend);
      PlacedAppended(profiles[..k], profiles[k], backend, ordered);
      if profiles[k].backend == backend && i < |ordered| {
        r := r + [ordered[i]];
        i := i + 1;
      } else {
        r := r + [profiles[k]];
      }
    }
    assert profiles[..|profiles|] == profiles;
  }

  lemma NothingPlaced(group: seq<Profile>, backend: Backend, ids: seq<string>, profiles: seq<Profile>)
    requires ids == [] && profiles == []
    ensures Resolved(ids, group) == [] && GroupOf(profiles, backend) == [] && Placed(profiles, backend, group) == []
  {
  }

  lemma ResolvedAppended(ids: seq<string>, id: string, group: seq<Profile>)
    ensures Resolved(ids + [id], group) ==
            Resolved(ids, group) + (if LastWith(group, id).Some? then [LastWith(group, id).value] else [])
  {
    hide LastWith;
    assert (ids + [id])[..|ids|] == ids;
  }

  // ----- the moves ------------------------------------------------------

  /** Swap a profile with its neighbour; `None` when it stands at the edge. */
  method MoveInGroup(items: seq<Profile>, id: string, delta: int) returns (r: Option<seq<string>>)
    ensures r.Some? ==> multiset(r.value) == multiset(IdsOf(items))
    ensures r.Some? ==>
              exists i :: 0 <= i < |items| && 0 <= i + delta < |items| && items[i].id == id
                          && (forall j :: 0 <= j < i ==> items[j].id != id)
                          && r.value == IdsOf(items)[i := items[i + delta].id][i + delta := items[i].id]
    ensures r.None? ==>
              forall i :: 0 <= i < |items| && items[i].id == id && (forall j :: 0 <= j < i ==> items[j].id != id) ==>
                !(0 <= i + delta < |items|)
  {
    var index := 0;
    while index < |items| && items[index].id != id
      invariant 0 <= index <= |items| && forall j :: 0 <= j < index ==> items[j].id != id
    {
      index := index + 1;
    }
    if index == |items| { return None; }
    var swap := index + delta;
    if swap < 0 || swap >= |items| { return None; }
    var ids := IdsOf(items);
    SwapPermutes(ids, index, swap);
    r := Some(ids[index := ids[swap]][swap := ids[index]]);
  }

  lemma SwapPermutes(s: seq<string>, i: nat, j: nat)
    requires i < |s| && j < |s|
    ensures multiset(s[i := s[j]][j := s[i]]) == multiset(s)
  {
  }

  function Dropping(ids: seq<string>, id: string): (r: seq<string>)
    ensures id !in r && |r| <= |ids|
  {
    if ids == [] then []
    else if ids[0] == id then Dropping(ids[1..], id)
    else [ids[0]] + Dropping(ids[1..], id)
  }

  lemma {:induction false} DroppingOne(ids: seq<string>, id: string)
    requires Distinct(ids) && id in ids
    ensures multiset(Dropping(ids, id)) + multiset{id} == multiset(ids)
    ensures forall x :: x in ids && x != id ==> x in Dropping(ids, id)
    decreases |ids|
  {
    assert ids == [ids[0]] + ids[1..];
    if ids[0] == id {
      DroppingNone(ids[1..], id);
    } else {
      DroppingOne(ids[1..], id);
    }
  }

  lemma {:induction false} DroppingNone(ids: seq<string>, id: string)
    requires id !in ids
    ensures Dropping(ids, id) == ids
    decreases |ids|
  {
    if ids != [] { DroppingNone(ids[1..], id); }
  }

  /** The index of the first occurrence, or -1. */
  function IndexOf(ids: seq<string>, id: string): (r: int)
    ensures -1 <= r < |ids|
    ensures r >= 0 ==> ids[r] == id
    ensures r < 0 ==> id !in ids
  {
    if ids == [] then -1
    else if ids[0] == id then 0
    else var r := IndexOf(ids[1..], id); if r < 0 then -1 else r + 1
  }

  /** `splice(at, 0, id)`: a negative start counts from the end. */
  function Spliced(ids: seq<string>, at: int, id: string): seq<string> {
    var start := if at < 0 then (if |ids| + at < 0 then 0 else |ids| + at) else if at > |ids| then |ids| else at;
    ids[..start] + [id] + ids[start..]
  }

  /** Drop the dragged profile beside the target, before it in its upper half; a card
      dropped on itself asks for nothing. */
  method CardDrop(items: seq<Profile>, dragged: string, target: string, upperHalf: bool)
    returns (r: Option<seq<string>>)
    ensures r.None? <==> dragged == target
    ensures r.Some? && Distinct(IdsOf(items)) && dragged in IdsOf(items) ==> multiset(r.value) == multiset(IdsOf(items))
    ensures r.Some? && Distinct(IdsOf(items)) && dragged in IdsOf(items) ==>
              Dropping(r.value, dragged) == Dropping(IdsOf(items), dragged)
    ensures r.Some? && Distinct(IdsOf(items)) && dragged in IdsOf(items) && target in IdsOf(items) ==>
              exists k :: 0 <= k < |r.value| - 1
                          && (if upperHalf then r.value[k] == dragged && r.value[k + 1] == target
                              else r.value[k] == target && r.value[k + 1] == dragged)
  {
    hide Dropping, IndexOf, Spliced;
    if dragged == target { return None; }
    var rest := Dropping(IdsOf(items), dragged);
    var at := IndexOf(rest, target);
    r := Some(Spliced(rest, if upperHalf then at else at + 1, dragged));
    SplicePermutes(rest, if upperHalf then at else at + 1, dragged);
    SpliceDropped(rest, if upperHalf then at else at + 1, dragged);
    if Distinct(IdsOf(items)) && dragged in IdsOf(items) {
      DroppingOne(IdsOf(items), dragged);
      if target in IdsOf(items) {
        SpliceBeside(rest, at, dragged, upperHalf);
      }
    }
  }

  lemma SpliceBeside(ids: seq<string>, at: nat, id: string, before: bool)
    requires at < |ids|
    ensures var r := Spliced(ids, if before then at else at + 1, id);
            at + 1 < |r|
            && (if before then r[at] == id && r[at + 1] == ids[at] else r[at] == ids[at] && r[at + 1] == id)
  {
  }

  lemma {:induction false} DroppingJoined(a: seq<string>, b: seq<string>, id: string)
    ensures Dropping(a + b, id) == Dropping(a, id) + Dropping(b, id)
    decreases |a|
  {
    if a == [] {
      assert a + b == b;
    } else {
      assert (a + b)[1..] == a[1..] + b;
      DroppingJoined(a[1..], b, id);
    }
  }

  lemma SpliceDropped(ids: seq<string>, at: int, id: string)
    requires id !in ids
    ensures Dropping(Spliced(ids, at, id), id) == ids
  {
    var start := if at < 0 then (if |ids| + at < 0 then 0 else |ids| + at) else if at > |ids| then |ids| else at;
    assert ids == ids[..start] + ids[start..];
    DroppedBetween(ids[..start], ids[start..], id);
  }

  lemma DroppedBetween(a: seq<string>, b: seq<string>, id: string)
    requires id !in a && id !in b
    ensures Dropping(a + [id] + b, id) == a + b
  {
    DroppedAlone(id);
    hide Dropping;
    DroppingJoined(a + [id], b, id);
    DroppingJoined(a, [id], id);
    DroppingNone(a, id);
    DroppingNone(b, id);
  }

  lemma DroppedAlone(id: string)
    ensures Dropping([id], id) == []
  {
  }

  lemma SplicePermutes(ids: seq<string>, at: int, id: string)
    ensures multiset(Spliced(ids, at, id)) == multiset(ids) + multiset{id}
  {
    var start := if at < 0 then (if |ids| + at < 0 then 0 else |ids| + at) else if at > |ids| then |ids| else at;
    assert ids == ids[..start] + ids[start..];
  }

  // ----- what a reorder does --------------------------------------------

  lemma {:induction false} SplitByBackend(profiles: seq<Profile>, backend: Backend)
    ensures multiset(profiles) == multiset(GroupOf(profiles, backend)) + multiset(OthersOf(profiles, backend))
    decreases |profiles|
  {
    if profiles != [] {
      var front, last := profiles[..|profiles| - 1], profiles[|profiles| - 1];
      assert profiles == front + [last];
      SplitByBackend(front, backend);
    }
  }

  /** The first profiles of the order, then the group members past its end. */
  function Overlaid(group: seq<Profile>, ordered: seq<Profile>): seq<Profile> {
    if |group| <= |ordered| then ordered[..|group|] else ordered + group[|ordered|..]
  }

  lemma Appended(front: seq<Profile>, p: Profile, backend: Backend)
    ensures GroupOf(front + [p], backend) == GroupOf(front, backend) + (if p.backend == backend then [p] else [])
    ensures OthersOf(front + [p], backend) == OthersOf(front, backend) + (if p.backend == backend then [] else [p])
  {
  }

  lemma OverlaidAppended(group: seq<Profile>, ordered: seq<Profile>, p: Profile)
    ensures Overlaid(group + [p], ordered) ==
            Overlaid(group, ordered) + [if |group| < |ordered| then ordered[|group|] else p]
  {
  }

  lemma PlacedAppended(front: seq<Profile>, p: Profile, backend: Backend, ordered: seq<Profile>)
    ensures var i := |GroupOf(front, backend)|;
            Placed(front + [p], backend, ordered) == Placed(front, backend, ordered)
            + [if p.backend == backend && i < |ordered| then ordered[i] else p]
  {
  }

  /** Placing an order rewrites the group's own slots and nothing else. */
  lemma {:induction false} PlacedParts(profiles: seq<Profile>, backend: Backend, ordered: seq<Profile>)
    requires forall i :: 0 <= i < |ordered| ==> ordered[i].backend == backend
    ensures GroupOf(Placed(profiles, backend, ordered), backend) == Overlaid(GroupOf(profiles, backend), ordered)
    ensures OthersOf(Placed(profiles, backend, ordered), backend) == OthersOf(profiles, backend)
    decreases |profiles|
  {
    if profiles == [] {
      assert Placed(profiles, backend, ordered) == [] && GroupOf(profiles, backend) == [];
    } else {
      hide GroupOf, OthersOf, Placed, Overlaid;
      var n := |profiles| - 1;
      var front, p := profiles[..n], profiles[n];
      PlacedParts(front, backend, ordered);
      assert profiles == front + [p];
      PlacedAppended(front, p, backend, ordered);
      Appended(front, p, backend);
      var before := GroupOf(front, backend);
      var q := if p.backend == backend && |before| < |ordered| then ordered[|before|] else p;
      Appended(Placed(front, backend, ordered), q, backend);
      if p.backend == backend { OverlaidAppended(before, ordered, p); }
    }
  }

  lemma {:induction false} PlacedElsewhere(profiles: seq<Profile>, backend: Backend, ordered: seq<Profile>, k: nat)
    requires k < |profiles| && profiles[k].backend != backend
    ensures Placed(profiles, backend, ordered)[k] == profiles[k]
    decreases |profiles|
  {
    hide GroupOf;
    if k < |profiles| - 1 { PlacedElsewhere(profiles[..|profiles| - 1], backend, ordered, k); }
  }

  /** How many of the group's slots an order takes. */
  function SlotsTaken(group: seq<Profile>, ordered: seq<Profile>): (m: nat)
    ensures m <= |group| && m <= |ordered|
  {
    if |ordered| <= |group| then |ordered| else |group|
  }

  lemma ReorderedParts(profiles: seq<Profile>, backend: Backend, group: seq<Profile>, ordered: seq<Profile>)
    requires group == GroupOf(profiles, backend)
    requires forall i :: 0 <= i < |ordered| ==> ordered[i] in group
    ensures multiset(Placed(profiles, backend, ordered)) ==
            multiset(ordered[..SlotsTaken(group, ordered)])
            + (multiset(group[SlotsTaken(group, ordered)..]) + multiset(OthersOf(profiles, backend)))
    ensures multiset(profiles) ==
            multiset(group[..SlotsTaken(group, ordered)])
            + (multiset(group[SlotsTaken(group, ordered)..]) + multiset(OthersOf(profiles, backend)))
  {
    hide GroupOf, OthersOf, Placed, Overlaid, SlotsTaken;
    PlacedParts(profiles, backend, ordered);
    SplitByBackend(profiles, backend);
    SplitByBackend(Placed(profiles, backend, ordered), backend);
    OverlaidParts(group, ordered);
    var m := SlotsTaken(group, ordered);
    SumsReassociate(multiset(ordered[..m]), multiset(group[m..]), multiset(OthersOf(profiles, backend)));
    SumsReassociate(multiset(group[..m]), multiset(group[m..]), multiset(OthersOf(profiles, backend)));
  }

  lemma OverlaidParts(group: seq<Profile>, ordered: seq<Profile>)
    ensures multiset(group) ==
            multiset(group[..SlotsTaken(group, ordered)]) + multiset(group[SlotsTaken(group, ordered)..])
    ensures multiset(Overlaid(group, ordered)) ==
            multiset(ordered[..SlotsTaken(group, ordered)]) + multiset(group[SlotsTaken(group, ordered)..])
  {
    var m := SlotsTaken(group, ordered);
    assert group == group[..m] + group[m..];
    assert Overlaid(group, ordered) == ordered[..m] + group[m..];
  }

  lemma SumsReassociate(a: multiset<Profile>, b: multiset<Profile>, c: multiset<Profile>)
    ensures (a + b) + c == a + (b + c)
  {
  }

  /** For every id list, a reorder keeps all profiles exactly when the resolved order
      rearranges the group members whose slots it takes. */
  lemma ConservesExactly(profiles: seq<Profile>, backend: Backend, orderedIds: seq<string>,
                         group: seq<Profile>, ordered: seq<Profile>)
    requires group == GroupOf(profiles, backend) && ordered == Resolved(orderedIds, group)
    ensures multiset(Reordered(profiles, backend, orderedIds)) == multiset(profiles) <==>
            multiset(ordered[..SlotsTaken(group, ordered)]) == multiset(group[..SlotsTaken(group, ordered)])
  {
    hide GroupOf, OthersOf, Resolved, Placed, SlotsTaken;
    ReorderedParts(profiles, backend, group, ordered);
    var m := SlotsTaken(group, ordered);
    Cancel(multiset(ordered[..m]), multiset(group[..m]),
           multiset(group[m..]) + multiset(OthersOf(profiles, backend)));
  }

  lemma Cancel(a: multiset<Profile>, b: multiset<Profile>, c: multiset<Profile>)
    ensures a + c == b + c <==> a == b
  {
    if a + c == b + c {
      assert (a + c) - c == a && (b + c) - c == b;
    }
  }

  lemma {:induction false} ResolvedAll(orderedIds: seq<string>, group: seq<Profile>)
    requires forall i :: 0 <= i < |orderedIds| ==> orderedIds[i] in IdsOf(group)
    ensures IdsOf(Resolved(orderedIds, group)) == orderedIds
    decreases |orderedIds|
  {
    if orderedIds != [] {
      var n := |orderedIds| - 1;
      ResolvedAll(orderedIds[..n], group);
      var j :| 0 <= j < |group| && group[j].id == orderedIds[n];
      assert orderedIds == orderedIds[..n] + [orderedIds[n]];
    }
  }

  lemma SameMember(a: seq<Profile>, group: seq<Profile>, p: Profile)
    requires Distinct(IdsOf(group)) && multiset(IdsOf(a)) == multiset(IdsOf(group))
    requires forall i :: 0 <= i < |a| ==> a[i] in group
    ensures p in a <==> p in group
  {
    if p in group {
      var k :| 0 <= k < |group| && group[k] == p;
      assert IdsOf(group)[k] in multiset(IdsOf(group));
      assert p.id in multiset(IdsOf(a));
      var i :| 0 <= i < |a| && IdsOf(a)[i] == p.id;
      var g :| 0 <= g < |group| && group[g] == a[i];
      assert IdsOf(group)[g] == IdsOf(group)[k];
    }
  }

  lemma {:induction false} SameIdsSameProfiles(a: seq<Profile>, group: seq<Profile>)
    requires Distinct(IdsOf(group)) && multiset(IdsOf(a)) == multiset(IdsOf(group))
    requires forall i :: 0 <= i < |a| ==> a[i] in group
    ensures multiset(a) == multiset(group) && |a| == |group|
  {
    DistinctRearranged(IdsOf(group), IdsOf(a));
    forall i, j | 0 <= i < j < |a| ensures a[i] != a[j] {
      assert IdsOf(a)[i] != IdsOf(a)[j];
    }
    forall i, j | 0 <= i < j < |group| ensures group[i] != group[j] {
      assert IdsOf(group)[i] != IdsOf(group)[j];
    }
    forall p ensures multiset(a)[p] == multiset(group)[p] {
      DistinctCount(a, p);
      DistinctCount(group, p);
      SameMember(a, group, p);
    }
    assert |IdsOf(a)| == |multiset(IdsOf(a))| && |IdsOf(group)| == |multiset(IdsOf(group))|;
  }

  /** Given any rearrangement of the whole group's ids, a reorder keeps the multiset of
      profiles, leaves every other backend's slot alone, and makes the group read in the
      requested order. */
  lemma PermutationReorders(profiles: seq<Profile>, backend: Backend, orderedIds: seq<string>)
    requires Distinct(IdsOf(GroupOf(profiles, backend)))
    requires multiset(orderedIds) == multiset(IdsOf(GroupOf(profiles, backend)))
    ensures multiset(Reordered(profiles, backend, orderedIds)) == multiset(profiles)
    ensures IdsOf(GroupOf(Reordered(profiles, backend, orderedIds), backend)) == orderedIds
    ensures forall k :: 0 <= k < |profiles| && profiles[k].backend != backend ==>
              Reordered(profiles, backend, orderedIds)[k] == profiles[k]
  {
    hide GroupOf, OthersOf, Resolved, Placed;
    var group := GroupOf(profiles, backend);
    var ordered := Resolved(orderedIds, group);
    forall i | 0 <= i < |orderedIds| ensures orderedIds[i] in IdsOf(group) {
      assert orderedIds[i] in multiset(orderedIds);
      assert orderedIds[i] in multiset(IdsOf(group));
    }
    ResolvedAll(orderedIds, group);
    SameIdsSameProfiles(ordered, group);
    ConservesExactly(profiles, backend, orderedIds, group, ordered);
    assert ordered[..|group|] == ordered && group[..|group|] == group;
    PlacedParts(profiles, backend, ordered);
    forall k | 0 <= k < |profiles| && profiles[k].backend != backend
      ensures Placed(profiles, backend, ordered)[k] == profiles[k]
    {
      PlacedElsewhere(profiles, backend, ordered, k);
    }
  }

  /** An order naming only a proper part of the group, one of whose members lies past the
      slots it takes, loses profiles: with distinct ids the first slots are overwritten. */
  lemma PartialOrderLoses(profiles: seq<Profile>, backend: Backend, orderedIds: seq<string>,
                          group: seq<Profile>, ordered: seq<Profile>, k: nat)
    requires group == GroupOf(profiles, backend) && ordered == Resolved(orderedIds, group)
    requires Distinct(IdsOf(group)) && |orderedIds| <= k < |group| && group[k].id in orderedIds
    ensures multiset(Reordered(profiles, backend, orderedIds)) != multiset(profiles)
  {
    hide GroupOf, Resolved, Placed, LastWith;
    ResolvedHas(orderedIds, group, k);
    var m := SlotsTaken(group, ordered);
    assert ordered[..m] == ordered && m <= k;
    forall i | 0 <= i < m ensures group[..m][i] != group[k] {
      assert IdsOf(group)[i] != IdsOf(group)[k];
    }
    assert group[k] in multiset(ordered[..m]);
    assert group[k] !in multiset(group[..m]);
    ConservesExactly(profiles, backend, orderedIds, group, ordered);
  }

  lemma {:induction false} ResolvedHas(orderedIds: seq<string>, group: seq<Profile>, k: nat)
    requires Distinct(IdsOf(group)) && k < |group|
    ensures |Resolved(orderedIds, group)| <= |orderedIds|
    ensures group[k].id in orderedIds ==> group[k] in Resolved(orderedIds, group)
    decreases |orderedIds|
  {
    hide LastWith;
    if orderedIds != [] {
      var n := |orderedIds| - 1;
      ResolvedHas(orderedIds[..n], group, k);
      assert orderedIds == orderedIds[..n] + [orderedIds[n]];
      if orderedIds[n] == group[k].id {
        var p := LastWith(group, orderedIds[n]);
        assert p.Some?;
        var j :| 0 <= j < |group| && group[j] == p.value;
        assert IdsOf(group)[j] == IdsOf(group)[k];
      }
    }
  }
}

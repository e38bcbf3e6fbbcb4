/** The ids that imports give in src/sandbox/backend.ts, over the history of a profile
    list: imports append under an id built from the list's length, saves replace or
    append, deletes remove. */
module ImportIds {
  import opened Prelude
  import opened Text
  import opened SandboxTypes

  datatype ImportKind = ShareLink | SubscriptionLink | ConfigBatch {
    function Text(): string {
      match this case ShareLink => "link" case SubscriptionLink => "subscription" case ConfigBatch => "import"
    }
  }

  /** The id of an import into a list of `n` profiles. */
  function ImportId(kind: ImportKind, n: nat): string {
    kind.Text() + "-" + Numeral(n)
  }

  lemma ImportIdText(kind: ImportKind, n: nat)
    ensures ImportId(kind, n) ==
            (if kind == ShareLink then "link-" else if kind == SubscriptionLink then "subscription-" else "import-")
            + Numeral(n)
  {
    hide Numeral;
    assert kind.Text() + "-" == if kind == ShareLink then "link-" else if kind == SubscriptionLink then "subscription-"
                                else "import-";
  }

  lemma ImportIdInjective(kind: ImportKind, m: nat, other: ImportKind, n: nat)
    ensures ImportId(kind, m) == ImportId(other, n) <==> kind == other && m == n
  {
    hide Numeral;
    var a, b := ImportId(kind, m), ImportId(other, n);
    assert a[0] == kind.Text()[0] && b[0] == other.Text()[0];
    if a == b {
      var stem := kind.Text() + "-";
      assert a[|stem|..] == Numeral(m) && b[|stem|..] == Numeral(n);
      assert Decimal(Numeral(m)) == m && Decimal(Numeral(n)) == n;
    }
  }

  // ----- histories ------------------------------------------------------

  datatype Change = Import(kind: ImportKind, profile: Profile) | Store(profile: Profile) | Drop(id: string)

  function Changed(profiles: seq<Profile>, c: Change): seq<Profile> {
    match c
    case Import(kind, p) => profiles + [p.(id := ImportId(kind, |profiles|))]
    case Store(p) => Remove(profiles, p.id) + [p]
    case Drop(id) => Remove(profiles, id)
  }

  ghost predicate History(lists: seq<seq<Profile>>, changes: seq<Change>) {
    |lists| == |changes| + 1 && forall k :: 0 <= k < |changes| ==> lists[k + 1] == Changed(lists[k], changes[k])
  }

  ghost predicate Has(profiles: seq<Profile>, id: string) {
    exists i :: 0 <= i < |profiles| && profiles[i].id == id
  }

  /** The change puts a profile with the id into the list. */
  predicate Makes(profiles: seq<Profile>, c: Change, id: string) {
    match c
    case Import(kind, _) => id == ImportId(kind, |profiles|)
    case Store(p) => id == p.id
    case Drop(_) => false
  }

  /** From change `from` up to state `n` no change deletes the id. */
  ghost predicate Undropped(changes: seq<Change>, from: nat, n: nat, id: string) {
    forall k :: from <= k < n && k < |changes| ==> changes[k] != Drop(id)
  }

  /** The change at `j` made a profile with the id, and it still stands in state `n`. */
  ghost predicate StandsSince(lists: seq<seq<Profile>>, changes: seq<Change>, j: int, n: nat, id: string) {
    0 <= j < n && j < |changes| && j < |lists| && Makes(lists[j], changes[j], id) && Undropped(changes, j + 1, n, id)
  }

  lemma HasAppended(profiles: seq<Profile>, p: Profile, id: string)
    ensures Has(profiles + [p], id) <==> Has(profiles, id) || p.id == id
  {
    var all := profiles + [p];
    assert all[|profiles|] == p;
    if i :| 0 <= i < |profiles| && profiles[i].id == id { assert all[i].id == id; }
  }

  lemma {:induction false} HasRemoved(profiles: seq<Profile>, gone: string, id: string)
    ensures Has(Remove(profiles, gone), id) <==> Has(profiles, id) && id != gone
    decreases |profiles|
  {
    if profiles != [] {
      HasRemoved(profiles[1..], gone, id);
      HasFirst(profiles, id);
      if profiles[0].id != gone {
        var r := Remove(profiles, gone);
        assert r[1..] == Remove(profiles[1..], gone);
        HasFirst(r, id);
      }
    }
  }

  lemma HasFirst(profiles: seq<Profile>, id: string)
    requires profiles != []
    ensures Has(profiles, id) <==> profiles[0].id == id || Has(profiles[1..], id)
  {
    if i :| 0 <= i < |profiles| && profiles[i].id == id {
      if i > 0 { assert profiles[1..][i - 1].id == id; }
    }
    if i :| 0 <= i < |profiles[1..]| && profiles[1..][i].id == id { assert profiles[i + 1].id == id; }
  }

  lemma HasChanged(profiles: seq<Profile>, c: Change, id: string)
    ensures Has(Changed(profiles, c), id) <==> Makes(profiles, c, id) || (Has(profiles, id) && c != Drop(id))
  {
    hide Has, ImportId;
    match c
    case Import(kind, p) => HasAppended(profiles, p.(id := ImportId(kind, |profiles|)), id);
    case Store(p) =>
      HasRemoved(profiles, p.id, id);
      HasAppended(Remove(profiles, p.id), p, id);
    case Drop(gone) => HasRemoved(profiles, gone, id);
  }

  /** An id stands in a list exactly when it stood at the start or some change made it, and
      no delete came since. */
  lemma {:induction false} StandsExactly(lists: seq<seq<Profile>>, changes: seq<Change>, n: nat, id: string)
    requires History(lists, changes) && n <= |changes|
    ensures Has(lists[n], id) <==>
            (Has(lists[0], id) && Undropped(changes, 0, n, id))
            || exists j :: StandsSince(lists, changes, j, n, id)
    decreases n
  {
    hide Has, Changed, Makes;
    if n > 0 {
      var m: nat := n - 1;
      StandsExactly(lists, changes, m, id);
      HasChanged(lists[m], changes[m], id);
      if Makes(lists[m], changes[m], id) {
        assert StandsSince(lists, changes, m, n, id);
      }
      if j :| StandsSince(lists, changes, j, m, id) {
        assert changes[m] != Drop(id) ==> StandsSince(lists, changes, j, n, id);
      }
      if j :| StandsSince(lists, changes, j, n, id) {
        assert changes[m] != Drop(id) || j == m;
        assert j < m ==> StandsSince(lists, changes, j, m, id);
      }
    }
  }

  /** An import of the kind, made when the list had its present length, still stands. */
  ghost predicate EarlierImportStands(lists: seq<seq<Profile>>, changes: seq<Change>, n: nat, kind: ImportKind, j: int)
    requires |lists| == |changes| + 1 && n <= |changes|
  {
    0 <= j < n && changes[j].Import? && changes[j].kind == kind && |lists[j]| == |lists[n]|
    && Undropped(changes, j + 1, n, ImportId(kind, |lists[n]|))
  }

  /** A save under the id that the next import would get still stands. */
  ghost predicate SaveStands(changes: seq<Change>, n: nat, id: string, j: int) {
    0 <= j < n && j < |changes| && changes[j].Store? && changes[j].profile.id == id && Undropped(changes, j + 1, n, id)
  }

  /** In every history of imports, saves and deletes, the next import of a kind gets a new
      id exactly when no import of that kind made at the list's present length, no save
      under that id and no such profile of the first list still stands. */
  lemma NextImportIsNew(lists: seq<seq<Profile>>, changes: seq<Change>, n: nat, kind: ImportKind)
    requires History(lists, changes) && n <= |changes|
    ensures var id := ImportId(kind, |lists[n]|);
            !Has(lists[n], id) <==>
            !(Has(lists[0], id) && Undropped(changes, 0, n, id))
            && (forall j :: !EarlierImportStands(lists, changes, n, kind, j))
            && forall j :: !SaveStands(changes, n, id, j)
  {
    hide Has, Changed, ImportId, Undropped;
    var id := ImportId(kind, |lists[n]|);
    StandsExactly(lists, changes, n, id);
    forall j ensures StandsSince(lists, changes, j, n, id) <==>
                       EarlierImportStands(lists, changes, n, kind, j) || SaveStands(changes, n, id, j)
    {
      if 0 <= j < n && changes[j].Import? {
        ImportIdInjective(kind, |lists[n]|, changes[j].kind, |lists[j]|);
      }
    }
  }

  // ----- without deletes ------------------------------------------------

  /** Every id of the import shape has a number below the list's length. */
  ghost predicate Below(profiles: seq<Profile>) {
    forall kind, m: nat :: Has(profiles, ImportId(kind, m)) ==> m < |profiles|
  }

  /** An import, or a save of a profile that exists or whose id has not the import shape. */
  ghost predicate Harmless(profiles: seq<Profile>, c: Change) {
    c.Import? || (c.Store? && (Has(profiles, c.profile.id) || forall kind, m: nat :: c.profile.id != ImportId(kind, m)))
  }

  lemma HarmlessKeeps(profiles: seq<Profile>, c: Change)
    requires DistinctIds(profiles) && Below(profiles) && Harmless(profiles, c)
    ensures DistinctIds(Changed(profiles, c)) && Below(Changed(profiles, c))
  {
    hide ImportId, Has;
    var after := Changed(profiles, c);
    match c
    case Import(kind, p) =>
      NewLast(profiles, p.(id := ImportId(kind, |profiles|)));
      forall k, m: nat | Has(after, ImportId(k, m)) ensures m < |after| {
        HasChanged(profiles, c, ImportId(k, m));
        ImportIdInjective(k, m, kind, |profiles|);
      }
    case Store(p) =>
      RemoveDistinct(profiles, p.id);
      HasRemoved(profiles, p.id, p.id);
      NewLast(Remove(profiles, p.id), p);
      StoredLength(profiles, p.id);
      forall k, m: nat | Has(after, ImportId(k, m)) ensures m < |after| {
        HasChanged(profiles, c, ImportId(k, m));
      }
  }

  lemma NewLast(profiles: seq<Profile>, p: Profile)
    requires DistinctIds(profiles) && !Has(profiles, p.id)
    ensures DistinctIds(profiles + [p])
  {
  }

  lemma StoredLength(profiles: seq<Profile>, id: string)
    requires DistinctIds(profiles)
    ensures |Remove(profiles, id)| == if Has(profiles, id) then |profiles| - 1 else |profiles|
  {
    hide Remove;
    if Has(profiles, id) {
      var i :| 0 <= i < |profiles| && profiles[i].id == id;
      RemoveOne(profiles, i);
    } else {
      assert forall i :: 0 <= i < |profiles| ==> profiles[i].id != id;
      RemoveNone(profiles, id);
    }
  }

  /** Without a delete, import ids never repeat: from a list of distinct ids in which those
      of the import shape lie below its length, every later list has distinct ids and the
      next import of any kind gets a new one. */
  lemma {:induction false} NoDeleteNoRepeat(lists: seq<seq<Profile>>, changes: seq<Change>, n: nat)
    requires History(lists, changes) && n <= |changes| && DistinctIds(lists[0]) && Below(lists[0])
    requires forall k :: 0 <= k < n ==> Harmless(lists[k], changes[k])
    ensures DistinctIds(lists[n]) && Below(lists[n])
    ensures forall kind :: !Has(lists[n], ImportId(kind, |lists[n]|))
    decreases n
  {
    hide Has, Changed, ImportId, DistinctIds, Harmless;
    if n > 0 {
      NoDeleteNoRepeat(lists, changes, n - 1);
      HarmlessKeeps(lists[n - 1], changes[n - 1]);
    }
  }

  // ----- with deletes ---------------------------------------------------

  /** Import ids repeat: importing, deleting another profile and importing again gives
      the first import's id, for every list with a profile to delete. */
  lemma ImportIdsRepeat(kind: ImportKind, profiles: seq<Profile>, imported: Profile, gone: string)
    requires imported.id == ImportId(kind, |profiles|)
    requires DistinctIds(profiles + [imported]) && Has(profiles, gone)
    ensures var left := Changed(Changed(profiles, Import(kind, imported)), Drop(gone));
            imported in left && Makes(left, Import(kind, imported), imported.id)
  {
    hide ImportId, Remove, DistinctIds;
    var all := profiles + [imported];
    assert imported.(id := ImportId(kind, |profiles|)) == imported;
    var i :| 0 <= i < |profiles| && profiles[i].id == gone;
    assert all[i].id == gone;
    RemoveOne(all, i);
    LastSurvives(profiles, imported, i);
  }

  lemma LastSurvives(profiles: seq<Profile>, last: Profile, i: nat)
    requires i < |profiles|
    ensures var all := profiles + [last];
            |all[..i] + all[i + 1..]| == |profiles| && last in all[..i] + all[i + 1..]
  {
    var all := profiles + [last];
    var left := all[..i] + all[i + 1..];
    assert left[|profiles| - 1] == last;
  }
}

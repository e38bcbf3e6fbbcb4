/** Route ownership of src-tauri/src/route_runtime.rs in its local form over the policy
    manager of crates/core/src/policy.rs, with the full cleanup of
    src-tauri/src/lifecycle.rs: the host's route table, ownership in memory, a stored
    document, and operations on each that may fail. */
module RouteOwnership {
  import opened Prelude
  import opened Text

  datatype Route = Route(destination: string, interfaceIndex: nat, metric: nat, gateway: Option<string>)

  /** Which routes each profile owns. */
  type Owned = map<string, seq<Route>>

  /** Ownership in memory, the document on disk, and the routes that stand in the host
      table because they were added here and not removed since. */
  datatype Ledger = Ledger(owned: Owned, stored: Owned, installed: set<Route>)

  datatype Error = AlreadyOwned | NotOwned | PlanFailed | AddFailed | RemoveFailed
                 | PersistFailed | PersistFailedTwice | RollbackFailed

  /** Whether the executor refuses the call for the route at a position. */
  type Refusals = nat -> bool

  // ----- the document ---------------------------------------------------

  datatype Entry = Entry(profileId: string, routes: seq<Route>)
  type Document = seq<Entry>

  predicate Blank(id: string) {
    Trim(id) == ""
  }

  lemma BlankExactly(id: string)
    ensures Blank(id) <==> forall i :: 0 <= i < |id| ==> IsSpace(id[i])
  {
    hide Trim, IsSpace;
    BlankTrim(id);
    assert forall i :: 0 <= i < |id| ==> id[i] in id;
  }

  function Contents(doc: Document): Owned {
    if doc == [] then map[]
    else Contents(doc[..|doc| - 1])[doc[|doc| - 1].profileId := doc[|doc| - 1].routes]
  }

  ghost predicate UniqueOwners(doc: Document) {
    forall i, j :: 0 <= i < j < |doc| ==> doc[i].profileId != doc[j].profileId
  }

  ghost predicate NoBlankOwner(doc: Document) {
    forall i :: 0 <= i < |doc| ==> !Blank(doc[i].profileId)
  }

  /** What a start reads: blank and repeated owners make the document unusable. */
  ghost function Restored(doc: Document): Option<Owned> {
    if UniqueOwners(doc) && NoBlankOwner(doc) then Some(Contents(doc)) else None
  }

  function OwnerOf(e: Entry): string { e.profileId }

  ghost predicate Names(doc: Document, id: string) {
    exists i :: 0 <= i < |doc| && doc[i].profileId == id
  }

  /** Every entry of the document gives an owner's routes. */
  ghost predicate EntriesOf(doc: Document, owned: Owned) {
    forall i :: 0 <= i < |doc| ==> doc[i].profileId in owned && doc[i].routes == owned[doc[i].profileId]
  }

  /** The document is what a save of `owned` writes: one entry for each owner, by id. */
  ghost predicate Writes(doc: Document, owned: Owned) {
    && UniqueOwners(doc) && SortedBy(doc, OwnerOf)
    && EntriesOf(doc, owned) && (forall id :: id in owned ==> Names(doc, id))
  }

  lemma {:induction false} ContentsExact(doc: Document)
    requires UniqueOwners(doc)
    ensures forall i :: 0 <= i < |doc| ==>
              doc[i].profileId in Contents(doc) && Contents(doc)[doc[i].profileId] == doc[i].routes
    ensures forall id :: id in Contents(doc) ==> exists i :: 0 <= i < |doc| && doc[i].profileId == id
    decreases |doc|
  {
    if doc != [] {
      var front := doc[..|doc| - 1];
      ContentsExact(front);
      forall id | id in Contents(doc) ensures exists i :: 0 <= i < |doc| && doc[i].profileId == id {
        if id == doc[|doc| - 1].profileId {
          assert doc[|doc| - 1].profileId == id;
        } else {
          var i :| 0 <= i < |front| && front[i].profileId == id;
          assert doc[i].profileId == id;
        }
      }
    }
  }

  /** A saved document holds the ownership it was made from, and a start reads it back
      exactly when no owner is blank. */
  lemma SavedReadsBack(doc: Document, owned: Owned)
    requires Writes(doc, owned)
    ensures Contents(doc) == owned
    ensures Restored(doc) == Some(owned) <==> forall id :: id in owned ==> !Blank(id)
  {
    hide Blank, SortedBy;
    ContentsExact(doc);
    assert forall id :: id in owned ==> Names(doc, id);
    forall id ensures id in Contents(doc) <==> id in owned {
      if id in owned { var i :| 0 <= i < |doc| && doc[i].profileId == id; }
    }
    forall id | id in owned ensures Contents(doc)[id] == owned[id] {
      var i :| 0 <= i < |doc| && doc[i].profileId == id;
    }
    assert Contents(doc) == owned;
    if NoBlankOwner(doc) {
      forall id | id in owned ensures !Blank(id) {
        var i :| 0 <= i < |doc| && doc[i].profileId == id;
      }
    }
  }

  /** One more entry keeps a document readable exactly when its owner is new and not blank. */
  lemma OneMoreEntry(front: Document, e: Entry)
    ensures UniqueOwners(front + [e]) <==> UniqueOwners(front) && !Names(front, e.profileId)
    ensures NoBlankOwner(front + [e]) <==> NoBlankOwner(front) && !Blank(e.profileId)
    ensures Contents(front + [e]) == Contents(front)[e.profileId := e.routes]
  {
    hide Blank;
    var doc := front + [e];
    assert doc[..|front|] == front && doc[|front|] == e;
    assert forall i :: 0 <= i < |front| ==> doc[i] == front[i];
  }

  lemma ReadablePrefix(doc: Document, k: nat)
    requires k <= |doc| && UniqueOwners(doc) && NoBlankOwner(doc)
    ensures UniqueOwners(doc[..k]) && NoBlankOwner(doc[..k])
  {
    hide Blank;
  }

  lemma NamedInContents(doc: Document, id: string)
    requires UniqueOwners(doc)
    ensures id in Contents(doc) <==> Names(doc, id)
  {
    ContentsExact(doc);
  }

  method Restore(doc: Document) returns (r: Option<Owned>)
    ensures r == Restored(doc)
  {
    hide Blank, Contents, UniqueOwners, NoBlankOwner, Names;
    var applied: Owned := map[];
    EmptyDocument(doc[..0]);
    for k := 0 to |doc|
      invariant applied == Contents(doc[..k])
      invariant UniqueOwners(doc[..k]) && NoBlankOwner(doc[..k])
    {
      var entry := doc[k];
      assert doc[..k + 1] == doc[..k] + [entry];
      OneMoreEntry(doc[..k], entry);
      NamedInContents(doc[..k], entry.profileId);
      if Blank(entry.profileId) || entry.profileId in applied {
        if UniqueOwners(doc) && NoBlankOwner(doc) { ReadablePrefix(doc, k + 1); }
        return None;
      }
      applied := applied[entry.profileId := entry.routes];
    }
    assert doc[..|doc|] == doc;
    r := Some(applied);
  }

  lemma EmptyDocument(doc: Document)
    requires doc == []
    ensures UniqueOwners(doc) && NoBlankOwner(doc) && Contents(doc) == map[]
  {
  }

  // ----- the host table -------------------------------------------------

  /** Routes whose removal was refused, in removal order: last route first. */
  function Failed(routes: seq<Route>, refused: Refusals): (r: seq<Route>)
    ensures forall i :: 0 <= i < |r| ==> r[i] in routes
  {
    if routes == [] then []
    else
      var n := |routes| - 1;
      (if refused(n) then [routes[n]] else []) + Failed(routes[..n], refused)
  }

  /** The table after trying to remove the routes, last first. */
  function Unremoved(installed: set<Route>, routes: seq<Route>, refused: Refusals): set<Route> {
    if routes == [] then installed
    else
      var n := |routes| - 1;
      Unremoved(if refused(n) then installed else installed - {routes[n]}, routes[..n], refused)
  }

  lemma NothingToRemove(installed: set<Route>, refused: Refusals)
    ensures Failed([], refused) == [] && Unremoved(installed, [], refused) == installed
  {
  }

  lemma NextRemoval(installed: set<Route>, routes: seq<Route>, k: nat, refused: Refusals)
    requires k < |routes|
    ensures Failed(routes[..k + 1], refused) ==
            (if refused(k) then [routes[k]] else []) + Failed(routes[..k], refused)
    ensures Unremoved(installed, routes[..k + 1], refused) ==
            Unremoved(if refused(k) then installed else installed - {routes[k]}, routes[..k], refused)
  {
    assert routes[..k + 1][..k] == routes[..k];
  }

  ghost predicate SomeRefused(routes: seq<Route>, refused: Refusals, r: Route) {
    exists k :: 0 <= k < |routes| && routes[k] == r && refused(k)
  }

  ghost predicate AllRefused(routes: seq<Route>, refused: Refusals, r: Route) {
    forall k :: 0 <= k < |routes| && routes[k] == r ==> refused(k)
  }

  lemma RefusedLast(front: seq<Route>, last: Route, refused: Refusals, r: Route)
    ensures SomeRefused(front + [last], refused, r) <==>
            SomeRefused(front, refused, r) || (last == r && refused(|front|))
    ensures AllRefused(front + [last], refused, r) <==>
            AllRefused(front, refused, r) && (last == r ==> refused(|front|))
  {
    var routes := front + [last];
    assert forall k :: 0 <= k < |front| ==> routes[k] == front[k];
    assert routes[|front|] == last;
  }

  lemma {:induction false} FailedExact(routes: seq<Route>, refused: Refusals, r: Route)
    ensures r in Failed(routes, refused) <==> SomeRefused(routes, refused, r)
    decreases |routes|
  {
    hide SomeRefused;
    if routes == [] {
      NoneRefused(refused, r);
    } else {
      var n := |routes| - 1;
      FailedExact(routes[..n], refused, r);
      assert routes == routes[..n] + [routes[n]];
      RefusedLast(routes[..n], routes[n], refused, r);
    }
  }

  lemma NoneRefused(refused: Refusals, r: Route)
    ensures !SomeRefused([], refused, r) && AllRefused([], refused, r)
  {
  }

  /** A route survives a best-effort removal exactly when every attempt on it was refused. */
  lemma {:induction false} UnremovedExact(installed: set<Route>, routes: seq<Route>, refused: Refusals, r: Route)
    ensures r in Unremoved(installed, routes, refused) <==> r in installed && AllRefused(routes, refused, r)
    decreases |routes|
  {
    hide AllRefused;
    if routes == [] {
      NoneRefused(refused, r);
    } else {
      var n := |routes| - 1;
      UnremovedExact(if refused(n) then installed else installed - {routes[n]}, routes[..n], refused, r);
      assert routes == routes[..n] + [routes[n]];
      RefusedLast(routes[..n], routes[n], refused, r);
    }
  }

  /** The first position up to `n` whose addition is refused, or `n`. */
  function FirstRefused(n: nat, refused: Refusals): (k: nat)
    ensures k <= n && (k < n ==> refused(k)) && forall j :: 0 <= j < k ==> !refused(j)
  {
    if n == 0 then 0
    else
      var k := FirstRefused(n - 1, refused);
      if k < n - 1 || refused(n - 1) then k else n
  }

  // ----- what the operations do -----------------------------------------

  function Removed(w: Ledger, id: string, refused: Refusals, saveOk: bool): (Ledger, Result<(), Error>) {
    if id !in w.owned then (w, Err(NotOwned))
    else
      var host := Unremoved(w.installed, w.owned[id], refused);
      var failed := Failed(w.owned[id], refused);
      if failed != [] then (Ledger(w.owned[id := failed], w.stored, host), Err(RemoveFailed))
      else
        var left := w.owned - {id};
        if saveOk then (Ledger(left, left, host), Ok(())) else (Ledger(left, w.stored, host), Err(PersistFailed))
  }

  /** What the executor and the disk answer during one apply: additions, their undoing,
      the save, and the rollback of a failed save with its own save. */
  datatype Luck = Luck(add: Refusals, undo: Refusals, save: bool, rollback: Refusals, resave: bool)

  /** `plan` is what route planning yields for the profile, `None` when it fails. */
  function Applied(w: Ledger, id: string, plan: Option<seq<Route>>, luck: Luck): (Ledger, Result<seq<Route>, Error>) {
    if id in w.owned then (w, Err(AlreadyOwned))
    else if plan.None? then (w, Err(PlanFailed))
    else
      var routes := plan.value;
      var added := FirstRefused(|routes|, luck.add);
      var host := w.installed + Elements(routes[..added]);
      if added < |routes| then (w.(installed := Unremoved(host, routes[..added], luck.undo)), Err(AddFailed))
      else
        var held := w.owned[id := routes];
        if luck.save then (Ledger(held, held, host), Ok(routes))
        else
          var undone := Removed(Ledger(held, w.stored, host), id, luck.rollback, luck.resave);
          (undone.0, Err(match undone.1
                         case Ok(_) => PersistFailed
                         case Err(PersistFailed) => PersistFailedTwice
                         case Err(_) => RollbackFailed))
  }

  // ----- what runs keep -------------------------------------------------

  datatype Command =
    | Apply(id: string, plan: Option<seq<Route>>, luck: Luck)
    | Remove(id: string, refused: Refusals, saveOk: bool)
    | Restart

  /** The state after a command, and whether it answered Ok. A restart reads the document;
      one with a blank owner is refused and the process does not come up, which is written
      as a step that changes nothing. */
  function Step(w: Ledger, cmd: Command): (Ledger, bool) {
    match cmd
    case Apply(id, plan, luck) => var r := Applied(w, id, plan, luck); (r.0, r.1.Ok?)
    case Remove(id, refused, saveOk) => var r := Removed(w, id, refused, saveOk); (r.0, r.1.Ok?)
    case Restart =>
      if exists id :: id in w.stored && Blank(id) then (w, false)
      else (Ledger(w.stored, w.stored, w.installed), true)
  }

  predicate Holds(owned: Owned, id: string, r: Route) {
    id in owned && r in owned[id]
  }

  ghost predicate Claims(owned: Owned, r: Route) {
    exists id :: Holds(owned, id, r)
  }

  /** Every route owned in memory stands in the document's entry for its owner. */
  ghost predicate Backed(w: Ledger) {
    forall id, r :: Holds(w.owned, id, r) ==> Holds(w.stored, id, r)
  }

  /** Every installed route is owned in memory by some profile. */
  ghost predicate Tracked(w: Ledger) {
    forall r :: r in w.installed ==> Claims(w.owned, r)
  }

  ghost predicate Sound(w: Ledger) {
    Backed(w) && Tracked(w)
  }

  /** The apply whose save failed and whose own rollback was refused a route that the
      document does not hold for the profile. */
  ghost predicate StuckRollback(w: Ledger, cmd: Command) {
    cmd.Apply? && cmd.id !in w.owned && cmd.plan.Some? && !cmd.luck.save
    && FirstRefused(|cmd.plan.value|, cmd.luck.add) == |cmd.plan.value|
    && exists k :: 0 <= k < |cmd.plan.value| && cmd.luck.rollback(k)
                   && !Holds(w.stored, cmd.id, cmd.plan.value[k])
  }

  /** The apply that was refused an addition and then every undoing of an added route
      that no profile owns: the policy manager drops the list of such routes. */
  ghost predicate ForgottenRoute(w: Ledger, cmd: Command) {
    cmd.Apply? && cmd.id !in w.owned && cmd.plan.Some? &&
    var routes, added := cmd.plan.value, FirstRefused(|cmd.plan.value|, cmd.luck.add);
    added < |routes| &&
    exists j :: 0 <= j < added && !Claims(w.owned, routes[j]) && AllRefused(routes[..added], cmd.luck.undo, routes[j])
  }

  /** An Ok answer leaves the stored document equal to the ownership in memory. */
  lemma OkMeansStored(w: Ledger, cmd: Command)
    ensures Step(w, cmd).1 ==> Step(w, cmd).0.stored == Step(w, cmd).0.owned
  {
    hide Unremoved, Failed, FirstRefused, Blank;
  }

  /** Removing a profile keeps memory within the document and the table within memory. */
  lemma RemoveKeepsSound(w: Ledger, id: string, refused: Refusals, saveOk: bool)
    ensures Backed(w) ==> Backed(Removed(w, id, refused, saveOk).0)
    ensures Tracked(w) ==> Tracked(Removed(w, id, refused, saveOk).0)
  {
    hide Unremoved, Failed, Claims;
    var t := Removed(w, id, refused, saveOk).0;
    assert forall x, r :: Holds(t.owned, x, r) ==> Holds(w.owned, x, r);
    if id in w.owned && Tracked(w) {
      forall r | r in t.installed ensures Claims(t.owned, r) {
        UnremovedExact(w.installed, w.owned[id], refused, r);
        FailedExact(w.owned[id], refused, r);
        ClaimKept(w, id, refused, r, t.owned);
      }
    }
  }

  lemma ClaimKept(w: Ledger, id: string, refused: Refusals, r: Route, left: Owned)
    requires id in w.owned && Claims(w.owned, r) && AllRefused(w.owned[id], refused, r)
    requires r in Failed(w.owned[id], refused) <==> SomeRefused(w.owned[id], refused, r)
    requires Failed(w.owned[id], refused) == [] ==> left == w.owned - {id}
    requires Failed(w.owned[id], refused) != [] ==> left == w.owned[id := Failed(w.owned[id], refused)]
    ensures Claims(left, r)
  {
    hide Failed;
    var x :| Holds(w.owned, x, r);
    if x == id {
      var k :| 0 <= k < |w.owned[id]| && w.owned[id][k] == r;
      assert SomeRefused(w.owned[id], refused, r);
    }
    assert Holds(left, x, r);
  }

  /** From a backed state, a command leaves owned routes unrecorded exactly when its
      rollback was refused a route that the document does not hold. */
  lemma BackedExactly(w: Ledger, cmd: Command)
    requires Backed(w)
    ensures Backed(Step(w, cmd).0) <==> !StuckRollback(w, cmd)
  {
    hide Unremoved, Failed, FirstRefused, Blank;
    match cmd
    case Apply(id, plan, luck) =>
      if id !in w.owned && plan.Some? && FirstRefused(|plan.value|, luck.add) == |plan.value| && !luck.save {
        var routes := plan.value;
        var t := Step(w, cmd).0;
        forall r ensures r in Failed(routes, luck.rollback) <==> SomeRefused(routes, luck.rollback, r) {
          FailedExact(routes, luck.rollback, r);
        }
        assert forall x, r :: x != id ==> (Holds(t.owned, x, r) <==> Holds(w.owned, x, r));
        assert forall r :: Holds(t.owned, id, r) <==> SomeRefused(routes, luck.rollback, r);
        if StuckRollback(w, cmd) {
          var k :| 0 <= k < |routes| && luck.rollback(k) && !Holds(w.stored, id, routes[k]);
          assert SomeRefused(routes, luck.rollback, routes[k]);
          assert Holds(t.owned, id, routes[k]);
        }
      }
    case Remove(id, refused, saveOk) => RemoveKeepsSound(w, id, refused, saveOk);
    case Restart =>
  }

  lemma ApplyHeld(w: Ledger, id: string, routes: seq<Route>, stored: Owned)
    requires Tracked(w) && id !in w.owned
    ensures Tracked(Ledger(w.owned[id := routes], stored, w.installed + Elements(routes)))
  {
    var held := w.owned[id := routes];
    forall r | r in w.installed + Elements(routes) ensures Claims(held, r) {
      if r in routes {
        assert Holds(held, id, r);
      } else {
        var x :| Holds(w.owned, x, r);
        assert Holds(held, x, r);
      }
    }
  }

  lemma ApplyUndone(w: Ledger, added: seq<Route>, undo: Refusals)
    requires Tracked(w)
    ensures Tracked(w.(installed := Unremoved(w.installed + Elements(added), added, undo))) <==>
            forall j :: 0 <= j < |added| ==> Claims(w.owned, added[j]) || !AllRefused(added, undo, added[j])
  {
    hide Claims, Unremoved, AllRefused;
    var host := w.installed + Elements(added);
    forall r ensures r in Unremoved(host, added, undo) <==> r in host && AllRefused(added, undo, r) {
      UnremovedExact(host, added, undo, r);
    }
  }

  /** The restart reads a document that does not hold some installed route. */
  ghost predicate LostByRestart(w: Ledger, cmd: Command) {
    cmd.Restart? && (forall id :: id in w.stored ==> !Blank(id))
    && exists r :: r in w.installed && !Claims(w.stored, r)
  }

  /** From a tracked state, a command leaves an installed route that no profile owns exactly
      when it is an apply that forgets one or a restart that loses one. */
  lemma TrackedExactly(w: Ledger, cmd: Command)
    requires Tracked(w)
    ensures Tracked(Step(w, cmd).0) <==> !ForgottenRoute(w, cmd) && !LostByRestart(w, cmd)
  {
    hide Unremoved, Failed, FirstRefused, Blank, Claims, AllRefused;
    match cmd
    case Apply(id, plan, luck) =>
      if id !in w.owned && plan.Some? {
        var routes, added := plan.value, FirstRefused(|plan.value|, luck.add);
        if added < |routes| {
          ApplyUndone(w, routes[..added], luck.undo);
          assert forall j :: 0 <= j < added ==> routes[..added][j] == routes[j];
        } else {
          assert routes[..added] == routes;
          ApplyHeld(w, id, routes, w.stored);
          ApplyHeld(w, id, routes, w.owned[id := routes]);
          var held := Ledger(w.owned[id := routes], w.stored, w.installed + Elements(routes));
          RemoveKeepsSound(held, id, luck.rollback, luck.resave);
        }
      }
    case Remove(id, refused, saveOk) => RemoveKeepsSound(w, id, refused, saveOk);
    case Restart =>
  }

  lemma RecordedClaim(w: Ledger, r: Route)
    requires Backed(w) && Claims(w.owned, r)
    ensures Claims(w.stored, r)
  {
    var id :| Holds(w.owned, id, r);
    assert Holds(w.stored, id, r);
  }

  ghost predicate Run(states: seq<Ledger>, cmds: seq<Command>) {
    |states| == |cmds| + 1 && forall k :: 0 <= k < |cmds| ==> states[k + 1] == Step(states[k], cmds[k]).0
  }

  /** Some command since the last Ok answer got stuck in its rollback. */
  ghost predicate StuckSinceOk(states: seq<Ledger>, cmds: seq<Command>, n: nat)
    requires |states| == |cmds| + 1 && n <= |cmds|
  {
    exists k :: 0 <= k < n && StuckRollback(states[k], cmds[k])
                && forall j :: k <= j < n ==> !Step(states[j], cmds[j]).1
  }

  /** In every run from a backed state, owned routes are missing from the document only if
      a rollback's own removal was refused and no command has answered Ok since. */
  lemma {:induction false} MissingOnlyAfterStuck(states: seq<Ledger>, cmds: seq<Command>, n: nat)
    requires Run(states, cmds) && Backed(states[0]) && n <= |cmds|
    ensures !Backed(states[n]) ==> StuckSinceOk(states, cmds, n)
    decreases n
  {
    hide Step, StuckRollback;
    if n > 0 && !Backed(states[n]) {
      var w, cmd := states[n - 1], cmds[n - 1];
      OkMeansStored(w, cmd);
      assert !Step(w, cmd).1;
      if Backed(w) {
        BackedExactly(w, cmd);
        assert StuckRollback(states[n - 1], cmds[n - 1]);
      } else {
        MissingOnlyAfterStuck(states, cmds, n - 1);
        var k :| 0 <= k < n - 1 && StuckRollback(states[k], cmds[k])
                 && forall j :: k <= j < n - 1 ==> !Step(states[j], cmds[j]).1;
        assert StuckRollback(states[k], cmds[k]);
      }
    }
  }

  /** A restart loses a route only from a state that is not backed. */
  lemma LossNeedsGap(w: Ledger, cmd: Command)
    requires Tracked(w) && LostByRestart(w, cmd)
    ensures !Backed(w)
  {
    hide Claims;
    var r :| r in w.installed && !Claims(w.stored, r);
    if Backed(w) { RecordedClaim(w, r); }
  }

  /** The command at `k` is the cause of an installed route that nobody owns: an apply that
      forgot it, or a restart that lost it after a stuck rollback with no Ok answer since. */
  ghost predicate Orphans(states: seq<Ledger>, cmds: seq<Command>, k: int)
    requires |states| == |cmds| + 1
  {
    0 <= k < |cmds| && (ForgottenRoute(states[k], cmds[k])
                        || (LostByRestart(states[k], cmds[k]) && StuckSinceOk(states, cmds, k)))
  }

  /** In every run from a sound state, an installed route is owned by nobody only after one
      of the two causes. */
  lemma {:induction false} OrphanOnlyAfterCause(states: seq<Ledger>, cmds: seq<Command>, n: nat)
    requires Run(states, cmds) && Sound(states[0]) && n <= |cmds|
    ensures !Tracked(states[n]) ==> exists k :: k < n && Orphans(states, cmds, k)
    decreases n
  {
    hide Step, StuckRollback, ForgottenRoute, LostByRestart, StuckSinceOk, Backed, Tracked;
    if n > 0 && !Tracked(states[n]) {
      var m: nat := n - 1;
      OrphanOnlyAfterCause(states, cmds, m);
      if Tracked(states[m]) {
        TrackedExactly(states[m], cmds[m]);
        if LostByRestart(states[m], cmds[m]) {
          LossNeedsGap(states[m], cmds[m]);
          MissingOnlyAfterStuck(states, cmds, m);
        }
        assert Orphans(states, cmds, m);
      }
    }
  }

  /** No command of the run up to `n` got stuck or forgot a route. */
  ghost predicate Clean(states: seq<Ledger>, cmds: seq<Command>, n: nat)
    requires |states| == |cmds| + 1 && n <= |cmds|
  {
    forall k :: 0 <= k < n ==> !StuckRollback(states[k], cmds[k]) && !ForgottenRoute(states[k], cmds[k])
  }

  /** In every run from a sound state without such a command, whatever else fails, every
      installed route is owned in memory and recorded in the document, so that a restart
      and a cleanup can still reach it. */
  lemma {:induction false} InstalledIsRecorded(states: seq<Ledger>, cmds: seq<Command>, n: nat)
    requires Run(states, cmds) && Sound(states[0]) && n <= |cmds| && Clean(states, cmds, n)
    ensures Sound(states[n])
    ensures forall r :: r in states[n].installed ==> Claims(states[n].stored, r)
    decreases n
  {
    hide Step, StuckRollback, ForgottenRoute, LostByRestart, Backed, Tracked, Claims;
    if n > 0 {
      InstalledIsRecorded(states, cmds, n - 1);
      BackedExactly(states[n - 1], cmds[n - 1]);
      TrackedExactly(states[n - 1], cmds[n - 1]);
      if LostByRestart(states[n - 1], cmds[n - 1]) { LossNeedsGap(states[n - 1], cmds[n - 1]); }
    }
    SoundRecorded(states[n]);
  }

  lemma SoundRecorded(w: Ledger)
    requires Sound(w)
    ensures forall r :: r in w.installed ==> Claims(w.stored, r)
  {
    hide Claims;
    forall r | r in w.installed ensures Claims(w.stored, r) { RecordedClaim(w, r); }
  }

  const EMPTY: Ledger := Ledger(map[], map[], {})

  /** The list of routes that could not be undone is dropped: an apply of two routes that
      is refused the second and then the undoing of the first leaves the first installed,
      owned by nobody. */
  lemma ForgottenRouteReachable(id: string, first: Route, second: Route, luck: Luck)
    requires !luck.add(0) && luck.add(1) && luck.undo(0)
    ensures Step(EMPTY, Apply(id, Some([first, second]), luck)) == (EMPTY.(installed := {first}), false)
  {
    var routes := [first, second];
    assert FirstRefused(0, luck.add) == 0 && FirstRefused(1, luck.add) == 1 && FirstRefused(2, luck.add) == 1;
    assert routes[..1] == [first] && Elements([first]) == {first};
    assert [first][..0] == [];
    assert Unremoved({first}, [first], luck.undo) == {first};
    assert EMPTY.installed + {first} == {first};
  }

  /** A stuck rollback and a restart together lose a route: the apply fails to save and to
      roll back, so the route is owned in memory alone, and the restart reads a document
      that never held it. */
  lemma StuckRouteLost(id: string, route: Route, luck: Luck)
    requires !luck.add(0) && !luck.save && luck.rollback(0)
    ensures var stuck := Step(EMPTY, Apply(id, Some([route]), luck)).0;
            stuck == Ledger(map[id := [route]], map[], {route})
            && Step(stuck, Restart).0 == EMPTY.(installed := {route})
            && !ForgottenRoute(EMPTY, Apply(id, Some([route]), luck)) && LostByRestart(stuck, Restart)
  {
    hide Blank;
    var routes := [route];
    assert routes[..0] == [] && routes[..1] == routes && Elements(routes) == {route};
    assert FirstRefused(0, luck.add) == 0 && FirstRefused(1, luck.add) == 1;
    assert Failed([], luck.rollback) == [] && Failed(routes, luck.rollback) == [route];
    assert Unremoved({route}, routes, luck.rollback) == {route};
    assert EMPTY.installed + {route} == {route};
    var held: Owned := EMPTY.owned[id := routes];
    assert held == map[id := routes] && held[id := [route]] == held;
  }

  /** A partial removal that fails leaves memory and the document different, yet backed:
      memory keeps exactly the routes that are still installed. */
  lemma PartialRemovalKeepsFailed(id: string, first: Route, second: Route, refused: Refusals, saveOk: bool)
    requires first != second && !refused(0) && refused(1)
    ensures var held := map[id := [first, second]];
            Step(Ledger(held, held, {first, second}), Remove(id, refused, saveOk)) ==
            (Ledger(map[id := [second]], held, {second}), false)
  {
    var routes := [first, second];
    assert routes[..1] == [first] && [first][..0] == [];
    assert Failed([], refused) == [] && Failed([first], refused) == [];
    assert Failed(routes, refused) == [second] + Failed([first], refused);
    assert Unremoved({first, second}, routes, refused) == Unremoved({first, second}, [first], refused) == {second};
    var held: Owned := map[id := routes];
    assert id in held && held[id] == routes && Failed(held[id], refused) == [second];
    assert held[id := [second]] == map[id := [second]];
  }

  /** A cleanup may answer Ok and leave a stale document: when memory owns nothing, it
      removes nothing and so saves nothing. Such a state is reachable. */
  lemma StaleDocumentReachable(id: string, routes: seq<Route>, luck: Luck, refused: Refusals)
    requires luck.save && (forall k :: !luck.add(k)) && (forall k :: !refused(k))
    ensures exists states: seq<Ledger>, cmds: seq<Command> ::
              Run(states, cmds) && states[0] == EMPTY
              && states[|cmds|].owned == map[] && states[|cmds|].stored == map[id := routes]
  {
    hide Unremoved;
    var held: Owned := map[id := routes];
    var cmds := [Apply(id, Some(routes), luck), Remove(id, refused, false)];
    var s1 := Step(EMPTY, cmds[0]).0;
    var s2 := Step(s1, cmds[1]).0;
    assert FirstRefused(|routes|, luck.add) == |routes|;
    assert s1.owned == held && s1.stored == held;
    if Failed(routes, refused) != [] {
      FailedExact(routes, refused, Failed(routes, refused)[0]);
    }
    assert held - {id} == map[];
    var states := [EMPTY, s1, s2];
    assert Run(states, cmds);
  }

  // ----- the runtime ----------------------------------------------------

  /** Ownership once the removal of every id in `tried` was attempted: what was refused. */
  function Left(owned: Owned, tried: set<string>, refused: string -> Refusals): Owned {
    map id | id in owned && (id !in tried || Failed(owned[id], refused(id)) != []) ::
      if id in tried then Failed(owned[id], refused(id)) else owned[id]
  }

  /** Every removal and every save of the cleanup succeeds. */
  ghost predicate Removable(owned: Owned, refused: string -> Refusals, saveOk: string -> bool) {
    forall id :: id in owned ==> Failed(owned[id], refused(id)) == [] && saveOk(id)
  }

  lemma EmptyOwners(ids: seq<string>, owned: Owned)
    requires forall id :: id in ids <==> id in owned
    ensures ids == [] <==> owned == map[]
  {
    if ids != [] { assert ids[0] in owned; }
    if ids == [] { assert owned.Keys == {}; }
  }

  lemma LeftStep(owned: Owned, tried: set<string>, id: string, refused: string -> Refusals)
    requires id in owned && id !in tried
    ensures id in Left(owned, tried, refused) && Left(owned, tried, refused)[id] == owned[id]
    ensures Left(owned, tried + {id}, refused) ==
            if Failed(owned[id], refused(id)) == [] then Left(owned, tried, refused) - {id}
            else Left(owned, tried, refused)[id := Failed(owned[id], refused(id))]
  {
    hide Failed;
  }

  lemma LeftNone(owned: Owned, tried: set<string>, refused: string -> Refusals)
    requires tried == {}
    ensures Left(owned, tried, refused) == owned
  {
    hide Failed;
  }

  class RouteRuntime {
    var policies: Owned
    var document: Document
    var tunnels: set<string>
    ghost var installed: set<Route>

    ghost function State(): Ledger
      reads this
    {
      Ledger(policies, Contents(document), installed)
    }

    /** Start from the stored document, when it can be read. */
    constructor (document: Document, running: set<string>, ghost host: set<Route>)
      requires Restored(document).Some?
      ensures State() == Ledger(Contents(document), Contents(document), host) && tunnels == running
    {
      var read := Restore(document);
      policies := read.value;
      this.document, tunnels, installed := document, running, host;
    }

    /** The ownership as a document: one entry for each owner, ordered by id. */
    method Snapshot() returns (doc: Document)
      ensures Writes(doc, policies)
    {
      var entries: Document := [];
      var left := policies.Keys;
      while left != {}
        invariant left <= policies.Keys && UniqueOwners(entries) && EntriesOf(entries, policies)
        invariant forall i :: 0 <= i < |entries| ==> entries[i].profileId !in left
        invariant forall id :: id in policies ==> id in left || Names(entries, id)
        decreases left
      {
        var id :| id in left;
        ghost var before := entries;
        entries := entries + [Entry(id, policies[id])];
        left := left - {id};
        assert entries[|before|].profileId == id;
        forall x | Names(before, x) ensures Names(entries, x) {
          var i :| 0 <= i < |before| && before[i].profileId == x;
          assert entries[i].profileId == x;
        }
      }
      doc := SortBy(entries, OwnerOf);
      SortedWrites(entries, policies);
    }

    /** A save that succeeds leaves a document whose owners are exactly those in memory,
        and which the next start reads as this ownership unless an owner is blank. */
    method Persist(ok: bool) returns (saved: bool)
      modifies this`document
      ensures saved == ok
      ensures saved ==> Contents(document) == policies
      ensures saved && (forall id :: id in policies ==> !Blank(id)) ==> Restored(document) == Some(policies)
      ensures !saved ==> document == old(document)
    {
      hide Blank;
      var doc := Snapshot();
      SavedReadsBack(doc, policies);
      saved := ok;
      if ok { document := doc; }
    }

    /** Remove the routes in reverse order, going on past refusals. */
    method RemoveRoutes(routes: seq<Route>, refused: Refusals) returns (failed: seq<Route>)
      modifies this`installed
      ensures failed == Failed(routes, refused)
      ensures installed == Unremoved(old(installed), routes, refused)
    {
      hide Failed, Unremoved;
      failed := [];
      var k := |routes|;
      assert routes[..k] == routes;
      while k > 0
        invariant 0 <= k <= |routes|
        invariant failed + Failed(routes[..k], refused) == Failed(routes, refused)
        invariant Unremoved(installed, routes[..k], refused) == Unremoved(old(installed), routes, refused)
      {
        k := k - 1;
        NextRemoval(installed, routes, k, refused);
        ghost var rest := Failed(routes[..k], refused);
        if refused(k) {
          assert failed + ([routes[k]] + rest) == (failed + [routes[k]]) + rest;
          failed := failed + [routes[k]];
        } else {
          assert [] + rest == rest;
          installed := installed - {routes[k]};
        }
      }
      assert routes[..0] == [];
      NothingToRemove(installed, refused);
    }

    /** Add the routes in order; at the first refusal remove those already added. `still`
        is `None` when all were added, otherwise what could not be removed again. */
    method AddRoutes(routes: seq<Route>, add: Refusals, undo: Refusals) returns (still: Option<seq<Route>>)
      modifies this`installed
      ensures var added := FirstRefused(|routes|, add);
              if added == |routes| then still.None? && installed == old(installed) + Elements(routes)
              else still == Some(Failed(routes[..added], undo))
                   && installed == Unremoved(old(installed) + Elements(routes[..added]), routes[..added], undo)
    {
      hide Unremoved, Failed, FirstRefused;
      for k := 0 to |routes|
        invariant forall j :: 0 <= j < k ==> !add(j)
        invariant installed == old(installed) + Elements(routes[..k])
      {
        if add(k) {
          assert FirstRefused(|routes|, add) == k;
          var failed := RemoveRoutes(routes[..k], undo);
          return Some(failed);
        }
        installed := installed + {routes[k]};
        assert routes[..k + 1] == routes[..k] + [routes[k]];
      }
      assert routes[..|routes|] == routes;
      still := None;
    }

    method RemoveProfile(id: string, refused: Refusals, saveOk: bool) returns (r: Result<(), Error>)
      modifies this`policies, this`document, this`installed
      ensures (State(), r) == Removed(old(State()), id, refused, saveOk)
    {
      hide Unremoved, Failed, Contents;
      if id !in policies { return Err(NotOwned); }
      var failed := RemoveRoutes(policies[id], refused);
      if failed != [] {
        policies := policies[id := failed];
        return Err(RemoveFailed);
      }
      policies := policies - {id};
      var saved := Persist(saveOk);
      r := if saved then Ok(()) else Err(PersistFailed);
    }

    method ApplyProfile(id: string, plan: Option<seq<Route>>, luck: Luck) returns (r: Result<seq<Route>, Error>)
      modifies this`policies, this`document, this`installed
      ensures (State(), r) == Applied(old(State()), id, plan, luck)
    {
      hide Unremoved, Failed, Contents, FirstRefused, Removed;
      if id in policies { return Err(AlreadyOwned); }
      if plan.None? { return Err(PlanFailed); }
      var routes := plan.value;
      assert routes[..|routes|] == routes;
      var still := AddRoutes(routes, luck.add, luck.undo);
      if still.Some? { return Err(AddFailed); }
      policies := policies[id := routes];
      var saved := Persist(luck.save);
      if !saved {
        var cleanup := RemoveProfile(id, luck.rollback, luck.resave);
        return Err(match cleanup
                   case Ok(_) => PersistFailed
                   case Err(PersistFailed) => PersistFailedTwice
                   case Err(_) => RollbackFailed);
      }
      r := Ok(routes);
    }

    method AppliedProfileIds() returns (ids: seq<string>)
      ensures Distinct(ids) && forall id :: id in ids <==> id in policies
    {
      var doc := Snapshot();
      ids := seq(|doc|, i requires 0 <= i < |doc| => doc[i].profileId);
      forall id | id in policies ensures id in ids {
        assert Names(doc, id);
        var i :| 0 <= i < |doc| && doc[i].profileId == id;
        assert ids[i] == id;
      }
    }

    /** Restore the proxy, remove every owned route set, stop every running tunnel of a
        known profile, going on after failures. `refused`, `saveOk` and `stopOk` are what
        the executor, the disk and the tunnels answer for each id. */
    method CleanupAll(profiles: Option<seq<string>>, proxyOk: bool, refused: string -> Refusals,
                      saveOk: string -> bool, stopOk: string -> bool)
      returns (r: Result<(), nat>, removals: seq<string>, stops: seq<string>)
      modifies this
      ensures profiles.None? ==> r.Err? && State() == old(State()) && tunnels == old(tunnels)
      ensures profiles.Some? ==> Distinct(removals) && forall id :: id in removals <==> id in old(policies)
      ensures profiles.Some? ==> forall p :: p in stops <==> p in profiles.value && p in old(tunnels)
      ensures profiles.Some? ==> policies == Left(old(policies), old(policies).Keys, refused)
      ensures profiles.Some? ==>
                tunnels == old(tunnels) - (set p | p in profiles.value && p in old(tunnels) && stopOk(p))
      ensures r.Ok? <==> profiles.Some? && proxyOk && Removable(old(policies), refused, saveOk)
                         && (forall p :: p in profiles.value && p in old(tunnels) ==> stopOk(p))
      ensures Backed(old(State())) ==> Backed(State())
      ensures Tracked(old(State())) ==> Tracked(State())
      ensures r.Ok? ==> policies == map[] && forall p :: p in profiles.value ==> p !in tunnels
      ensures r.Ok? ==> (Contents(document) == map[] <==> old(policies) != map[] || Contents(old(document)) == map[])
      ensures r.Ok? && Tracked(old(State())) ==> installed == {}
    {
      hide Failed, Contents, Backed;
      removals, stops := [], [];
      if profiles.None? { return Err(1), removals, stops; }
      var errors := 0;
      if !proxyOk { errors := errors + 1; }
      removals := AppliedProfileIds();
      errors := RemoveEach(removals, refused, saveOk, errors);
      ghost var routeErrors, after := errors, State();
      for k := 0 to |profiles.value|
        invariant errors >= routeErrors && State() == after
        invariant forall p :: p in stops <==> p in profiles.value[..k] && p in old(tunnels)
        invariant tunnels == old(tunnels) - (set p | p in profiles.value[..k] && p in old(tunnels) && stopOk(p))
        invariant errors == routeErrors <==> forall p :: p in profiles.value[..k] && p in old(tunnels) ==> stopOk(p)
      {
        var p := profiles.value[k];
        assert profiles.value[..k + 1] == profiles.value[..k] + [p];
        if p in tunnels {
          stops := stops + [p];
          if stopOk(p) { tunnels := tunnels - {p}; } else { errors := errors + 1; }
        }
      }
      assert profiles.value[..|profiles.value|] == profiles.value;
      r := if errors == 0 then Ok(()) else Err(errors);
      assert removals == [] <==> old(policies) == map[] by { EmptyOwners(removals, old(policies)); }
    }

    method RemoveEach(ids: seq<string>, refused: string -> Refusals, saveOk: string -> bool, before: nat)
      returns (errors: nat)
      requires Distinct(ids) && forall id :: id in ids <==> id in policies
      modifies this`policies, this`document, this`installed
      ensures policies == Left(old(policies), old(policies).Keys, refused)
      ensures errors >= before
      ensures errors == before <==> Removable(old(policies), refused, saveOk)
      ensures errors == before && ids != [] ==> Contents(document) == policies
      ensures ids == [] ==> document == old(document)
      ensures Backed(old(State())) ==> Backed(State())
      ensures Tracked(old(State())) ==> Tracked(State())
    {
      hide Left, Failed, Contents, Backed, Tracked, Unremoved;
      errors := before;
      LeftNone(policies, Elements(ids[..0]), refused);
      for k := 0 to |ids|
        invariant policies == Left(old(policies), Elements(ids[..k]), refused)
        invariant errors >= before
        invariant errors == before <==>
                  forall j :: 0 <= j < k ==> Failed(old(policies)[ids[j]], refused(ids[j])) == [] && saveOk(ids[j])
        invariant errors == before && k > 0 ==> Contents(document) == policies
        invariant k == 0 ==> document == old(document)
        invariant Backed(old(State())) ==> Backed(State())
        invariant Tracked(old(State())) ==> Tracked(State())
      {
        var id := ids[k];
        assert ids[..k + 1] == ids[..k] + [id];
        assert Elements(ids[..k + 1]) == Elements(ids[..k]) + {id};
        LeftStep(old(policies), Elements(ids[..k]), id, refused);
        RemoveKeepsSound(State(), id, refused(id), saveOk(id));
        var removed := RemoveProfile(id, refused(id), saveOk(id));
        if removed.Err? { errors := errors + 1; }
      }
      assert ids[..|ids|] == ids;
      assert Elements(ids) == old(policies).Keys;
    }
  }

  lemma SortedWrites(entries: Document, owned: Owned)
    requires UniqueOwners(entries) && EntriesOf(entries, owned) && forall id :: id in owned ==> Names(entries, id)
    ensures Writes(SortBy(entries, OwnerOf), owned)
  {
    hide SortBy, SortedBy, Names, UniqueOwners;
    var doc := SortBy(entries, OwnerOf);
    SortBySorted(entries, OwnerOf);
    SameEntries(doc, entries);
    UniqueRearranged(entries, doc);
    forall id | id in owned ensures Names(doc, id) {
      NamesRearranged(entries, doc, id);
    }
  }

  lemma UniqueRearranged(entries: Document, doc: Document)
    requires UniqueOwners(entries) && multiset(entries) == multiset(doc)
    ensures UniqueOwners(doc)
  {
    assert Distinct(entries);
    DistinctRearranged(entries, doc);
    SameEntries(doc, entries);
    forall i, j | 0 <= i < j < |doc| ensures doc[i].profileId != doc[j].profileId {
      assert doc[i] != doc[j] && doc[i] in entries && doc[j] in entries;
      var a :| 0 <= a < |entries| && entries[a] == doc[i];
      var b :| 0 <= b < |entries| && entries[b] == doc[j];
      assert a != b;
    }
  }

  lemma NamesRearranged(entries: Document, doc: Document, id: string)
    requires Names(entries, id) && multiset(entries) == multiset(doc)
    ensures Names(doc, id)
  {
    SameEntries(entries, doc);
    var a :| 0 <= a < |entries| && entries[a].profileId == id;
    var i :| 0 <= i < |doc| && doc[i] == entries[a];
    assert doc[i].profileId == id;
  }

  lemma SameEntries(a: Document, b: Document)
    requires multiset(a) == multiset(b)
    ensures forall i :: 0 <= i < |a| ==> a[i] in b
  {
    forall i | 0 <= i < |a| ensures a[i] in b {
      assert a[i] in multiset(a);
      assert a[i] in multiset(b);
    }
  }
}

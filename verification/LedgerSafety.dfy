/**
 What no crash can break.

 A run is any sequence of operations, one at a time, each cut after any
 number of effects. In every run a Ready row whose volume is missing belongs
 to a VM that some reconcile pass has already found dead. So if a VM id
 never comes back once a pass has found it dead, every Ready row of a live
 VM has its volume.
 */
module LedgerSafety {
  import opened Naming
  import opened Ledger

  /** Each row names its volume after its disk, and no disk has two rows. */
  ghost predicate WellFormed(s: Store) {
    && (forall id :: id in s.rows ==> s.rows[id].lv == LvName(s.rows[id].key))
    && (forall a, b :: a in s.rows && b in s.rows && s.rows[a].key == s.rows[b].key ==> a == b)
  }

  /** Disk uniqueness already makes volumes unique, because names are injective. */
  lemma VolumesAreUnique(s: Store, a: string, b: string)
    requires WellFormed(s) && a in s.rows && b in s.rows
    requires s.rows[a].Volume() == s.rows[b].Volume()
    ensures a == b
  {
    LvNameInjective(s.rows[a].key, s.rows[b].key);
  }

  /** A Ready row without its volume belongs to a VM in `gone`. */
  ghost predicate Backed(s: Store, gone: set<string>) {
    forall id :: id in s.rows && s.rows[id].state == Ready && s.rows[id].key.vm !in gone ==>
      s.rows[id].Volume() in s.volumes
  }

  /** No row is in a state the operations do not write. */
  ghost predicate Known(s: Store) {
    forall id :: id in s.rows ==> s.rows[id].state != Unknown
  }

  ghost predicate Safe(s: Store, gone: set<string>) {
    WellFormed(s) && Backed(s, gone) && Known(s)
  }

  // --- One effect ---

  /** The condition under which an effect keeps `Safe`. */
  ghost predicate Allowed(s: Store, gone: set<string>, e: Effect) {
    match e
    case InsertRow(id, row) =>
      && row.lv == LvName(row.key) && row.state != Unknown
      && (forall a :: a in s.rows && a != id ==> s.rows[a].key != row.key)
      && (row.state == Ready ==> row.Volume() in s.volumes)
    case SetState(id, st) => st != Unknown && (id in s.rows && st == Ready ==> s.rows[id].Volume() in s.volumes)
    case DeleteRow(id) => true
    case CreateVolume(v) => true
    case RemoveVolume(v) =>
      forall id :: id in s.rows && s.rows[id].Volume() == v ==> s.rows[id].state != Ready || s.rows[id].key.vm in gone
  }

  lemma AllowedKeepsSafe(s: Store, gone: set<string>, e: Effect)
    requires Safe(s, gone) && Allowed(s, gone, e)
    ensures Safe(Do(s, e), gone)
  {
    var t := Do(s, e);
    if e.InsertRow? || e.SetState? {
      forall id | id in t.rows && id != e.id ensures id in s.rows && t.rows[id] == s.rows[id] {
      }
    }
  }

  /** Every effect of `es` is allowed in the state its predecessors leave. */
  ghost predicate AllAllowed(s: Store, gone: set<string>, es: seq<Effect>)
    decreases |es|
  {
    es == [] || (Allowed(s, gone, es[0]) && AllAllowed(Do(s, es[0]), gone, es[1..]))
  }

  lemma {:induction false} CutIsSafe(s: Store, gone: set<string>, es: seq<Effect>, n: nat)
    requires Safe(s, gone) && AllAllowed(s, gone, es)
    ensures Safe(DoAll(s, Cut(es, n)), gone)
    decreases |es|
  {
    if es != [] && n > 0 {
      AllowedKeepsSafe(s, gone, es[0]);
      CutIsSafe(Do(s, es[0]), gone, es[1..], n - 1);
      assert Cut(es, n)[1..] == Cut(es[1..], n - 1);
    }
  }

  lemma {:induction false} AllAllowedAppend(s: Store, gone: set<string>, a: seq<Effect>, b: seq<Effect>)
    requires AllAllowed(s, gone, a) && AllAllowed(DoAll(s, a), gone, b)
    ensures AllAllowed(s, gone, a + b)
    decreases |a|
  {
    if a == [] {
      assert a + b == b;
    } else {
      assert (a + b)[1..] == a[1..] + b;
      AllAllowedAppend(Do(s, a[0]), gone, a[1..], b);
    }
  }

  // --- Allocate ---

  lemma {:induction false} AllocateAllowed(s: Store, gone: set<string>, pool: Pool, req: Request)
    requires Safe(s, gone)
    ensures AllAllowed(s, gone, AllocateEffects(s, pool, req))
  {
    if req.id in s.rows && s.rows[req.id].state == Ready {
    } else {
      var drop := DropLeftover(s, req);
      var s1 := DoAll(s, drop);
      assert s1.rows == s.rows - {req.id} && s1.volumes == s.volumes by {
        DoAllShort(s, DeleteRow(req.id), DeleteRow(req.id));
        if req.id !in s.rows { assert s.rows - {req.id} == s.rows; }
      }
      assert AllAllowed(s, gone, drop) by {
        if req.id in s.rows { assert drop[1..] == []; }
      }
      if !Refused(s, pool, req) {
        assert Safe(s1, gone);
        CreateAllowed(s1, gone, pool, req);
        assert CreateEffects(s1, pool, req) == CreateEffects(s, pool, req);
        AllAllowedAppend(s, gone, drop, CreateEffects(s, pool, req));
      }
    }
  }

  lemma {:induction false} CreateAllowed(s: Store, gone: set<string>, pool: Pool, req: Request)
    requires Safe(s, gone) && req.id !in s.rows && req.device in pool.vgs
    requires !HeldByAnother(s, req.id, req.key)
    ensures AllAllowed(s, gone, CreateEffects(s, pool, req))
  {
    var row := NewRow(pool, req);
    var s1 := Do(s, InsertRow(req.id, row));
    AllowedKeepsSafe(s, gone, InsertRow(req.id, row));
    var sweep := if row.Volume() in s.volumes then [RemoveVolume(row.Volume())] else [];
    var s2 := DoAll(s1, sweep);
    assert s2 == s1.(volumes := s1.volumes - {row.Volume()}) by {
      DoAllShort(s1, RemoveVolume(row.Volume()), RemoveVolume(row.Volume()));
      if sweep == [] { assert s1.volumes - {row.Volume()} == s1.volumes; }
    }
    assert AllAllowed(s1, gone, sweep) by {
      forall id | id in s1.rows && s1.rows[id].Volume() == row.Volume()
        ensures s1.rows[id].state != Ready
      {
        VolumesAreUnique(s1, id, req.id);
      }
      if sweep != [] { assert sweep[1..] == []; }
    }
    var tail := [CreateVolume(row.Volume()), SetState(req.id, Ready)];
    assert AllAllowed(s2, gone, tail) by {
      assert tail[1..] == [SetState(req.id, Ready)];
      assert tail[1..][1..] == [];
    }
    AllAllowedAppend(s1, gone, sweep, tail);
    assert CreateEffects(s, pool, req) == [InsertRow(req.id, row)] + (sweep + tail);
    assert CreateEffects(s, pool, req)[1..] == sweep + tail;
  }

  // --- Release ---

  lemma {:induction false} MarkAllowed(s: Store, gone: set<string>, order: seq<string>)
    ensures AllAllowed(s, gone, MarkEffects(order))
    ensures DoAll(s, MarkEffects(order)).volumes == s.volumes
    ensures DoAll(s, MarkEffects(order)).rows ==
      map id | id in s.rows :: if id in order then s.rows[id].(state := Deleting) else s.rows[id]
    decreases |order|
  {
    if order != [] {
      var es := MarkEffects(order);
      assert es[1..] == MarkEffects(order[1..]);
      MarkAllowed(Do(s, es[0]), gone, order[1..]);
    } else {
      assert s.rows == map id | id in s.rows :: s.rows[id];
    }
  }

  lemma {:induction false} DropAllowed(rows: map<string, Row>, s: Store, gone: set<string>, order: seq<string>)
    requires Safe(s, gone) && forall id <- order :: id in rows
    requires forall i, j :: 0 <= i < j < |order| ==> order[i] != order[j]
    requires forall id <- order :: id in s.rows && s.rows[id] == rows[id].(state := Deleting)
    ensures AllAllowed(s, gone, DropEffects(rows, order))
    decreases |order|
  {
    if order != [] {
      var id := order[0];
      var es := DropEffects(rows, order);
      var rest := DropEffects(rows, order[1..]);
      var v := rows[id].Volume();
      forall other | other in s.rows && s.rows[other].Volume() == v
        ensures s.rows[other].state != Ready
      {
        VolumesAreUnique(s, other, id);
      }
      assert es[1..] == [DeleteRow(id)] + rest && es[1..][1..] == rest;
      var s1 := Do(s, es[0]);
      AllowedKeepsSafe(s, gone, es[0]);
      AllowedKeepsSafe(s1, gone, es[1]);
      DropAllowed(rows, Do(s1, es[1]), gone, order[1..]);
    }
  }

  lemma {:induction false} ReleaseAllowed(s: Store, gone: set<string>, pool: string, vm: string, order: seq<string>)
    requires Safe(s, gone) && Lists(order, RowsOf(s, pool, vm))
    ensures AllAllowed(s, gone, ReleaseEffects(s, order))
  {
    MarkAllowed(s, gone, order);
    var s1 := DoAll(s, MarkEffects(order));
    assert Safe(s1, gone);
    DropAllowed(s.rows, s1, gone, order);
    AllAllowedAppend(s, gone, MarkEffects(order), DropEffects(s.rows, order));
  }

  // --- Reconcile ---

  /** VMs with a ledger row that a pass with this live set finds dead. */
  function FoundDead(s: Store, live: set<string>): set<string> {
    set id | id in s.rows && s.rows[id].key.vm !in live :: s.rows[id].key.vm
  }

  /** Every VM with a row is live or already among those found dead. */
  ghost predicate DeadAreGone(s: Store, live: set<string>, gone: set<string>) {
    forall id :: id in s.rows ==> s.rows[id].key.vm in live || s.rows[id].key.vm in gone
  }

  /** `t` has the rows of `s` but for `id`, which is gone or has changed its state only. */
  ghost predicate OnlyTouches(s: Store, t: Store, id: string) {
    && t.rows.Keys <= s.rows.Keys
    && (forall other :: other in s.rows && other != id ==> other in t.rows && t.rows[other] == s.rows[other])
    && (id in s.rows && id in t.rows ==> t.rows[id].key == s.rows[id].key)
  }

  lemma {:induction false} SettleAllowed(rows: map<string, Row>, s: Store, gone: set<string>, live: set<string>,
                                         order: seq<string>)
    requires Safe(s, gone) && DeadAreGone(s, live, gone)
    requires forall i, j :: 0 <= i < j < |order| ==> order[i] != order[j]
    requires forall id <- order :: id in rows && id in s.rows && s.rows[id] == rows[id]
    ensures var es := SettleEffects(rows, s, live, order);
      AllAllowed(s, gone, es) && Safe(DoAll(s, es), gone) && DeadAreGone(DoAll(s, es), live, gone)
    decreases |order|
  {
    if order != [] {
      var id := order[0];
      var row := rows[id];
      var es := RowEffects(id, row, row.Volume() in s.volumes, row.key.vm in live);
      RowAllowed(s, gone, live, id);
      var s1 := DoAll(s, es);
      forall a | a in order[1..] ensures a in s1.rows && s1.rows[a] == rows[a] {
        assert a in order && a != id;
      }
      SettleAllowed(rows, s1, gone, live, order[1..]);
      AllAllowedAppend(s, gone, es, SettleEffects(rows, s1, live, order[1..]));
      DoAllAppend(s, es, SettleEffects(rows, s1, live, order[1..]));
    }
  }

  /** Settling one row touches that row and at most its own volume. */
  lemma {:induction false} RowAllowed(s: Store, gone: set<string>, live: set<string>, id: string)
    requires Safe(s, gone) && id in s.rows && DeadAreGone(s, live, gone)
    ensures var row := s.rows[id];
      var es := RowEffects(id, row, row.Volume() in s.volumes, row.key.vm in live);
      var s1 := DoAll(s, es);
      AllAllowed(s, gone, es) && Safe(s1, gone) && OnlyTouches(s, s1, id) && DeadAreGone(s1, live, gone)
  {
    var row := s.rows[id];
    var es := RowEffects(id, row, row.Volume() in s.volumes, row.key.vm in live);
    forall other | other in s.rows && s.rows[other].Volume() == row.Volume() ensures other == id {
      VolumesAreUnique(s, other, id);
    }
    if |es| == 1 {
      assert es == [es[0]] && es[1..] == [];
      DoAllShort(s, es[0], es[0]);
      AllowedKeepsSafe(s, gone, es[0]);
    } else if |es| == 2 {
      assert es == [es[0], es[1]] && es[1..] == [es[1]] && es[1..][1..] == [];
      DoAllShort(s, es[0], es[1]);
      AllowedKeepsSafe(s, gone, es[0]);
      AllowedKeepsSafe(Do(s, es[0]), gone, es[1]);
    }
  }

  lemma {:induction false} SweepAllowed(claimed: set<Volume>, s: Store, gone: set<string>, live: set<string>,
                                        listing: seq<Volume>)
    requires Safe(s, gone) && DeadAreGone(s, live, gone)
    ensures AllAllowed(s, gone, SweepEffects(claimed, live, listing))
    decreases |listing|
  {
    if listing != [] {
      var v := listing[0];
      var es := SweepEffects(claimed, live, listing);
      var rest := SweepEffects(claimed, live, listing[1..]);
      if Orphan(claimed, live, v) {
        forall id | id in s.rows && s.rows[id].Volume() == v ensures s.rows[id].key.vm in gone {
          ParseOfPrintedName(s.rows[id].key);
        }
        assert es[0] == RemoveVolume(v) && es[1..] == rest;
        AllowedKeepsSafe(s, gone, es[0]);
        SweepAllowed(claimed, Do(s, es[0]), gone, live, listing[1..]);
      } else {
        assert es == rest;
        SweepAllowed(claimed, s, gone, live, listing[1..]);
      }
    }
  }

  lemma {:induction false} ReconcileAllowed(s: Store, gone: set<string>, pool: Pool, live: set<string>,
                                            order: seq<string>, listing: seq<Volume>)
    requires Safe(s, gone) && Lists(order, RowsOfPool(s, pool.name))
    requires FoundDead(s, live) <= gone
    ensures AllAllowed(s, gone, ReconcileEffects(s, pool, live, order, listing))
  {
    forall id | id in s.rows ensures s.rows[id].key.vm in live || s.rows[id].key.vm in gone {
      assert s.rows[id].key.vm in live || s.rows[id].key.vm in FoundDead(s, live);
    }
    SettleAllowed(s.rows, s, gone, live, order);
    var settle := SettleEffects(s.rows, s, live, order);
    SweepAllowed(Claimed(s, pool.name), DoAll(s, settle), gone, live, listing);
    AllAllowedAppend(s, gone, settle, SweepEffects(Claimed(s, pool.name), live, listing));
  }

  // --- Runs ---

  datatype Op =
    | Allocate(pool: Pool, req: Request)
    | Release(name: string, vm: string, ids: seq<string>)
    | Reconcile(pool: Pool, live: set<string>, order: seq<string>, listing: seq<Volume>)

  /** An operation that stopped after `upto` effects; a large `upto` is one that finished. */
  datatype Event = Event(op: Op, upto: nat)

  /** The row and volume listings an operation works from are those of the store it runs on. */
  ghost predicate Runnable(s: Store, op: Op) {
    match op
    case Allocate(_, _) => true
    case Release(name, vm, ids) => Lists(ids, RowsOf(s, name, vm))
    case Reconcile(pool, live, order, listing) => PassInputs(s, pool, live, order, listing)
  }

  ghost function Effects(s: Store, op: Op): seq<Effect>
    requires Runnable(s, op)
  {
    match op
    case Allocate(pool, req) => AllocateEffects(s, pool, req)
    case Release(_, _, ids) => ReleaseEffects(s, ids)
    case Reconcile(pool, live, order, listing) => ReconcileEffects(s, pool, live, order, listing)
  }

  /** VMs some pass has found dead, updated by one event. */
  ghost function GoneAfter(s: Store, gone: set<string>, op: Op): set<string> {
    if op.Reconcile? then gone + FoundDead(s, op.live) else gone
  }

  ghost predicate Run(s: Store, gone: set<string>, events: seq<Event>, t: Store, tGone: set<string>)
    decreases |events|
  {
    if events == [] then t == s && tGone == gone
    else
      && Runnable(s, events[0].op)
      && Run(DoAll(s, Cut(Effects(s, events[0].op), events[0].upto)), GoneAfter(s, gone, events[0].op),
             events[1..], t, tGone)
  }

  /** Every run keeps the ledger well formed and every Ready row backed, except for VMs found dead. */
  lemma {:induction false} RunIsSafe(s: Store, gone: set<string>, events: seq<Event>, t: Store, tGone: set<string>)
    requires Safe(s, gone) && Run(s, gone, events, t, tGone)
    ensures Safe(t, tGone)
    decreases |events|
  {
    if events != [] {
      var Event(op, upto) := events[0];
      var gone1 := GoneAfter(s, gone, op);
      assert Safe(s, gone1);
      match op {
        case Allocate(pool, req) => AllocateAllowed(s, gone1, pool, req);
        case Release(name, vm, ids) => ReleaseAllowed(s, gone1, name, vm, ids);
        case Reconcile(pool, live, order, listing) => ReconcileAllowed(s, gone1, pool, live, order, listing);
      }
      CutIsSafe(s, gone1, Effects(s, op), upto);
      RunIsSafe(DoAll(s, Cut(Effects(s, op), upto)), gone1, events[1..], t, tGone);
    }
  }

  /** From an empty host, with VM ids that never return: every Ready row of a live VM has its volume. */
  lemma {:induction false} LiveReadyRowsHaveVolumes(events: seq<Event>, t: Store, gone: set<string>,
                                                    live: set<string>, id: string)
    requires Run(Store(map[], {}), {}, events, t, gone)
    requires live !! gone
    requires id in t.rows && t.rows[id].state == Ready && t.rows[id].key.vm in live
    ensures t.rows[id].Volume() in t.volumes
  {
    RunIsSafe(Store(map[], {}), {}, events, t, gone);
  }

  /**
   The condition on returning ids is needed: a pass that finds the VM of a
   Ready row dead, and stops after its first effect, can leave that row
   Ready without its volume.
   */
  lemma {:induction false} StoppedPassLeavesRowUnbacked(s: Store, pool: Pool, live: set<string>, id: string,
                                                        order: seq<string>, listing: seq<Volume>)
    requires id in s.rows && s.rows[id].state == Ready && s.rows[id].key.vm !in live
    requires s.rows[id].Volume() in s.volumes && s.rows[id].pool == pool.name
    requires PassInputs(s, pool, live, order, listing) && order != [] && order[0] == id
    ensures var t := DoAll(s, Cut(ReconcileEffects(s, pool, live, order, listing), 1));
      id in t.rows && t.rows[id].state == Ready && t.rows[id].Volume() !in t.volumes
  {
    var row := s.rows[id];
    var es := ReconcileEffects(s, pool, live, order, listing);
    var head := RowEffects(id, row, row.Volume() in s.volumes, row.key.vm in live);
    assert head == [RemoveVolume(row.Volume()), DeleteRow(id)];
    assert SettleEffects(s.rows, s, live, order) == head + SettleEffects(s.rows, DoAll(s, head), live, order[1..]);
    assert es[0] == RemoveVolume(row.Volume());
    assert Cut(es, 1) == [es[0]];
    DoAllShort(s, es[0], es[0]);
  }

  // --- What a pass may remove ---

  /** A pass removes a volume only for a Deleting row or a dead VM. */
  ghost predicate Justified(s: Store, pool: Pool, live: set<string>, v: Volume) {
    || (exists id :: id in s.rows && s.rows[id].Volume() == v &&
                     (s.rows[id].state == Deleting || s.rows[id].key.vm !in live))
    || (ParseLvName(v.1).Some? && ParseLvName(v.1).value.vm !in live)
  }

  lemma {:induction false} SettleRemovals(rows: map<string, Row>, s: Store, live: set<string>, order: seq<string>, v: Volume)
    requires forall id <- order :: id in rows
    requires RemoveVolume(v) in SettleEffects(rows, s, live, order)
    ensures exists id :: id in rows && rows[id].Volume() == v &&
                         (rows[id].state == Deleting || rows[id].key.vm !in live)
    decreases |order|
  {
    if order != [] {
      var row := rows[order[0]];
      var es := RowEffects(order[0], row, row.Volume() in s.volumes, row.key.vm in live);
      if RemoveVolume(v) !in es {
        SettleRemovals(rows, DoAll(s, es), live, order[1..], v);
      }
    }
  }

  lemma {:induction false} SweepRemovals(claimed: set<Volume>, live: set<string>, listing: seq<Volume>, e: Effect)
    requires e in SweepEffects(claimed, live, listing)
    ensures e.RemoveVolume? && Orphan(claimed, live, e.volume)
  {
    if !(Orphan(claimed, live, listing[0]) && e == RemoveVolume(listing[0])) {
      SweepRemovals(claimed, live, listing[1..], e);
    }
  }

  lemma ReconcileRemovals(s: Store, pool: Pool, live: set<string>, order: seq<string>, listing: seq<Volume>, v: Volume)
    requires Lists(order, RowsOfPool(s, pool.name))
    requires RemoveVolume(v) in ReconcileEffects(s, pool, live, order, listing)
    ensures Justified(s, pool, live, v)
  {
    if RemoveVolume(v) in SettleEffects(s.rows, s, live, order) {
      SettleRemovals(s.rows, s, live, order, v);
    } else {
      SweepRemovals(Claimed(s, pool.name), live, listing, RemoveVolume(v));
    }
  }

  /** The effect leaves row `id` and volume `v` alone. */
  ghost predicate Spares(e: Effect, id: string, v: Volume) {
    match e
    case InsertRow(i, _) => i != id
    case SetState(i, _) => i != id
    case DeleteRow(i) => i != id
    case CreateVolume(w) => true
    case RemoveVolume(w) => w != v
  }

  lemma {:induction false} SparedByAll(s: Store, es: seq<Effect>, id: string, v: Volume)
    requires id in s.rows && v in s.volumes && forall e <- es :: Spares(e, id, v)
    ensures var t := DoAll(s, es); id in t.rows && t.rows[id] == s.rows[id] && v in t.volumes
    decreases |es|
  {
    if es != [] {
      assert es[0] in es;
      SparedByAll(Do(s, es[0]), es[1..], id, v);
    }
  }

  lemma {:induction false} SettleSpares(s: Store, cur: Store, live: set<string>, order: seq<string>, id: string, e: Effect)
    requires WellFormed(s) && forall a <- order :: a in s.rows
    requires id in s.rows && s.rows[id].state == Ready && s.rows[id].key.vm in live
    requires e in SettleEffects(s.rows, cur, live, order)
    ensures Spares(e, id, s.rows[id].Volume())
    decreases |order|
  {
    var a := order[0];
    var row := s.rows[a];
    var es := RowEffects(a, row, row.Volume() in cur.volumes, row.key.vm in live);
    if e in es {
      if row.Volume() == s.rows[id].Volume() { VolumesAreUnique(s, a, id); }
    } else {
      SettleSpares(s, DoAll(cur, es), live, order[1..], id, e);
    }
  }

  /** No pass, finished or stopped anywhere, touches a live VM's Ready row or its volume. */
  lemma {:induction false} LiveReadyRowSurvives(s: Store, pool: Pool, live: set<string>, order: seq<string>, listing: seq<Volume>,
                                                n: nat, id: string)
    requires WellFormed(s) && Lists(order, RowsOfPool(s, pool.name))
    requires id in s.rows && s.rows[id].state == Ready && s.rows[id].key.vm in live
    requires s.rows[id].Volume() in s.volumes
    ensures var t := DoAll(s, Cut(ReconcileEffects(s, pool, live, order, listing), n));
      id in t.rows && t.rows[id] == s.rows[id] && s.rows[id].Volume() in t.volumes
  {
    var v := s.rows[id].Volume();
    var es := ReconcileEffects(s, pool, live, order, listing);
    forall e | e in Cut(es, n) ensures Spares(e, id, v) {
      if e in SettleEffects(s.rows, s, live, order) {
        SettleSpares(s, s, live, order, id, e);
      } else {
        SweepRemovals(Claimed(s, pool.name), live, listing, e);
        ParseOfPrintedName(s.rows[id].key);
      }
    }
    SparedByAll(s, Cut(es, n), id, v);
  }
}

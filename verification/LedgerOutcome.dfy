/**
 What a finished operation of the ledger leaves behind, on the rows and the
 volumes themselves: an allocation its Ready row and its volume, a release
 nothing of the VM, a reconcile pass a settled pool.
 */
module LedgerOutcome {
  import opened Naming
  import opened Ledger
  import opened LedgerSafety
  import opened LedgerReconcile

  // --- Release ---

  predicate RowOf(row: Row, pool: string, vm: string) {
    row.pool == pool && row.key.vm == vm
  }

  /** The rows of the VM in the pool are gone with their volumes; every other row and volume is as it was. */
  ghost predicate Released(s: Store, t: Store, pool: string, vm: string) {
    && (forall id :: id in t.rows <==> id in s.rows && !RowOf(s.rows[id], pool, vm))
    && (forall id :: id in t.rows ==> t.rows[id] == s.rows[id])
    && (forall v :: v in t.volumes <==>
          v in s.volumes && forall id :: id in s.rows && RowOf(s.rows[id], pool, vm) ==> (s.rows[id].vg, s.rows[id].lv) != v)
  }

  lemma {:induction false} MarkLeaves(s: Store, order: seq<string>)
    ensures var t := DoAll(s, MarkEffects(order));
      && t.volumes == s.volumes && t.rows.Keys == s.rows.Keys
      && forall id :: id in s.rows ==> t.rows[id] == if id in order then s.rows[id].(state := Deleting) else s.rows[id]
    decreases |order|
  {
    if order != [] {
      var one := [SetState(order[0], Deleting)];
      DoAllAppend(s, one, MarkEffects(order[1..]));
      DoAllShort(s, one[0], one[0]);
      MarkLeaves(Do(s, one[0]), order[1..]);
      assert forall id :: id in order <==> id == order[0] || id in order[1..];
    }
  }

  lemma {:induction false} DropLeaves(rows: map<string, Row>, s: Store, order: seq<string>)
    requires forall id <- order :: id in rows
    ensures var t := DoAll(s, DropEffects(rows, order));
      && t.rows == (map id | id in s.rows && id !in order :: s.rows[id])
      && forall v :: v in t.volumes <==> v in s.volumes && forall id <- order :: rows[id].Volume() != v
    decreases |order|
  {
    if order == [] {
      assert s.rows == map id | id in s.rows :: s.rows[id];
    } else {
      var id := order[0];
      var one := [RemoveVolume(rows[id].Volume()), DeleteRow(id)];
      DoAllAppend(s, one, DropEffects(rows, order[1..]));
      DoAllShort(s, one[0], one[1]);
      DropLeaves(rows, Do(Do(s, one[0]), one[1]), order[1..]);
      assert forall x :: x in order <==> x == id || x in order[1..];
    }
  }

  /** Whatever order the query lists them in, a finished release leaves nothing of the VM in the pool, and all else. */
  lemma {:induction false} ReleaseLeaves(s: Store, pool: string, vm: string, order: seq<string>)
    requires Lists(order, RowsOf(s, pool, vm))
    ensures Released(s, DoAll(s, ReleaseEffects(s, order)), pool, vm)
  {
    var marked := DoAll(s, MarkEffects(order));
    DoAllAppend(s, MarkEffects(order), DropEffects(s.rows, order));
    MarkLeaves(s, order);
    DropLeaves(s.rows, marked, order);
    assert forall id :: id in order <==> id in s.rows && RowOf(s.rows[id], pool, vm);
  }

  // --- Allocate ---

  /** Another assignment has the disk; another row has the volume. */
  ghost predicate DiskHeld(s: Store, req: Request) {
    exists id :: id in s.rows && id != req.id && s.rows[id].key == req.key
  }

  ghost predicate VolumeHeld(s: Store, req: Request, v: Volume) {
    exists id :: id in s.rows && id != req.id && (s.rows[id].vg, s.rows[id].lv) == v
  }

  /**
   An allocation that came to its end. An assignment that is Ready answers with
   what it has and changes nothing. Otherwise its leftover row goes; it is
   refused when another assignment has the disk, when the device is not the
   pool's, or when another row has the volume; else it has a Ready row for the
   disk on the device asked for, and the volume in that device's group.
   */
  ghost predicate AllocationEnds(s: Store, t: Store, pool: Pool, req: Request, r: AllocateResult) {
    if req.id in s.rows && s.rows[req.id].state == Ready then
      r == Allocated((s.rows[req.id].vg, s.rows[req.id].lv), s.rows[req.id].size) && t == s
    else if DiskHeld(s, req) then
      r == AssignmentConflict && t == s.(rows := s.rows - {req.id})
    else if req.device !in pool.vgs then
      r == DeviceNotInPool && t == s.(rows := s.rows - {req.id})
    else
      var v := (pool.vgs[req.device], LvName(req.key));
      if VolumeHeld(s, req, v) then
        r == UniqueViolation && t == s.(rows := s.rows - {req.id})
      else
        && r == Allocated(v, req.size) && t.volumes == s.volumes + {v}
        && t.rows == s.rows[req.id := Row(pool.name, req.device, v.0, v.1, req.key, req.size, Ready)]
  }

  lemma {:induction false} DoThree(s: Store, a: Effect, b: Effect, c: Effect)
    ensures DoAll(s, [a] + [b, c]) == Do(Do(Do(s, a), b), c)
  {
    DoAllAppend(s, [a], [b, c]);
    DoAllShort(s, a, a);
    DoAllShort(Do(s, a), b, c);
  }

  function VolumeEffects(present: bool, id: string, v: Volume): seq<Effect> {
    (if present then [RemoveVolume(v)] else []) + [CreateVolume(v), SetState(id, Ready)]
  }

  lemma {:induction false} VolumeIsMade(t: Store, id: string, v: Volume)
    requires id in t.rows
    ensures DoAll(t, VolumeEffects(v in t.volumes, id, v)) ==
      Store(t.rows[id := t.rows[id].(state := Ready)], t.volumes + {v})
  {
    var make := [CreateVolume(v), SetState(id, Ready)];
    if v in t.volumes {
      DoThree(t, RemoveVolume(v), make[0], make[1]);
      assert t.volumes - {v} + {v} == t.volumes + {v};
    } else {
      assert VolumeEffects(false, id, v) == make;
      DoAllShort(t, make[0], make[1]);
    }
  }

  lemma {:induction false} RowIsMade(s: Store, id: string, row: Row)
    ensures DoAll(s, [InsertRow(id, row)] + VolumeEffects(row.Volume() in s.volumes, id, row.Volume())) ==
      Store(s.rows[id := row.(state := Ready)], s.volumes + {row.Volume()})
  {
    var insert := InsertRow(id, row);
    DoAllAppend(s, [insert], VolumeEffects(row.Volume() in s.volumes, id, row.Volume()));
    DoAllShort(s, insert, insert);
    VolumeIsMade(Do(s, insert), id, row.Volume());
    assert s.rows[id := row][id := row.(state := Ready)] == s.rows[id := row.(state := Ready)];
  }

  lemma {:induction false} CreateLeaves(s: Store, pool: Pool, req: Request)
    requires req.device in pool.vgs
    ensures DoAll(s, CreateEffects(s, pool, req)) ==
      Store(s.rows[req.id := NewRow(pool, req).(state := Ready)], s.volumes + {(pool.vgs[req.device], LvName(req.key))})
  {
    var row := NewRow(pool, req);
    RowIsMade(s, req.id, row);
    assert CreateEffects(s, pool, req) ==
      [InsertRow(req.id, row)] + VolumeEffects(row.Volume() in s.volumes, req.id, row.Volume());
  }

  lemma {:induction false} LeftoverGoes(s: Store, pool: Pool, req: Request, rest: seq<Effect>)
    ensures DoAll(s, DropLeftover(s, req) + rest) == DoAll(s.(rows := s.rows - {req.id}), rest)
  {
    DoAllAppend(s, DropLeftover(s, req), rest);
    if req.id in s.rows { DoAllShort(s, DeleteRow(req.id), DeleteRow(req.id)); } else { assert s.rows - {req.id} == s.rows; }
  }

  /** An allocation carried out to its end, with the answer it gives. */
  lemma AllocateLeaves(s: Store, pool: Pool, req: Request) returns (r: AllocateResult)
    ensures AllocationEnds(s, DoAll(s, AllocateEffects(s, pool, req)), pool, req, r)
  {
    var v := if req.device in pool.vgs then (pool.vgs[req.device], LvName(req.key)) else ("", "");
    if req.id in s.rows && s.rows[req.id].state == Ready {
      r := Allocated(s.rows[req.id].Volume(), s.rows[req.id].size);
    } else if Refused(s, pool, req) {
      LeftoverGoes(s, pool, req, []);
      assert DropLeftover(s, req) + [] == DropLeftover(s, req);
      r := if DiskHeld(s, req) then AssignmentConflict else if req.device !in pool.vgs then DeviceNotInPool else UniqueViolation;
    } else {
      var dropped := s.(rows := s.rows - {req.id});
      LeftoverGoes(s, pool, req, CreateEffects(s, pool, req));
      assert CreateEffects(s, pool, req) == CreateEffects(dropped, pool, req);
      CreateLeaves(dropped, pool, req);
      assert (s.rows - {req.id})[req.id := NewRow(pool, req).(state := Ready)] == s.rows[req.id := NewRow(pool, req).(state := Ready)];
      r := Allocated(v, req.size);
    }
  }

  // --- Reconcile ---

  /** The row is of the pool and the pass drops it: it was being deleted, or never finished, or its VM is gone. */
  ghost predicate Dropped(s: Store, pool: Pool, live: set<string>, row: Row) {
    var present, alive := (row.vg, row.lv) in s.volumes, row.key.vm in live;
    && row.pool == pool.name
    && (row.state == Deleting || (row.state == Creating && !(present && alive)) || (row.state == Ready && present && !alive))
  }

  /** The row is of the pool and its volume goes with it. */
  ghost predicate Reclaimed(pool: Pool, live: set<string>, row: Row) {
    row.pool == pool.name && (row.state == Deleting || (row.state == Ready && row.key.vm !in live))
  }

  /** A data volume in the pool's groups that no row of the pool names and whose VM is gone. */
  ghost predicate Stray(s: Store, pool: Pool, live: set<string>, v: Volume) {
    && v.0 in pool.vgs.Values && ParseLvName(v.1).Some? && ParseLvName(v.1).value.vm !in live
    && forall id :: id in s.rows && s.rows[id].pool == pool.name ==> (s.rows[id].vg, s.rows[id].lv) != v
  }

  /**
   What a finished pass leaves: every row it does not drop, a Creating one of
   the pool as Ready; every volume that is neither reclaimed with its row nor
   stray.
   */
  ghost predicate Reconciled(s: Store, t: Store, pool: Pool, live: set<string>) {
    && (forall id :: id in t.rows <==> id in s.rows && !Dropped(s, pool, live, s.rows[id]))
    && (forall id :: id in t.rows ==>
          t.rows[id] == if s.rows[id].pool == pool.name && s.rows[id].state == Creating
                        then s.rows[id].(state := Ready) else s.rows[id])
    && (forall v :: v in t.volumes <==>
          && v in s.volumes && !Stray(s, pool, live, v)
          && forall id :: id in s.rows && (s.rows[id].vg, s.rows[id].lv) == v ==> !Reclaimed(pool, live, s.rows[id]))
  }

  /** The Ready rows of the pool, among those in `seen`, whose volume is missing. */
  ghost function LostAmong(s: Store, pool: Pool, seen: set<string>): set<string> {
    set id | id in seen && id in s.rows && s.rows[id].pool == pool.name && s.rows[id].state == Ready
             && (s.rows[id].vg, s.rows[id].lv) !in s.volumes
  }

  /** Settling other rows first does not change whether a row's volume is found. */
  lemma SeenAsAtStart(s: Store, live: set<string>, done: set<string>, id: string)
    requires WellFormed(s) && id in s.rows && id !in done
    ensures s.rows[id].Volume() in SettledStore(s, live, done).volumes <==> s.rows[id].Volume() in s.volumes
  {
    SameVolumeSameRow(s, s.rows[id].Volume(), id);
  }

  /** With the rows in `done` settled, the store is `t` and the rows noted as lost are `lost`. */
  ghost predicate Noted(s: Store, pool: Pool, live: set<string>, done: set<string>, lost: set<string>, t: Store) {
    WellFormed(s) ==> t == SettledStore(s, live, done) && lost == LostAmong(s, pool, done)
  }

  ghost predicate Distinct(order: seq<string>) {
    forall j, k :: 0 <= j < k < |order| ==> order[j] != order[k]
  }

  ghost function FirstOf(order: seq<string>, i: nat): set<string>
    requires i <= |order|
  {
    set id | id in order[..i]
  }

  lemma FirstOfNext(order: seq<string>, i: nat)
    requires i < |order| && Distinct(order)
    ensures order[i] !in FirstOf(order, i) && FirstOf(order, i + 1) == FirstOf(order, i) + {order[i]}
  {
    assert order[..i + 1] == order[..i] + [order[i]];
  }

  lemma NothingSettled(s: Store, pool: Pool, live: set<string>, order: seq<string>)
    ensures Noted(s, pool, live, FirstOf(order, 0), {}, s)
  {
    assert SettledStore(s, live, {}).rows == s.rows && SettledStore(s, live, {}).volumes == s.volumes;
    assert FirstOf(order, 0) == {};
  }

  lemma OneMoreSettled(s: Store, pool: Pool, live: set<string>, done: set<string>, id: string)
    requires WellFormed(s) && id in s.rows && id !in done && s.rows[id].pool == pool.name
    ensures var row, cur := s.rows[id], SettledStore(s, live, done);
      && DoAll(cur, RowEffects(id, row, row.Volume() in cur.volumes, row.key.vm in live)) == SettledStore(s, live, done + {id})
      && LostAmong(s, pool, done + {id}) ==
           LostAmong(s, pool, done) + if row.state == Ready && row.Volume() !in cur.volumes then {id} else {}
  {
    SettleOne(s, live, done, id);
    SeenAsAtStart(s, live, done, id);
  }

  lemma RowSurvivesIff(s: Store, pool: Pool, live: set<string>, id: string)
    requires id in s.rows
    ensures var t := Pass(s, pool, live);
      && (id in t.rows <==> !Dropped(s, pool, live, s.rows[id]))
      && (id in t.rows ==>
            t.rows[id] == if s.rows[id].pool == pool.name && s.rows[id].state == Creating
                          then s.rows[id].(state := Ready) else s.rows[id])
  {
  }

  lemma VolumeSurvivesIff(s: Store, pool: Pool, live: set<string>, v: Volume)
    ensures v in Pass(s, pool, live).volumes <==>
      && v in s.volumes && !Stray(s, pool, live, v)
      && forall id :: id in s.rows && (s.rows[id].vg, s.rows[id].lv) == v ==> !Reclaimed(pool, live, s.rows[id])
  {
    var all := RowsOfPool(s, pool.name);
    assert v in Claimed(s, pool.name) <==>
      exists id :: id in s.rows && s.rows[id].pool == pool.name && (s.rows[id].vg, s.rows[id].lv) == v;
    if v in s.volumes {
      assert FreedBy(s, live, all, v) <==>
        exists id :: id in s.rows && (s.rows[id].vg, s.rows[id].lv) == v && Reclaimed(pool, live, s.rows[id]);
    }
  }

  /** A finished pass, whatever orders its queries returned. */
  lemma {:induction false} PassLeaves(s: Store, pool: Pool, live: set<string>, order: seq<string>, listing: seq<Volume>)
    requires WellFormed(s) && PassInputs(s, pool, live, order, listing)
    ensures Reconciled(s, DoAll(s, ReconcileEffects(s, pool, live, order, listing)), pool, live)
  {
    FinishedPass(s, pool, live, order, listing);
    forall id | id in s.rows
      ensures id in Pass(s, pool, live).rows <==> !Dropped(s, pool, live, s.rows[id])
      ensures id in Pass(s, pool, live).rows ==>
        Pass(s, pool, live).rows[id] ==
          if s.rows[id].pool == pool.name && s.rows[id].state == Creating then s.rows[id].(state := Ready) else s.rows[id]
    {
      RowSurvivesIff(s, pool, live, id);
    }
    forall v ensures v in Pass(s, pool, live).volumes <==>
        && v in s.volumes && !Stray(s, pool, live, v)
        && forall id :: id in s.rows && (s.rows[id].vg, s.rows[id].lv) == v ==> !Reclaimed(pool, live, s.rows[id])
    {
      VolumeSurvivesIff(s, pool, live, v);
    }
  }
}

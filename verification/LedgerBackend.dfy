/**
 The LVM backend as the agent runs it: operations that update the two stores
 effect by effect. `left` counts the effects until the process stops; each
 operation is proved to leave exactly the prefix of its effect sequence that
 fits, so the theorems about cut sequences are theorems about this code.
 */
module LedgerBackend {
  import opened Ledger
  import opened LedgerSafety
  import opened LedgerOutcome

  class LvmLinearBackend {
    const pool: Pool
    var rows: map<string, Row>
    var volumes: set<Volume>
    var left: nat

    ghost function View(): Store
      reads this
    {
      Store(rows, volumes)
    }

    constructor (pool: Pool, rows: map<string, Row>, volumes: set<Volume>, left: nat)
      ensures this.pool == pool && View() == Store(rows, volumes) && this.left == left
    {
      this.pool, this.rows, this.volumes, this.left := pool, rows, volumes, left;
    }

    /** `k` effects of `es` are done on store `s`, out of `n` the process lives for. */
    ghost predicate At(s: Store, es: seq<Effect>, k: nat, n: nat)
      reads this
    {
      k <= |es| && k + left == n && View() == DoAll(s, es[..k])
    }

    /** The operation with effects `es` on store `s` is over: finished, or cut after `n` effects. */
    ghost predicate Over(s: Store, es: seq<Effect>, n: nat, finished: bool)
      reads this
    {
      View() == DoAll(s, Cut(es, n)) && (finished <==> |es| <= n)
    }

    /** Carry out the next effect of `es`, unless the process has stopped. */
    method Commit(e: Effect, ghost s: Store, ghost es: seq<Effect>, ghost k: nat, ghost n: nat) returns (ok: bool)
      requires At(s, es, k, n) && k < |es| && es[k] == e
      modifies this
      ensures ok ==> At(s, es, k + 1, n) && View() == Do(old(View()), e)
      ensures !ok ==> Over(s, es, n, false)
    {
      ok := left > 0;
      if ok {
        left := left - 1;
        var t := Do(Store(rows, volumes), e);
        rows, volumes := t.rows, t.volumes;
        assert es[..k + 1] == es[..k] + [e];
        DoAllAppend(s, es[..k], [e]);
        DoAllShort(DoAll(s, es[..k]), e, e);
      }
    }

    method Allocate(req: Request) returns (r: AllocateResult)
      modifies this
      ensures Over(old(View()), AllocateEffects(old(View()), pool, req), old(left), r != Interrupted)
      ensures r != Interrupted ==> AllocationEnds(old(View()), View(), pool, req, r)
    {
      ghost var s, n := View(), left;
      ghost var es := AllocateEffects(s, pool, req);
      ghost var k: nat := 0;
      if req.id in rows {
        if rows[req.id].state == Ready {
          return Allocated(rows[req.id].Volume(), rows[req.id].size);
        }
        var ok := Commit(DeleteRow(req.id), s, es, k, n);
        if !ok { return Interrupted; }
        k := 1;
      } else {
        assert rows - {req.id} == rows;
      }
      assert rows == s.rows - {req.id} && volumes == s.volumes;
      assert forall other :: other in rows <==> other in s.rows && other != req.id;
      assert forall other :: other in rows ==> rows[other] == s.rows[other];
      if exists other :: other in rows && rows[other].key == req.key {
        assert HeldByAnother(s, req.id, req.key);
        return AssignmentConflict;
      }
      assert !HeldByAnother(s, req.id, req.key);
      if req.device !in pool.vgs {
        return DeviceNotInPool;
      }
      var row := NewRow(pool, req);
      if exists other :: other in rows && rows[other].Volume() == row.Volume() {
        assert VolumeClaimed(s, req.id, row.Volume());
        return UniqueViolation;
      }
      assert !VolumeClaimed(s, req.id, row.Volume());
      assert es[k..] == CreateEffects(s, pool, req);
      r := Create(req, row, s, es, k, n);
    }

    /** The part of `Allocate` that inserts the row and makes the volume. */
    method Create(req: Request, row: Row, ghost s: Store, ghost es: seq<Effect>, ghost at: nat, ghost n: nat)
      returns (r: AllocateResult)
      requires req.device in pool.vgs && row == NewRow(pool, req) && volumes == s.volumes
      requires At(s, es, at, n) && es[at..] == CreateEffects(s, pool, req)
      modifies this
      ensures Over(s, es, n, r != Interrupted)
      ensures r == Interrupted || r == Allocated(row.Volume(), req.size)
      ensures r.Allocated? ==> rows == old(rows)[req.id := row.(state := Ready)] && volumes == s.volumes + {row.Volume()}
    {
      ghost var k := at;
      assert es[k] == es[at..][0];
      var ok := Commit(InsertRow(req.id, row), s, es, k, n);
      if !ok { return Interrupted; }
      k := k + 1;
      if row.Volume() in volumes {
        assert es[k] == es[at..][1];
        ok := Commit(RemoveVolume(row.Volume()), s, es, k, n);
        if !ok { return Interrupted; }
        k := k + 1;
      }
      assert es[k] == es[at..][k - at] && es[k + 1] == es[at..][k + 1 - at] && |es| == k + 2;
      ok := Commit(CreateVolume(row.Volume()), s, es, k, n);
      if !ok { return Interrupted; }
      ok := Commit(SetState(req.id, Ready), s, es, k + 1, n);
      if !ok { return Interrupted; }
      assert es[..k + 2] == es;
      r := Allocated(row.Volume(), req.size);
    }

    method MarkRows(order: seq<string>, ghost s: Store, ghost es: seq<Effect>, ghost at: nat, ghost n: nat)
      returns (ok: bool)
      requires At(s, es, at, n) && MarkEffects(order) <= es[at..]
      modifies this
      ensures ok ==> At(s, es, at + |MarkEffects(order)|, n)
      ensures !ok ==> Over(s, es, n, false)
    {
      ghost var k: nat, end := at, at + |MarkEffects(order)|;
      assert order[0..] == order;
      for i := 0 to |order|
        invariant At(s, es, k, n) && MarkEffects(order[i..]) <= es[k..]
        invariant k + |MarkEffects(order[i..])| == end
      {
        assert order[i..][1..] == order[i + 1..] && es[k] == es[k..][0];
        assert MarkEffects(order[i + 1..]) == MarkEffects(order[i..])[1..];
        assert MarkEffects(order[i + 1..]) <= es[k..][1..] == es[k + 1..];
        ok := Commit(SetState(order[i], Deleting), s, es, k, n);
        if !ok { return; }
        k := k + 1;
      }
      ok := true;
    }

    method DropRows(snapshot: map<string, Row>, order: seq<string>,
                    ghost s: Store, ghost es: seq<Effect>, ghost at: nat, ghost n: nat) returns (ok: bool)
      requires forall id <- order :: id in snapshot
      requires At(s, es, at, n) && es[at..] == DropEffects(snapshot, order)
      modifies this
      ensures Over(s, es, n, ok)
    {
      ghost var k: nat := at;
      assert order[0..] == order;
      for i := 0 to |order|
        invariant At(s, es, k, n) && es[k..] == DropEffects(snapshot, order[i..])
      {
        assert order[i..][1..] == order[i + 1..] && es[k] == es[k..][0] && es[k + 1] == es[k..][1];
        assert es[k..][2..] == es[k + 2..] == DropEffects(snapshot, order[i + 1..]);
        ok := Commit(RemoveVolume(snapshot[order[i]].Volume()), s, es, k, n);
        if !ok { return; }
        ok := Commit(DeleteRow(order[i]), s, es, k + 1, n);
        if !ok { return; }
        k := k + 2;
      }
      assert es[..k] == es;
      ok := true;
    }

    /** Mark every row of the VM Deleting, then drop volume and row one by one. */
    method Release(vm: string, order: seq<string>) returns (finished: bool)
      requires Lists(order, RowsOf(Store(rows, volumes), pool.name, vm))
      modifies this
      ensures Over(old(View()), ReleaseEffects(old(View()), order), old(left), finished)
      ensures finished ==> Released(old(View()), View(), pool.name, vm)
    {
      ghost var s, n := View(), left;
      var snapshot := rows;
      ghost var es := ReleaseEffects(s, order);
      finished := MarkRows(order, s, es, 0, n);
      if !finished { return; }
      assert es[|MarkEffects(order)|..] == DropEffects(snapshot, order);
      finished := DropRows(snapshot, order, s, es, |MarkEffects(order)|, n);
      if finished {
        assert Cut(es, n) == es;
        ReleaseLeaves(s, pool.name, vm, order);
      }
    }

    /** Settle one row as the pass does, given the row as read at the start. */
    method SettleRow(id: string, row: Row, alive: bool,
                     ghost s: Store, ghost es: seq<Effect>, ghost k: nat, ghost n: nat) returns (ok: bool)
      requires At(s, es, k, n) && RowEffects(id, row, row.Volume() in volumes, alive) <= es[k..]
      modifies this
      ensures var one := RowEffects(id, row, row.Volume() in old(volumes), alive);
        ok ==> At(s, es, k + |one|, n) && View() == DoAll(old(View()), one)
      ensures !ok ==> Over(s, es, n, false)
    {
      var present := row.Volume() in volumes;
      ghost var one := RowEffects(id, row, present, alive);
      if one != [] {
        assert es[k] == es[k..][0] && es[k + |one| - 1] == es[k..][|one| - 1];
        assert one == [one[0]] || one == [one[0], one[1]];
        DoAllShort(View(), one[0], one[|one| - 1]);
      }
      ok := true;
      match row.state
      case Creating =>
        if present && alive {
          ok := Commit(SetState(id, Ready), s, es, k, n);
        } else {
          ok := Commit(DeleteRow(id), s, es, k, n);
        }
      case Deleting =>
        if present {
          ok := Commit(RemoveVolume(row.Volume()), s, es, k, n);
          if !ok { return; }
        }
        ok := Commit(DeleteRow(id), s, es, k + |one| - 1, n);
      case Ready =>
        if present && !alive {
          ok := Commit(RemoveVolume(row.Volume()), s, es, k, n);
          if !ok { return; }
          ok := Commit(DeleteRow(id), s, es, k + 1, n);
        }
      case Unknown =>
    }

    /** Settle one row, and note it if it is Ready and its volume is not found. */
    method SettleNext(id: string, row: Row, alive: bool, lost0: set<string>, ghost live: set<string>, ghost done: set<string>,
                      ghost s: Store, ghost es: seq<Effect>, ghost k: nat, ghost n: nat, ghost tail: seq<Effect>)
      returns (ok: bool, lost: set<string>, ghost next: nat)
      requires At(s, es, k, n) && es[k..] == RowEffects(id, row, row.Volume() in volumes, alive) + tail
      requires id in s.rows && row == s.rows[id] && row.pool == pool.name && alive == (row.key.vm in live) && id !in done
      requires Noted(s, pool, live, done, lost0, View())
      modifies this
      ensures ok ==> At(s, es, next, n) && es[next..] == tail && Noted(s, pool, live, done + {id}, lost, View())
      ensures ok ==> View() == DoAll(old(View()), RowEffects(id, row, row.Volume() in old(volumes), alive))
      ensures !ok ==> Over(s, es, n, false)
    {
      ghost var one := RowEffects(id, row, row.Volume() in volumes, alive);
      next := k + |one|;
      assert next <= |es| && es[next..] == tail by { assert es[k..][|one|..] == es[next..]; }
      lost := if row.state == Ready && row.Volume() !in volumes then lost0 + {id} else lost0;
      if WellFormed(s) { OneMoreSettled(s, pool, live, done, id); }
      ok := SettleRow(id, row, alive, s, es, k, n);
    }

    /** The rows are settled; a Ready row whose volume is not found is reported as lost. */
    method SettleRows(snapshot: map<string, Row>, live: set<string>, order: seq<string>,
                      ghost s: Store, ghost es: seq<Effect>, ghost sweep: seq<Effect>, ghost n: nat)
      returns (ok: bool, lost: set<string>, ghost k: nat)
      requires snapshot == s.rows && Distinct(order)
      requires forall id <- order :: id in snapshot && snapshot[id].pool == pool.name
      requires At(s, es, 0, n) && es == SettleEffects(snapshot, View(), live, order) + sweep
      modifies this
      ensures ok ==> At(s, es, k, n) && es[k..] == sweep && Noted(s, pool, live, FirstOf(order, |order|), lost, View())
      ensures !ok ==> Over(s, es, n, false)
    {
      k, lost := 0, {};
      assert order[0..] == order && es[0..] == es && es[..0] == [];
      NothingSettled(s, pool, live, order);
      for i := 0 to |order|
        invariant At(s, es, k, n) && es[k..] == SettleEffects(snapshot, View(), live, order[i..]) + sweep
        invariant Noted(s, pool, live, FirstOf(order, i), lost, View())
      {
        var row := snapshot[order[i]];
        ghost var one := RowEffects(order[i], row, row.Volume() in volumes, row.key.vm in live);
        ghost var rest := SettleEffects(snapshot, DoAll(View(), one), live, order[i + 1..]);
        assert es[k..] == one + (rest + sweep) by { assert order[i..][1..] == order[i + 1..]; }
        FirstOfNext(order, i);
        assert order[i] in order;
        ok, lost, k := SettleNext(order[i], row, row.key.vm in live, lost, live, FirstOf(order, i), s, es, k, n, rest + sweep);
        if !ok { return; }
      }
      ok := true;
    }

    method SweepOrphans(claimed: set<Volume>, live: set<string>, listing: seq<Volume>,
                        ghost s: Store, ghost es: seq<Effect>, ghost at: nat, ghost n: nat) returns (ok: bool)
      requires At(s, es, at, n) && es[at..] == SweepEffects(claimed, live, listing)
      modifies this
      ensures Over(s, es, n, ok)
    {
      ghost var k: nat := at;
      assert listing[0..] == listing;
      for i := 0 to |listing|
        invariant At(s, es, k, n) && es[k..] == SweepEffects(claimed, live, listing[i..])
      {
        assert listing[i..][1..] == listing[i + 1..];
        if Orphan(claimed, live, listing[i]) {
          assert es[k] == es[k..][0] && es[k..][1..] == es[k + 1..] == SweepEffects(claimed, live, listing[i + 1..]);
          ok := Commit(RemoveVolume(listing[i]), s, es, k, n);
          if !ok { return; }
          k := k + 1;
        }
      }
      assert es[..k] == es;
      ok := true;
    }

    /** The reconcile pass: settle every row of the pool, report those that lost their volume, then remove orphan volumes. */
    method Reconcile(live: set<string>, order: seq<string>, listing: seq<Volume>) returns (finished: bool, lost: set<string>)
      requires PassInputs(Store(rows, volumes), pool, live, order, listing)
      modifies this
      ensures Over(old(View()), ReconcileEffects(old(View()), pool, live, order, listing), old(left), finished)
      ensures finished && WellFormed(old(View())) ==>
        && Reconciled(old(View()), View(), pool, live)
        && forall id :: id in lost <==>
             && id in old(rows) && old(rows)[id].pool == pool.name && old(rows)[id].state == Ready
             && (old(rows)[id].vg, old(rows)[id].lv) !in old(volumes)
    {
      ghost var s, n := View(), left;
      var snapshot := rows;
      var claimed := set id | id in snapshot && snapshot[id].pool == pool.name :: snapshot[id].Volume();
      ghost var sweep := SweepEffects(Claimed(s, pool.name), live, listing);
      ghost var es := ReconcileEffects(s, pool, live, order, listing);
      ghost var k: nat;
      finished, lost, k := SettleRows(snapshot, live, order, s, es, sweep, n);
      if !finished { return; }
      assert FirstOf(order, |order|) == RowsOfPool(s, pool.name) by { assert order[..|order|] == order; }
      assert claimed == Claimed(s, pool.name);
      finished := SweepOrphans(claimed, live, listing, s, es, k, n);
      if finished && WellFormed(s) {
        assert Cut(es, n) == es;
        PassLeaves(s, pool, live, order, listing);
      }
    }
  }
}

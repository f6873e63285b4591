/**
 What a finished reconcile pass does, and how many passes repair a ledger.

 The pass works row by row and volume by volume, in whatever order the
 queries return them. Its outcome does not depend on those orders: it is
 `Pass`, a closed form over the store the pass started from.
 */
module LedgerReconcile {
  import opened Naming
  import opened Ledger
  import opened LedgerSafety

  // --- The closed form ---

  /** The row survives the pass. */
  predicate Kept(s: Store, live: set<string>, row: Row) {
    var present, alive := row.Volume() in s.volumes, row.key.vm in live;
    match row.state
    case Creating => present && alive
    case Deleting => false
    case Ready => !present || alive
    case Unknown => true
  }

  /** The pass removes the row's volume together with the row. */
  predicate Freed(s: Store, live: set<string>, row: Row) {
    row.state == Deleting || (row.state == Ready && row.Volume() in s.volumes && row.key.vm !in live)
  }

  function Settled(row: Row): Row {
    if row.state == Creating then row.(state := Ready) else row
  }

  /** The store once the rows in `done` are settled. */
  function SettledStore(s: Store, live: set<string>, done: set<string>): Store {
    Store(map id | id in s.rows && (id in done ==> Kept(s, live, s.rows[id]))
            :: if id in done then Settled(s.rows[id]) else s.rows[id],
          set v | v in s.volumes && !FreedBy(s, live, done, v))
  }

  predicate FreedBy(s: Store, live: set<string>, done: set<string>, v: Volume) {
    exists id :: id in done && id in s.rows && s.rows[id].Volume() == v && Freed(s, live, s.rows[id])
  }

  /** The store a finished pass leaves. */
  function Pass(s: Store, pool: Pool, live: set<string>): Store {
    var settled := SettledStore(s, live, RowsOfPool(s, pool.name));
    settled.(volumes := set v | v in settled.volumes &&
                                !(v.0 in pool.vgs.Values && Orphan(Claimed(s, pool.name), live, v)))
  }

  // --- The effects reach it ---

  lemma FreedByOneMore(s: Store, live: set<string>, done: set<string>, id: string, v: Volume)
    requires id in s.rows
    ensures FreedBy(s, live, done + {id}, v) <==>
      FreedBy(s, live, done, v) || (s.rows[id].Volume() == v && Freed(s, live, s.rows[id]))
  {
    if FreedBy(s, live, done, v) {
      var a :| a in done && a in s.rows && s.rows[a].Volume() == v && Freed(s, live, s.rows[a]);
      assert a in done + {id};
    }
    if s.rows[id].Volume() == v && Freed(s, live, s.rows[id]) { assert id in done + {id}; }
  }

  /** Settling one more row changes that row, and its volume if the row is freed. */
  lemma SettledStoreStep(s: Store, live: set<string>, done: set<string>, id: string)
    requires id in s.rows && id !in done
    ensures var row := s.rows[id];
      var cur, next := SettledStore(s, live, done), SettledStore(s, live, done + {id});
      && next.rows == (if Kept(s, live, row) then cur.rows[id := Settled(row)] else cur.rows - {id})
      && next.volumes == (if Freed(s, live, row) then cur.volumes - {row.Volume()} else cur.volumes)
  {
    var row := s.rows[id];
    var cur, next := SettledStore(s, live, done), SettledStore(s, live, done + {id});
    forall v | v in s.volumes
      ensures v in next.volumes <==> v in cur.volumes && !(row.Volume() == v && Freed(s, live, row))
    {
      FreedByOneMore(s, live, done, id, v);
    }
    assert next.rows == if Kept(s, live, row) then cur.rows[id := Settled(row)] else cur.rows - {id};
  }

  lemma SettleOne(s: Store, live: set<string>, done: set<string>, id: string)
    requires WellFormed(s) && id in s.rows && id !in done
    ensures var row := s.rows[id];
      var cur := SettledStore(s, live, done);
      var es := RowEffects(id, row, row.Volume() in cur.volumes, row.key.vm in live);
      DoAll(cur, es) == SettledStore(s, live, done + {id})
  {
    var row := s.rows[id];
    var cur := SettledStore(s, live, done);
    var v := row.Volume();
    SettledStoreStep(s, live, done, id);
    SameVolumeSameRow(s, v, id);
    assert v in cur.volumes <==> v in s.volumes;
    assert v !in cur.volumes ==> cur.volumes - {v} == cur.volumes;
    assert cur.rows[id] == row && cur.rows[id := row] == cur.rows;
    DoAllShort(cur, RemoveVolume(v), DeleteRow(id));
    DoAllShort(cur, DeleteRow(id), DeleteRow(id));
    DoAllShort(cur, SetState(id, Ready), DeleteRow(id));
  }

  lemma SameVolumeSameRow(s: Store, v: Volume, id: string)
    requires WellFormed(s) && id in s.rows && s.rows[id].Volume() == v
    ensures forall other :: other in s.rows && s.rows[other].Volume() == v ==> other == id
  {
    forall other | other in s.rows && s.rows[other].Volume() == v ensures other == id {
      VolumesAreUnique(s, other, id);
    }
  }

  lemma {:induction false} SettleRest(s: Store, live: set<string>, done: set<string>, order: seq<string>)
    requires WellFormed(s)
    requires forall id <- order :: id in s.rows && id !in done
    requires forall i, j :: 0 <= i < j < |order| ==> order[i] != order[j]
    ensures DoAll(SettledStore(s, live, done), SettleEffects(s.rows, SettledStore(s, live, done), live, order))
         == SettledStore(s, live, done + set id | id in order)
    decreases |order|
  {
    var cur := SettledStore(s, live, done);
    if order == [] {
      assert done + (set id | id in order) == done;
    } else {
      var row := s.rows[order[0]];
      var es := RowEffects(order[0], row, row.Volume() in cur.volumes, row.key.vm in live);
      SettleOne(s, live, done, order[0]);
      SettleRest(s, live, done + {order[0]}, order[1..]);
      DoAllAppend(cur, es, SettleEffects(s.rows, DoAll(cur, es), live, order[1..]));
      assert done + (set id | id in order) == done + {order[0]} + (set id | id in order[1..]);
    }
  }

  lemma {:induction false} SweepAll(claimed: set<Volume>, s: Store, live: set<string>, listing: seq<Volume>)
    ensures DoAll(s, SweepEffects(claimed, live, listing)) ==
      s.(volumes := set v | v in s.volumes && !(v in listing && Orphan(claimed, live, v)))
    decreases |listing|
  {
    if listing == [] {
      assert s.volumes == set v | v in s.volumes;
    } else {
      var es := if Orphan(claimed, live, listing[0]) then [RemoveVolume(listing[0])] else [];
      var rest := SweepEffects(claimed, live, listing[1..]);
      if es != [] { DoAllShort(s, es[0], es[0]); }
      SweepAll(claimed, DoAll(s, es), live, listing[1..]);
      DoAllAppend(s, es, rest);
      assert forall v :: v in listing <==> v == listing[0] || v in listing[1..];
    }
  }

  /** A finished pass is `Pass`, whatever orders its queries returned. */
  lemma {:induction false} FinishedPass(s: Store, pool: Pool, live: set<string>, order: seq<string>, listing: seq<Volume>)
    requires WellFormed(s) && PassInputs(s, pool, live, order, listing)
    ensures DoAll(s, ReconcileEffects(s, pool, live, order, listing)) == Pass(s, pool, live)
  {
    var none := SettledStore(s, live, {});
    assert none == s by {
      assert none.rows == s.rows && none.volumes == s.volumes;
    }
    SettleRest(s, live, {}, order);
    assert {} + (set id | id in order) == RowsOfPool(s, pool.name);
    var settle := SettleEffects(s.rows, s, live, order);
    var settled := DoAll(s, settle);
    var claimed := Claimed(s, pool.name);
    SweepAll(claimed, settled, live, listing);
    DoAllAppend(s, settle, SweepEffects(claimed, live, listing));
  }

  // --- Repair ---

  /** A Creating row of the pool whose volume exists although its VM is dead. */
  ghost predicate Leftover(s: Store, pool: Pool, live: set<string>, id: string) {
    id in s.rows &&
    var row := s.rows[id];
    && row.pool == pool.name && row.state == Creating
    && row.Volume() in s.volumes && row.key.vm !in live
    && row.vg in pool.vgs.Values && row.key.vm != "" && row.key.index < U32_END
  }

  ghost predicate HeldByUnknown(s: Store, pool: Pool, v: Volume) {
    exists id :: id in s.rows && s.rows[id].pool == pool.name && s.rows[id].state == Unknown && s.rows[id].Volume() == v
  }

  lemma PassKeepsWellFormed(s: Store, pool: Pool, live: set<string>)
    requires WellFormed(s)
    ensures WellFormed(Pass(s, pool, live))
  {
  }

  /** After one pass the pool has no Creating or Deleting row, and a Ready row is dead only without a volume. */
  lemma OnePassSettlesRows(s: Store, pool: Pool, live: set<string>, id: string)
    requires WellFormed(s) && id in Pass(s, pool, live).rows
    requires Pass(s, pool, live).rows[id].pool == pool.name
    ensures var t := Pass(s, pool, live); var row := t.rows[id];
      && (row.state == Ready || row.state == Unknown)
      && (row.state == Ready && row.Volume() in t.volumes ==> row.key.vm in live)
      && Kept(t, live, row) && !Freed(t, live, row) && Settled(row) == row
  {
    SameVolumeSameRow(s, s.rows[id].Volume(), id);
  }

  /** A second pass changes no row, so what it can still do is remove orphans. */
  lemma SecondPassKeepsRows(s: Store, pool: Pool, live: set<string>)
    requires WellFormed(s)
    ensures var t := Pass(s, pool, live);
      && Pass(t, pool, live).rows == t.rows
      && Pass(t, pool, live).volumes == set v | v in t.volumes &&
           !(v.0 in pool.vgs.Values && Orphan(Claimed(t, pool.name), live, v))
  {
    var t := Pass(s, pool, live);
    var all := RowsOfPool(t, pool.name);
    forall id | id in all ensures Kept(t, live, t.rows[id]) && !Freed(t, live, t.rows[id]) && Settled(t.rows[id]) == t.rows[id] {
      OnePassSettlesRows(s, pool, live, id);
    }
    assert SettledStore(t, live, all).rows == t.rows;
    assert SettledStore(t, live, all).volumes == t.volumes;
  }

  /** A data volume left after one pass with a dead VM is one that a dropped Creating row claimed. */
  lemma OrphanAfterPass(s: Store, pool: Pool, live: set<string>, v: Volume)
    requires WellFormed(s)
    requires var t := Pass(s, pool, live);
      v in t.volumes && v.0 in pool.vgs.Values && Orphan(Claimed(t, pool.name), live, v)
    ensures exists id :: Leftover(s, pool, live, id) && s.rows[id].Volume() == v
  {
    var t := Pass(s, pool, live);
    assert v in Claimed(s, pool.name);
    var id :| id in s.rows && s.rows[id].pool == pool.name && s.rows[id].Volume() == v;
    var row := s.rows[id];
    ParseOfPrintedName(row.key);
    assert id in RowsOfPool(s, pool.name);
    assert id in t.rows ==> t.rows[id].Volume() in Claimed(t, pool.name);
    assert !FreedBy(s, live, RowsOfPool(s, pool.name), v);
    assert !Freed(s, live, row) && !Kept(s, live, row);
    assert Leftover(s, pool, live, id);
  }

  /** A leftover's volume survives the first pass and falls to the second. */
  lemma LeftoverNeedsSecondPass(s: Store, pool: Pool, live: set<string>, id: string)
    requires WellFormed(s) && Leftover(s, pool, live, id)
    ensures var v, t := s.rows[id].Volume(), Pass(s, pool, live);
      v in t.volumes && v.0 in pool.vgs.Values && Orphan(Claimed(t, pool.name), live, v)
  {
    var v, t := s.rows[id].Volume(), Pass(s, pool, live);
    SameVolumeSameRow(s, v, id);
    ParseOfPrintedName(s.rows[id].key);
    assert v in Claimed(s, pool.name);
    assert !FreedBy(s, live, RowsOfPool(s, pool.name), v);
    forall other | other in t.rows && t.rows[other].pool == pool.name ensures t.rows[other].Volume() != v {
      assert s.rows[other].Volume() == t.rows[other].Volume();
    }
  }

  /** One pass is enough exactly when no Creating row has a volume and a dead VM. */
  lemma OnePassIsEnough(s: Store, pool: Pool, live: set<string>)
    requires WellFormed(s)
    ensures Pass(Pass(s, pool, live), pool, live) == Pass(s, pool, live) <==>
      !exists id :: Leftover(s, pool, live, id)
  {
    var t := Pass(s, pool, live);
    SecondPassKeepsRows(s, pool, live);
    if id :| Leftover(s, pool, live, id) {
      LeftoverNeedsSecondPass(s, pool, live, id);
      assert s.rows[id].Volume() !in Pass(t, pool, live).volumes;
    } else {
      forall v | v in t.volumes && v.0 in pool.vgs.Values ensures !Orphan(Claimed(t, pool.name), live, v) {
        if Orphan(Claimed(t, pool.name), live, v) { OrphanAfterPass(s, pool, live, v); }
      }
      assert Pass(t, pool, live).volumes == t.volumes;
    }
  }

  /** Two passes always reach a fixpoint, and then every data volume of the pool belongs to a live VM. */
  lemma TwoPassesRepair(s: Store, pool: Pool, live: set<string>)
    requires WellFormed(s)
    ensures var t := Pass(Pass(s, pool, live), pool, live);
      && Pass(t, pool, live) == t
      && (forall id :: id in t.rows && t.rows[id].pool == pool.name ==> t.rows[id].state in {Ready, Unknown})
      && (forall v :: v in t.volumes && v.0 in pool.vgs.Values && ParseLvName(v.1).Some? ==>
            ParseLvName(v.1).value.vm in live || HeldByUnknown(t, pool, v))
  {
    var one := Pass(s, pool, live);
    var t := Pass(one, pool, live);
    PassKeepsWellFormed(s, pool, live);
    SecondPassKeepsRows(s, pool, live);
    forall id ensures !Leftover(one, pool, live, id) {
      if id in one.rows && one.rows[id].pool == pool.name { OnePassSettlesRows(s, pool, live, id); }
    }
    OnePassIsEnough(one, pool, live);
    forall id | id in t.rows && t.rows[id].pool == pool.name ensures t.rows[id].state in {Ready, Unknown} {
      OnePassSettlesRows(one, pool, live, id);
    }
    forall v | v in t.volumes && v.0 in pool.vgs.Values && ParseLvName(v.1).Some?
      ensures ParseLvName(v.1).value.vm in live || HeldByUnknown(t, pool, v)
    {
      if ParseLvName(v.1).value.vm !in live {
        assert v in Claimed(one, pool.name);
        var id :| id in one.rows && one.rows[id].pool == pool.name && one.rows[id].Volume() == v;
        OnePassSettlesRows(s, pool, live, id);
        ParseOfPrintedName(one.rows[id].key);
        assert one.rows[id].state == Unknown;
      }
    }
  }

  /** Every Ready row of a live VM has its volume. */
  ghost predicate LiveBacked(s: Store, live: set<string>) {
    forall id :: id in s.rows && s.rows[id].state == Ready && s.rows[id].key.vm in live ==>
      s.rows[id].Volume() in s.volumes
  }

  lemma PassKeepsBackedRow(s: Store, pool: Pool, live: set<string>, id: string)
    requires WellFormed(s) && id in Pass(s, pool, live).rows
    requires Pass(s, pool, live).rows[id].state == Ready && s.rows[id].key.vm in live
    requires s.rows[id].state == Ready ==> s.rows[id].Volume() in s.volumes
    ensures Pass(s, pool, live).rows[id].Volume() in Pass(s, pool, live).volumes
  {
    var v := s.rows[id].Volume();
    SameVolumeSameRow(s, v, id);
    ParseOfPrintedName(s.rows[id].key);
    assert !FreedBy(s, live, RowsOfPool(s, pool.name), v);
  }

  lemma PassKeepsLiveBacked(s: Store, pool: Pool, live: set<string>)
    requires WellFormed(s) && LiveBacked(s, live) && Known(s)
    ensures LiveBacked(Pass(s, pool, live), live) && Known(Pass(s, pool, live))
  {
    var t := Pass(s, pool, live);
    forall id | id in t.rows && t.rows[id].state == Ready && t.rows[id].key.vm in live
      ensures t.rows[id].Volume() in t.volumes
    {
      PassKeepsBackedRow(s, pool, live, id);
    }
  }

  /**
   The two halves together: from an empty host, whatever operations ran and
   wherever each of them stopped, two finished passes leave a fixpoint in
   which every Ready row of a live VM has its volume and every data volume of
   the pool belongs to a live VM.
   */
  lemma {:induction false} CrashesThenTwoPasses(events: seq<Event>, s: Store, gone: set<string>, pool: Pool,
                                                live: set<string>)
    requires Run(Store(map[], {}), {}, events, s, gone)
    requires live !! gone
    ensures var t := Pass(Pass(s, pool, live), pool, live);
      && Pass(t, pool, live) == t && LiveBacked(t, live)
      && forall v :: v in t.volumes && v.0 in pool.vgs.Values && ParseLvName(v.1).Some? ==>
           ParseLvName(v.1).value.vm in live
  {
    RunIsSafe(Store(map[], {}), {}, events, s, gone);
    PassKeepsWellFormed(s, pool, live);
    PassKeepsLiveBacked(s, pool, live);
    PassKeepsLiveBacked(Pass(s, pool, live), pool, live);
    TwoPassesRepair(s, pool, live);
  }
}

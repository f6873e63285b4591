/**
 The agent's LVM reservation ledger.

 Two stores cannot be updated together: the ledger rows in SQLite and the
 logical volumes in LVM. Each operation is therefore a sequence of effects,
 every effect atomic on one store, and a crash or a failing command leaves
 some prefix of that sequence done. The rows carry a Creating / Ready /
 Deleting state so that a reconcile pass can repair what a prefix left.
 */
module Ledger {
  import opened Naming

  /** `Unknown` stands for any other text in the state column; no operation writes it. */
  datatype RowState = Creating | Ready | Deleting | Unknown

  /** A volume: its volume group and its name in it. */
  type Volume = (string, string)

  datatype Row = Row(pool: string, device: string, vg: string, lv: string,
                     key: DiskKey, size: nat, state: RowState)
  {
    function Volume(): Volume { (vg, lv) }
  }

  datatype Store = Store(rows: map<string, Row>, volumes: set<Volume>)

  /** A pool: its name and the volume group on each of its devices. */
  datatype Pool = Pool(name: string, vgs: map<string, string>)

  datatype Request = Request(id: string, key: DiskKey, device: string, size: nat)

  // --- Effects ---

  datatype Effect =
    | InsertRow(id: string, row: Row)
    | SetState(id: string, state: RowState)
    | DeleteRow(id: string)
    | CreateVolume(volume: Volume)
    | RemoveVolume(volume: Volume)

  function Do(s: Store, e: Effect): Store {
    match e
    case InsertRow(id, row) => s.(rows := s.rows[id := row])
    case SetState(id, st) => if id in s.rows then s.(rows := s.rows[id := s.rows[id].(state := st)]) else s
    case DeleteRow(id) => s.(rows := s.rows - {id})
    case CreateVolume(v) => s.(volumes := s.volumes + {v})
    case RemoveVolume(v) => s.(volumes := s.volumes - {v})
  }

  function DoAll(s: Store, es: seq<Effect>): Store
    decreases |es|
  {
    if es == [] then s else DoAll(Do(s, es[0]), es[1..])
  }

  lemma {:induction false} DoAllAppend(s: Store, a: seq<Effect>, b: seq<Effect>)
    ensures DoAll(s, a + b) == DoAll(DoAll(s, a), b)
    decreases |a|
  {
    if a == [] {
      assert a + b == b;
    } else {
      assert (a + b)[1..] == a[1..] + b;
      DoAllAppend(Do(s, a[0]), a[1..], b);
    }
  }

  lemma {:induction false} DoAllShort(s: Store, e: Effect, f: Effect)
    ensures DoAll(s, [e]) == Do(s, e)
    ensures DoAll(s, [e, f]) == Do(Do(s, e), f)
  {
    assert [e][1..] == [] && [e, f][1..] == [f];
    assert DoAll(Do(s, e), [f]) == Do(Do(s, e), f) by { assert [f][1..] == []; }
  }

  /** The part of `es` done when it is cut after `n` effects. */
  function Cut(es: seq<Effect>, n: nat): seq<Effect> {
    if n <= |es| then es[..n] else es
  }

  // --- Allocate ---

  datatype AllocateResult =
    | Allocated(volume: Volume, size: nat)
    | AssignmentConflict
    | DeviceNotInPool
    | UniqueViolation
    | Interrupted

  predicate HeldByAnother(s: Store, id: string, key: DiskKey) {
    exists other :: other in s.rows && other != id && s.rows[other].key == key
  }

  predicate VolumeClaimed(s: Store, id: string, v: Volume) {
    exists other :: other in s.rows && other != id && s.rows[other].Volume() == v
  }

  function NewRow(pool: Pool, req: Request): Row
    requires req.device in pool.vgs
  {
    Row(pool.name, req.device, pool.vgs[req.device], LvName(req.key), req.key, req.size, Creating)
  }

  /** A leftover Creating or Deleting row of the same assignment is dropped first. */
  function DropLeftover(s: Store, req: Request): seq<Effect> {
    if req.id in s.rows then [DeleteRow(req.id)] else []
  }

  function CreateEffects(s: Store, pool: Pool, req: Request): seq<Effect>
    requires req.device in pool.vgs
  {
    var row := NewRow(pool, req);
    [InsertRow(req.id, row)]
    + (if row.Volume() in s.volumes then [RemoveVolume(row.Volume())] else [])
    + [CreateVolume(row.Volume()), SetState(req.id, Ready)]
  }

  predicate Refused(s: Store, pool: Pool, req: Request) {
    || HeldByAnother(s, req.id, req.key)
    || req.device !in pool.vgs
    || VolumeClaimed(s, req.id, NewRow(pool, req).Volume())
  }

  function AllocateEffects(s: Store, pool: Pool, req: Request): seq<Effect> {
    if req.id in s.rows && s.rows[req.id].state == Ready then []
    else if Refused(s, pool, req) then DropLeftover(s, req)
    else DropLeftover(s, req) + CreateEffects(s, pool, req)
  }

  // --- Release ---

  /** `order` lists the elements of `ids`, each once. */
  ghost predicate Lists<T(!new)>(order: seq<T>, ids: set<T>) {
    && (forall x :: x in order <==> x in ids)
    && (forall i, j :: 0 <= i < j < |order| ==> order[i] != order[j])
  }

  function RowsOf(s: Store, pool: string, vm: string): set<string> {
    set id | id in s.rows && s.rows[id].pool == pool && s.rows[id].key.vm == vm
  }

  function MarkEffects(order: seq<string>): seq<Effect> {
    if order == [] then [] else [SetState(order[0], Deleting)] + MarkEffects(order[1..])
  }

  function DropEffects(rows: map<string, Row>, order: seq<string>): seq<Effect>
    requires forall id <- order :: id in rows
  {
    if order == [] then []
    else [RemoveVolume(rows[order[0]].Volume()), DeleteRow(order[0])] + DropEffects(rows, order[1..])
  }

  function ReleaseEffects(s: Store, order: seq<string>): seq<Effect>
    requires forall id <- order :: id in s.rows
  {
    MarkEffects(order) + DropEffects(s.rows, order)
  }

  // --- Reconcile ---

  function RowsOfPool(s: Store, pool: string): set<string> {
    set id | id in s.rows && s.rows[id].pool == pool
  }

  function RowEffects(id: string, row: Row, present: bool, alive: bool): seq<Effect> {
    match row.state
    case Creating => if present && alive then [SetState(id, Ready)] else [DeleteRow(id)]
    case Deleting => if present then [RemoveVolume(row.Volume()), DeleteRow(id)] else [DeleteRow(id)]
    case Ready => if present && !alive then [RemoveVolume(row.Volume()), DeleteRow(id)] else []
    case Unknown => []
  }

  /** The rows read at the start are `rows`; whether a volume is present is asked row by row. */
  function SettleEffects(rows: map<string, Row>, s: Store, live: set<string>, order: seq<string>): seq<Effect>
    requires forall id <- order :: id in rows
    decreases |order|
  {
    if order == [] then []
    else
      var row := rows[order[0]];
      var es := RowEffects(order[0], row, row.Volume() in s.volumes, row.key.vm in live);
      es + SettleEffects(rows, DoAll(s, es), live, order[1..])
  }

  function Claimed(s: Store, pool: string): set<Volume> {
    set id | id in s.rows && s.rows[id].pool == pool :: s.rows[id].Volume()
  }

  predicate Orphan(claimed: set<Volume>, live: set<string>, v: Volume) {
    ParseLvName(v.1).Some? && v !in claimed && ParseLvName(v.1).value.vm !in live
  }

  function SweepEffects(claimed: set<Volume>, live: set<string>, listing: seq<Volume>): seq<Effect> {
    if listing == [] then []
    else (if Orphan(claimed, live, listing[0]) then [RemoveVolume(listing[0])] else [])
         + SweepEffects(claimed, live, listing[1..])
  }

  function PoolVolumes(s: Store, pool: Pool): set<Volume> {
    set v | v in s.volumes && v.0 in pool.vgs.Values
  }

  function ReconcileEffects(s: Store, pool: Pool, live: set<string>, order: seq<string>, listing: seq<Volume>)
    : seq<Effect>
    requires forall id <- order :: id in s.rows
  {
    SettleEffects(s.rows, s, live, order) + SweepEffects(Claimed(s, pool.name), live, listing)
  }

  /** `order` is the query's row order and `listing` the volumes listed after the rows are settled. */
  ghost predicate PassInputs(s: Store, pool: Pool, live: set<string>, order: seq<string>, listing: seq<Volume>) {
    && Lists(order, RowsOfPool(s, pool.name))
    && Lists(listing, PoolVolumes(DoAll(s, SettleEffects(s.rows, s, live, order)), pool))
  }
}

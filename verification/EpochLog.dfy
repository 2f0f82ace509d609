/**
 The epoch log: cycles that cut epochs (deploy/lake_epoch_cycle.cljk), the first-wins register they
 submit to, and the walk that resolves it (deploy/lake_head.cljk).
 */
module EpochLog {
  import opened Bytes
  import opened Inventory
  import opened MergeDelta

  type Cid = string

  /** A manifest with the inventory it names; `note` is its custody and authority text. */
  datatype Manifest = Manifest(epoch: nat, prev: Option<Cid>, rows: seq<Row>, note: string)

  datatype Record = Record(at: nat, cid: Cid)

  /** The custodians' blocks, the committed manifest CID per sequence number, and the witnesses' mempools. */
  datatype World = World(blocks: map<Cid, Manifest>, log: seq<Cid>, pending: set<Record>)

  /** No other manifest is stored under the CID of `m`. */
  predicate Free(address: Manifest -> Cid, blocks: map<Cid, Manifest>, m: Manifest) {
    address(m) in blocks ==> blocks[address(m)] == m
  }

  // ----- resolve!

  datatype WalkError = Unavailable | WrongEpoch | NoPrev

  /** Follows prev from the manifest of epoch `n` down to epoch 0; `acc` holds the later epochs. */
  function Walk(blocks: map<Cid, Manifest>, n: nat, cid: Cid, acc: seq<Manifest>): Result<seq<Manifest>, WalkError> {
    if cid !in blocks then Err(Unavailable)
    else
      var m := blocks[cid];
      if m.epoch != n then Err(WrongEpoch)
      else if n > 0 && m.prev.None? then Err(NoPrev)
      else if n == 0 then Ok([m] + acc)
      else Walk(blocks, n - 1, m.prev.value, [m] + acc)
  }

  function Joined(manifests: seq<Manifest>): seq<Row> {
    if manifests == [] then [] else Joined(manifests[..|manifests| - 1]) + manifests[|manifests| - 1].rows
  }

  /** What resolving a verified head at position `k` writes. */
  function Resolved(w: World, k: nat): Result<seq<Row>, WalkError>
    requires k < |w.log|
  {
    var manifests :- Walk(w.blocks, k, w.log[k], []);
    Ok(Joined(manifests))
  }

  // ----- one cycle

  /** The last step whose completion is saved; the steps that only move data to the custodians are omitted. */
  datatype Phase = Begun | Headed | Walked | LogRead | Cut | Manifested | Submitted | Checked

  function Rank(p: Phase): nat {
    match p
    case Begun => 0
    case Headed => 1
    case Walked => 2
    case LogRead => 3
    case Cut => 4
    case Manifested => 5
    case Submitted => 6
    case Checked => 7
  }

  /** A run's saved state and files; `base` is the configured epoch-0 inventory. */
  datatype Run = Run(
    phase: Phase, base: seq<Row>,
    epoch: nat, prev: Cid,
    listing: seq<Row>, diff: seq<Row>,
    resolved: seq<Row>, inventory: seq<Row>,
    manifest: Cid)

  /**
   One execution of a step. A step that stops before its completion is saved leaves its files behind
   and is repeated later: `saved` is then false. A step whose check fails changes nothing.
   */
  datatype Step =
    | Head(k: nat, saved: bool)
    | Walks(listing: seq<Row>, saved: bool)
    | ReadLog(k: nat, saved: bool)
    | CutDelta(saved: bool)
    | WriteManifest(note: string, saved: bool)
    | Submit
    | Settle(saved: bool)
    | Check(saved: bool)

  function Mark(r: Run, saved: bool, phase: Phase): Run {
    if saved then r.(phase := phase) else r
  }

  function StepRun(address: Manifest -> Cid, w: World, r: Run, step: Step): (World, Run) {
    match step
    case Head(k, saved) =>
      if r.phase.Begun? && k < |w.log|
      then (w, Mark(r.(epoch := k + 1, prev := w.log[k]), saved, Headed))
      else (w, r)
    case Walks(listing, saved) =>
      if r.phase.Headed? && Increasing(r.base) && Increasing(listing) && MergeInventories(r.base, listing).Ok?
      then (w, Mark(r.(listing := listing, diff := MergeInventories(r.base, listing).value.rows), saved, Walked))
      else (w, r)
    case ReadLog(k, saved) =>
      if r.phase.Walked? && k < |w.log| && Resolved(w, k).Ok? && k + 1 == r.epoch
      then (w, Mark(r.(resolved := Resolved(w, k).value), saved, LogRead))
      else (w, r)
    case CutDelta(saved) =>
      if r.phase.LogRead? && DeltaAccepts(r.resolved, r.diff)
      then (w, Mark(r.(inventory := NotHeld(r.diff, Held(r.resolved))), saved, Cut))
      else (w, r)
    case WriteManifest(note, saved) =>
      if r.phase.Cut? && r.inventory != []
      then
        var m := Manifest(r.epoch, Some(r.prev), r.inventory, note);
        (w.(blocks := w.blocks[address(m) := m]), Mark(r.(manifest := address(m)), saved, Manifested))
      else (w, r)
    case Submit =>
      if r.phase.Manifested?
      then (w.(pending := w.pending + {Record(r.epoch, r.manifest)}), r)
      else (w, r)
    case Settle(saved) =>
      if r.phase.Manifested? && r.epoch < |w.log| && w.log[r.epoch] == r.manifest
      then (w, Mark(r, saved, Submitted))
      else (w, r)
    case Check(saved) =>
      if r.phase.Submitted? && r.epoch < |w.log| && Resolved(w, r.epoch).Ok? &&
         Contains(Resolved(w, r.epoch).value, r.listing)
      then (w, Mark(r, saved, Checked))
      else (w, r)
  }

  /** The step does not write a manifest under the CID of another one. */
  predicate NoClash(address: Manifest -> Cid, w: World, r: Run, step: Step) {
    step.WriteManifest? && r.phase.Cut? ==> Free(address, w.blocks, Manifest(r.epoch, Some(r.prev), r.inventory, step.note))
  }

  /** The witnesses commit a pending record for the next sequence number; any later record for it is ignored. */
  function Commit(w: World, record: Record): World {
    if record in w.pending && record.at == |w.log| then w.(log := w.log + [record.cid]) else w
  }

  // ----- any interleaving of cycles

  datatype System = System(world: World, runs: seq<Run>)
  datatype Event = Start(base: seq<Row>) | Act(i: nat, step: Step) | Witnesses(record: Record)

  function Next(address: Manifest -> Cid, s: System, e: Event): System {
    match e
    case Start(base) => s.(runs := s.runs + [Run(Begun, base, 0, "", [], [], [], [], "")])
    case Act(i, step) =>
      if i < |s.runs| then
        var (w, r) := StepRun(address, s.world, s.runs[i], step);
        System(w, s.runs[i := r])
      else s
    case Witnesses(record) => s.(world := Commit(s.world, record))
  }

  function Execute(address: Manifest -> Cid, s: System, events: seq<Event>): System
    decreases |events|
  {
    if events == [] then s else Execute(address, Next(address, s, events[0]), events[1..])
  }

  /** No event of the run writes a manifest under the CID of another one. */
  predicate Clashless(address: Manifest -> Cid, s: System, events: seq<Event>)
    decreases |events|
  {
    events != [] ==>
      && EventClashless(address, s, events[0])
      && Clashless(address, Next(address, s, events[0]), events[1..])
  }

  predicate EventClashless(address: Manifest -> Cid, s: System, e: Event) {
    e.Act? && e.i < |s.runs| ==> NoClash(address, s.world, s.runs[e.i], e.step)
  }

  /** A log holding only epoch 0. */
  function Genesis(address: Manifest -> Cid, rows: seq<Row>, note: string): System {
    var m := Manifest(0, None, rows, note);
    System(World(map[address(m) := m], [address(m)], {}), [])
  }
}

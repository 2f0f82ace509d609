/** The cycle's steps on its files (deploy/lake_epoch_cycle.cljk), and any number of cycles on one ledger. */
module EpochCycle {
  import opened Bytes
  import opened Inventory
  import opened MergeDelta
  import opened EpochLog
  import opened EpochSafety

  class Ledger {
    const address: Manifest -> Cid
    var world: World

    ghost predicate Valid() reads this {
      WorldOk(address, world)
    }

    /** A ledger that holds epoch 0. */
    constructor (address: Manifest -> Cid, rows: seq<Row>, note: string)
      requires rows != [] && Distinct(rows)
      ensures Valid() && this.address == address && world == Genesis(address, rows, note).world
    {
      hide Distinct;
      GenesisOk(address, rows, note);
      this.address := address;
      this.world := Genesis(address, rows, note).world;
    }

    /** The witnesses commit a pending record, if it is the next one. */
    method Witness(record: Record)
      requires Valid()
      modifies this
      ensures Valid() && world == Commit(old(world), record) && Extends(old(world), world)
    {
      CommitKeeps(address, world, record);
      if record in world.pending && record.at == |world.log| {
        world := world.(log := world.log + [record.cid]);
      }
    }
  }

  /**
   How `run!` ends; a stop can come before any step is saved. A clash is where nothing is said of it: the CID
   of the manifest to write is that of another one.
   */
  datatype Outcome = Committed | Nothing | Refused | Stopped | Clash

  /**
   What the outside shows a step: the position of the verified head, the listing two walks agree on, the
   custody text, the records committed before it, whether the run's own record is then submitted in vain or
   committed, the records committed after that, and whether the step is saved.
   */
  datatype Turn = Turn(
    head: nat, listing: seq<Row>, note: string,
    before: seq<Record>, own: bool, during: seq<Record>, saved: bool)

  /** The step `run!` does in this phase; a checked run has none. */
  function Due(r: Run, turn: Turn): Step {
    match r.phase
    case Begun => Head(turn.head, turn.saved)
    case Headed => Walks(turn.listing, turn.saved)
    case Walked => ReadLog(turn.head, turn.saved)
    case LogRead => CutDelta(turn.saved)
    case Cut => WriteManifest(turn.note, turn.saved)
    case Manifested => Settle(turn.saved)
    case Submitted => Check(turn.saved)
    case Checked => Submit
  }

  /**
   Nothing disturbs a fresh run: every step is saved, the head is the end of the log, no other record is
   committed, and the listing is in order, contains the base and agrees with the sizes in the log, which
   holds the base.
   */
  ghost predicate Favourable(w: World, r: Run, turns: seq<Turn>) {
    && r.phase.Begun? && |turns| >= 7 && w.log != []
    && (forall i :: 0 <= i < |turns| ==> Quiet(turns[i], |w.log| - 1))
    && Increasing(r.base) && Increasing(turns[1].listing) && Contains(turns[1].listing, r.base)
    && Contains(LogRows(w.blocks, w.log), r.base)
    && SizesAgree(turns[1].listing, LogRows(w.blocks, w.log))
  }

  ghost predicate Quiet(turn: Turn, head: int) {
    turn.saved && turn.before == [] && turn.own && turn.during == [] && turn.head == head
  }

  ghost predicate SizesAgree(a: seq<Row>, b: seq<Row>) {
    forall x, y :: x in a && y in b && x.cid == y.cid ==> x.size == y.size
  }

  /**
   What the due step of `r` leaves: it is marked done exactly when its check passes and it is saved; the log
   grows only while the record is settled, by the run's own record when nothing else is committed.
   */
  ghost predicate Moved(w: World, v: World, r: Run, q: Run, turn: Turn) {
    && Rank(q.phase) == Rank(r.phase) + (if turn.saved && Passes(v, r, Due(r, turn)) then 1 else 0)
    && q.base == r.base
    && (r.phase.Begun? && !q.phase.Begun? ==> q.epoch == turn.head + 1)
    && (!r.phase.Begun? ==> q.epoch == r.epoch)
    && (r.phase.Headed? && !q.phase.Headed? ==> q.listing == turn.listing)
    && (Rank(r.phase) >= 2 ==> q.listing == r.listing)
    && (Rank(r.phase) >= 4 ==> q.inventory == r.inventory)
    && (Rank(r.phase) >= 5 ==> q.manifest == r.manifest)
    && (!r.phase.Manifested? ==> v.log == w.log) && (!r.phase.Cut? && !r.phase.Manifested? ==> v == w)
    && (r.phase.Manifested? && turn.own && turn.during == [] && r.epoch == |w.log| ==> v.log == w.log + [r.manifest])
  }

  /** A favourable run after `i` steps. */
  ghost predicate Along(start: World, w: World, r: Run, listing: seq<Row>, i: nat) {
    && Rank(r.phase) == i
    && (i >= 1 ==> r.epoch == |start.log|) && (i >= 2 ==> r.listing == listing)
    && (i >= 4 ==> r.inventory != [] && !Contains(LogRows(start.blocks, start.log), listing))
    && w.log == if i <= 5 then start.log else start.log + [r.manifest]
  }

  class Cycle {
    const ledger: Ledger
    var run: Run

    ghost predicate Valid() reads this, ledger {
      ledger.Valid() && RunOk(ledger.world, run)
    }

    constructor (ledger: Ledger, base: seq<Row>)
      requires ledger.Valid()
      ensures Valid() && this.ledger == ledger && run == Run(Begun, base, 0, "", [], [], [], [], "")
    {
      this.ledger := ledger;
      run := Run(Begun, base, 0, "", [], [], [], [], "");
    }

    method Save(saved: bool, phase: Phase)
      modifies this
      ensures run == Mark(old(run), saved, phase)
    {
      if saved {
        run := run.(phase := phase);
      }
    }

    method StepHead(k: nat, saved: bool)
      requires Valid()
      modifies this
      ensures Valid() && (ledger.world, run) == StepRun(ledger.address, old(ledger.world), old(run), Head(k, saved))
    {
      hide WorldOk, RunOk;
      StepKeeps(ledger.address, ledger.world, run, Head(k, saved));
      if run.phase.Begun? && k < |ledger.world.log| {
        run := run.(epoch := k + 1, prev := ledger.world.log[k]);
        Save(saved, Headed);
      }
    }

    method StepWalks(listing: seq<Row>, saved: bool)
      requires Valid()
      modifies this
      ensures Valid() && (ledger.world, run) == StepRun(ledger.address, old(ledger.world), old(run), Walks(listing, saved))
    {
      hide WorldOk, RunOk;
      StepKeeps(ledger.address, ledger.world, run, Walks(listing, saved));
      if run.phase.Headed? && Increasing(run.base) && Increasing(listing) {
        var merged := MergeInventories(run.base, listing);
        if merged.Ok? {
          run := run.(listing := listing, diff := merged.value.rows);
          Save(saved, Walked);
        }
      }
    }

    method StepResolve(k: nat, saved: bool)
      requires Valid()
      modifies this
      ensures Valid() && (ledger.world, run) == StepRun(ledger.address, old(ledger.world), old(run), ReadLog(k, saved))
    {
      hide WorldOk, RunOk;
      StepKeeps(ledger.address, ledger.world, run, ReadLog(k, saved));
      if run.phase.Walked? && k < |ledger.world.log| && k + 1 == run.epoch {
        var rows := Resolved(ledger.world, k);
        if rows.Ok? {
          run := run.(resolved := rows.value);
          Save(saved, LogRead);
        }
      }
    }

    method StepDelta(saved: bool)
      requires Valid()
      modifies this
      ensures Valid() && (ledger.world, run) == StepRun(ledger.address, old(ledger.world), old(run), CutDelta(saved))
    {
      hide WorldOk, RunOk;
      StepKeeps(ledger.address, ledger.world, run, CutDelta(saved));
      if run.phase.LogRead? {
        var delta := EpochDelta(run.resolved, run.diff);
        if delta.Ok? {
          run := run.(inventory := delta.value);
          Save(saved, Cut);
        }
      }
    }

    method StepManifest(note: string, saved: bool)
      requires Valid() && NoClash(ledger.address, ledger.world, run, WriteManifest(note, saved))
      modifies this, ledger
      ensures Valid() && (ledger.world, run) == StepRun(ledger.address, old(ledger.world), old(run), WriteManifest(note, saved))
      ensures Extends(old(ledger.world), ledger.world)
    {
      hide WorldOk, RunOk, Extends;
      StepKeeps(ledger.address, ledger.world, run, WriteManifest(note, saved));
      if run.phase.Cut? && run.inventory != [] {
        var m := Manifest(run.epoch, Some(run.prev), run.inventory, note);
        ledger.world := ledger.world.(blocks := ledger.world.blocks[ledger.address(m) := m]);
        run := run.(manifest := ledger.address(m));
        Save(saved, Manifested);
      }
    }

    method StepSubmit()
      requires Valid()
      modifies ledger
      ensures Valid() && (ledger.world, run) == StepRun(ledger.address, old(ledger.world), old(run), Submit)
      ensures Extends(old(ledger.world), ledger.world)
    {
      hide WorldOk, RunOk, Extends;
      StepKeeps(ledger.address, ledger.world, run, Submit);
      if run.phase.Manifested? {
        ledger.world := ledger.world.(pending := ledger.world.pending + {Record(run.epoch, run.manifest)});
      }
    }

    method StepSettle(saved: bool)
      requires Valid()
      modifies this
      ensures Valid() && (ledger.world, run) == StepRun(ledger.address, old(ledger.world), old(run), Settle(saved))
    {
      hide WorldOk, RunOk;
      StepKeeps(ledger.address, ledger.world, run, Settle(saved));
      if run.phase.Manifested? && run.epoch < |ledger.world.log| && ledger.world.log[run.epoch] == run.manifest {
        Save(saved, Submitted);
      }
    }

    method StepCheck(saved: bool)
      requires Valid()
      modifies this
      ensures Valid() && (ledger.world, run) == StepRun(ledger.address, old(ledger.world), old(run), Check(saved))
    {
      hide WorldOk, RunOk;
      StepKeeps(ledger.address, ledger.world, run, Check(saved));
      if run.phase.Submitted? && run.epoch < |ledger.world.log| {
        var rows := Resolved(ledger.world, run.epoch);
        if rows.Ok? && Contains(rows.value, run.listing) {
          Save(saved, Checked);
        }
      }
    }

    /** One execution of any step. */
    method Take(step: Step)
      requires Valid() && NoClash(ledger.address, ledger.world, run, step)
      modifies this, ledger
      ensures Valid() && (ledger.world, run) == StepRun(ledger.address, old(ledger.world), old(run), step)
      ensures Extends(old(ledger.world), ledger.world)
    {
      hide WorldOk, RunOk, StepRun;
      match step
      case Head(k, saved) => StepHead(k, saved);
      case Walks(listing, saved) => StepWalks(listing, saved);
      case ReadLog(k, saved) => StepResolve(k, saved);
      case CutDelta(saved) => StepDelta(saved);
      case WriteManifest(note, saved) => StepManifest(note, saved);
      case Submit => StepSubmit();
      case Settle(saved) => StepSettle(saved);
      case Check(saved) => StepCheck(saved);
    }

    method Witnessed(records: seq<Record>)
      requires Valid()
      modifies ledger
      ensures Valid() && Extends(old(ledger.world), ledger.world)
      ensures records == [] ==> ledger.world == old(ledger.world)
    {
      hide WorldOk, RunOk, Commit;
      for i := 0 to |records|
        invariant Valid() && Extends(old(ledger.world), ledger.world)
        invariant i == 0 ==> ledger.world == old(ledger.world)
      {
        RunLinked();
        ghost var before := ledger.world;
        ledger.Witness(records[i]);
        RunStable(before, ledger.world, run);
      }
    }

    lemma RunLinked()
      requires Valid()
      ensures Linked(ledger.world.blocks, ledger.world.log)
    {
    }

    /** The record is submitted, and the witnesses may commit it and others. */
    method SubmitAndWait(turn: Turn)
      requires Valid() && run.phase.Manifested?
      modifies ledger
      ensures Valid() && Extends(old(ledger.world), ledger.world)
      ensures turn.own && turn.during == [] && run.epoch == |old(ledger.world.log)| ==>
                ledger.world.log == old(ledger.world.log) + [run.manifest]
    {
      hide WorldOk, RunOk, Extends;
      ghost var w := ledger.world;
      StepPasses(ledger.address, w, run, Submit);
      StepSubmit();
      ghost var v := ledger.world;
      RunLinked();
      if turn.own {
        ledger.Witness(Record(run.epoch, run.manifest));
        RunStable(v, ledger.world, run);
      } else {
        ExtendsItself(v);
      }
      ghost var u := ledger.world;
      ExtendsTransitive(w, v, u);
      Witnessed(turn.during);
      ExtendsTransitive(w, u, ledger.world);
    }

    /** The step the loop of `run!` does next: the first one not marked done. */
    method DueStep(turn: Turn)
      requires Valid() && NoClash(ledger.address, ledger.world, run, WriteManifest(turn.note, turn.saved))
      modifies this, ledger
      ensures Valid() && Extends(old(ledger.world), ledger.world) && run.base == old(run.base)
      ensures Moved(old(ledger.world), ledger.world, old(run), run, turn)
    {
      hide WorldOk, RunOk, Extends, Passes;
      ghost var w := ledger.world;
      ExtendsItself(w);
      StepPasses(ledger.address, w, run, Due(run, turn));
      PassesAlike(w, StepRun(ledger.address, w, run, Due(run, turn)).0, run, Due(run, turn));
      match run.phase
      case Begun => StepHead(turn.head, turn.saved);
      case Headed => StepWalks(turn.listing, turn.saved);
      case Walked => StepResolve(turn.head, turn.saved);
      case LogRead => StepDelta(turn.saved);
      case Cut => StepManifest(turn.note, turn.saved);
      case Manifested =>
        SubmitAndWait(turn);
        StepPasses(ledger.address, ledger.world, run, Settle(turn.saved));
        StepSettle(turn.saved);
      case Submitted => StepCheck(turn.saved);
      case Checked =>
    }

    /**
     run!: the steps not done yet, one after the other. It reports a commit exactly when every step is done,
     and the log then holds every listed row; it reports nothing to do only when the log already holds
     everything the listing has beyond the base. An undisturbed run reports one of the two: a commit at the
     end of the log when the listing has a row the log lacks, nothing to do otherwise.
     */
    method RunCycle(turns: seq<Turn>) returns (outcome: Outcome)
      requires Valid()
      modifies this, ledger
      ensures Valid() && Extends(old(ledger.world), ledger.world) && run.base == old(run.base)
      ensures Rank(run.phase) >= Rank(old(run.phase))
      ensures outcome.Clash? ==>
                exists i :: 0 <= i < |turns| &&
                            !NoClash(ledger.address, ledger.world, run, WriteManifest(turns[i].note, turns[i].saved))
      ensures outcome.Committed? <==> run.phase.Checked?
      ensures outcome.Committed? ==>
                && run.epoch < |ledger.world.log| && ledger.world.log[run.epoch] == run.manifest
                && Contains(LogRows(ledger.world.blocks, ledger.world.log[..run.epoch + 1]), run.listing)
      ensures outcome.Nothing? ==>
                && run.phase.Cut? && run.epoch <= |ledger.world.log|
                && Contains(LogRows(ledger.world.blocks, ledger.world.log[..run.epoch]), Minus(run.listing, run.base))
      ensures Favourable(old(ledger.world), old(run), turns) && !outcome.Clash? ==>
                if Contains(LogRows(old(ledger.world).blocks, old(ledger.world).log), turns[1].listing)
                then outcome.Nothing? && ledger.world.log == old(ledger.world).log
                else outcome.Committed? && ledger.world.log == old(ledger.world).log + [run.manifest]
    {
      hide WorldOk, RunOk, Extends, LogRows, Contains, Minus, Favourable, Along, NoClash, Moved, Quiet;
      ExtendsItself(ledger.world);
      ghost var w0, r0 := ledger.world, run;
      ghost var calm := Favourable(w0, r0, turns);
      if calm {
        FavourableStart(w0, r0, turns);
      }
      for i := 0 to |turns|
        invariant Valid() && Extends(w0, ledger.world) && run.base == r0.base && Rank(run.phase) >= Rank(r0.phase)
        invariant calm ==> i <= 7 && Along(w0, ledger.world, run, turns[1].listing, i)
      {
        ghost var w, r := ledger.world, run;
        if calm {
          AlongParts(w0, w, r, r0, turns, i);
          QuietParts(turns[i], |w0.log| - 1);
        }
        if run.phase.Checked? {
          break;
        }
        var end := TakeTurn(turns[i]);
        ExtendsTransitive(w0, w, ledger.world);
        if calm && end != Some(Clash) {
          AlongStep(ledger.address, w0, w, ledger.world, r, run, r0, turns, i);
        }
        if end.Some? {
          return end.value;
        }
      }
      if calm {
        AlongParts(w0, ledger.world, run, r0, turns, 7);
      }
      if run.phase.Checked? {
        CheckedCovers(ledger.world, run);
        return Committed;
      }
      return Stopped;
    }

    /** One round of the loop of `run!`; None when it goes on. */
    method TakeTurn(turn: Turn) returns (end: Option<Outcome>)
      requires Valid() && !run.phase.Checked?
      modifies this, ledger
      ensures Valid() && Extends(old(ledger.world), ledger.world) && run.base == old(run.base)
      ensures end == Some(Clash) ==>
                !NoClash(ledger.address, ledger.world, run, WriteManifest(turn.note, turn.saved)) && run == old(run)
      ensures end != Some(Clash) && turn.before == [] ==> Moved(old(ledger.world), ledger.world, old(run), run, turn)
      ensures end.None? ==> Rank(run.phase) == Rank(old(run.phase)) + 1 && (run.phase.Cut? ==> run.inventory != [])
      ensures end == Some(Nothing) ==>
                && run.phase.Cut? && run.inventory == [] && old(run.phase).LogRead? && run.epoch <= |ledger.world.log|
                && Contains(LogRows(ledger.world.blocks, ledger.world.log[..run.epoch]), Minus(run.listing, run.base))
      ensures end.Some? && end != Some(Nothing) ==> end.value != Committed && run.phase == old(run.phase)
    {
      hide WorldOk, RunOk, Extends, LogRows, Contains, Minus, Passes, NoClash;
      var due := run.phase;
      ghost var w := ledger.world;
      Witnessed(turn.before);
      ghost var v := ledger.world;
      if !NoClash(ledger.address, ledger.world, run, WriteManifest(turn.note, turn.saved)) {
        return Some(Clash);
      }
      DueStep(turn);
      ExtendsTransitive(w, v, ledger.world);
      if run.phase == due {
        return Some(if turn.saved then Refused else Stopped);
      }
      if due.LogRead? && run.inventory == [] {
        NothingLeft(ledger.address, ledger.world, run);
        return Some(Nothing);
      }
      return None;
    }
  }

  lemma QuietParts(turn: Turn, head: int)
    requires Quiet(turn, head)
    ensures turn.before == [] && turn.saved
  {
  }

  // ----- the undisturbed run

  /** A step's check reads no more of the world than this. */
  lemma PassesAlike(w: World, v: World, r: Run, step: Step)
    requires v.log == w.log && (step.Check? ==> v.blocks == w.blocks)
    ensures Passes(v, r, step) <==> Passes(w, r, step)
    ensures step.Submit? ==> !Passes(w, r, step)
  {
  }

  lemma FavourableStart(w: World, r: Run, turns: seq<Turn>)
    requires Favourable(w, r, turns)
    ensures Along(w, w, r, turns[1].listing, 0) && |turns| >= 7
  {
  }

  lemma AlongParts(start: World, w: World, r: Run, r0: Run, turns: seq<Turn>, i: nat)
    requires Favourable(start, r0, turns) && Along(start, w, r, turns[1].listing, i) && i <= 7
    ensures i < |turns| ==> Quiet(turns[i], |start.log| - 1)
    ensures Rank(r.phase) == i && (r.phase.Checked? <==> i == 7)
    ensures i == 7 ==>
              w.log == start.log + [r.manifest] && !Contains(LogRows(start.blocks, start.log), turns[1].listing)
  {
    hide LogRows, Contains, Increasing, SizesAgree;
  }

  lemma {:induction false} MinusDistinct(next: seq<Row>, base: seq<Row>)
    requires Distinct(next)
    ensures Distinct(Minus(next, base))
    decreases |next|
  {
    if next != [] {
      assert forall i, j :: 0 <= i < j < |next[1..]| ==> next[1..][i] == next[i + 1] && next[1..][j] == next[j + 1];
      MinusDistinct(next[1..], base);
      MinusExact(next[1..], base);
      forall row | row in Minus(next[1..], base)
        ensures row.cid != next[0].cid
      {
        var i :| 0 <= i < |next[1..]| && next[1..][i] == row;
        assert next[i + 1] == row;
      }
    }
  }

  /** A listing that agrees with the log in its sizes gives a compatible diff. */
  lemma DiffCompatible(log: seq<Row>, listing: seq<Row>, base: seq<Row>)
    requires Increasing(listing) && SizesAgree(listing, log)
    ensures Compatible(log, Minus(listing, base))
  {
    hide Increasing, Minus;
    IncreasingIsDistinct(listing);
    MinusDistinct(listing, base);
    MinusExact(listing, base);
  }

  /** Nothing is left of the diff exactly when the log has the whole listing. */
  lemma EmptyExact(log: seq<Row>, listing: seq<Row>, base: seq<Row>, inventory: seq<Row>)
    requires Distinct(log) && Contains(log, base) && Contains(listing, base)
    requires DeltaAccepts(log, Minus(listing, base)) && inventory == NotHeld(Minus(listing, base), Held(log))
    ensures inventory == [] <==> Contains(log, listing)
    ensures Contains(log + inventory, listing)
  {
    hide Held, NotHeld, DeltaAccepts, Minus;
    DeltaCompletes(log, Minus(listing, base), inventory);
    MinusExact(listing, base);
    if inventory != [] {
      NewRow(log, inventory);
      assert inventory[0] in log + inventory;
    }
  }

  lemma NewRow(log: seq<Row>, inventory: seq<Row>)
    requires Distinct(log + inventory) && inventory != []
    ensures inventory[0] !in log
  {
    forall i | 0 <= i < |log|
      ensures log[i] != inventory[0]
    {
      assert (log + inventory)[i] == log[i] && (log + inventory)[|log|] == inventory[0];
    }
  }

  /** A run at the end of the log at the start has read that log. */
  lemma ReadAtStart(address: Manifest -> Cid, start: World, w: World, r: Run)
    requires WorldOk(address, start) && Extends(start, w) && RunOk(w, r) && r.epoch == |start.log| && Rank(r.phase) >= 3
    ensures r.resolved == LogRows(start.blocks, start.log) && Distinct(r.resolved)
    ensures r.resolved == LogRows(w.blocks, w.log[..r.epoch])
    ensures Contains(r.listing, r.base) && r.diff == Minus(r.listing, r.base)
    ensures Rank(r.phase) >= 4 ==> DeltaAccepts(r.resolved, r.diff) && r.inventory == NotHeld(r.diff, Held(r.resolved))
  {
    hide LogRows, Distinct, Contains, DeltaAccepts, NotHeld, Held, Minus, Continues, Linked, Extends;
    WorldLinked(address, start);
    LogStable(start, w, |start.log|);
    assert start.log[..|start.log|] == start.log;
  }

  /** Whether anything is left to commit. */
  lemma CutExact(address: Manifest -> Cid, start: World, w: World, r: Run)
    requires WorldOk(address, start) && Extends(start, w) && RunOk(w, r) && r.epoch == |start.log| && Rank(r.phase) >= 4
    requires Contains(LogRows(start.blocks, start.log), r.base)
    ensures r.inventory == [] <==> Contains(LogRows(start.blocks, start.log), r.listing)
  {
    hide LogRows, Distinct, Contains, DeltaAccepts, NotHeld, Held, Minus, WorldOk, RunOk, Extends;
    ReadAtStart(address, start, w, r);
    EmptyExact(r.resolved, r.listing, r.base, r.inventory);
  }

  /** The log with the run's own epoch has the whole listing. */
  lemma CommittedCovers(address: Manifest -> Cid, start: World, w: World, r: Run)
    requires WorldOk(address, start) && Extends(start, w) && RunOk(w, r) && r.epoch == |start.log| && Rank(r.phase) >= 6
    requires Contains(LogRows(start.blocks, start.log), r.base)
    ensures r.epoch < |w.log| && Contains(LogRows(w.blocks, w.log[..r.epoch + 1]), r.listing)
  {
    hide LogRows, Distinct, Contains, DeltaAccepts, NotHeld, Held, Minus, WorldOk, Extends, Continues;
    ReadAtStart(address, start, w, r);
    EmptyExact(r.resolved, r.listing, r.base, r.inventory);
    assert w.log[..r.epoch + 1] == w.log[..r.epoch] + [w.log[r.epoch]];
    LogRowsAppend(w.blocks, w.log[..r.epoch], w.log[r.epoch]);
  }

  /** Each step of a favourable run passes, and the next one can follow unless nothing is left to commit. */
  lemma AlongStep(address: Manifest -> Cid, start: World, w: World, v: World, r: Run, q: Run, r0: Run, turns: seq<Turn>, i: nat)
    requires Favourable(start, r0, turns) && r.base == r0.base && i < 7 && i < |turns|
    requires WorldOk(address, start) && RunOk(w, r) && RunOk(v, q) && Extends(start, w) && Extends(start, v)
    requires Along(start, w, r, turns[1].listing, i) && Moved(w, v, r, q, turns[i])
    ensures Rank(q.phase) == i + 1
    ensures i != 3 || q.inventory != [] ==> Along(start, v, q, turns[1].listing, i + 1)
    ensures i == 3 && q.inventory == [] ==>
              v.log == start.log && Contains(LogRows(start.blocks, start.log), turns[1].listing)
  {
    hide LogRows, Distinct, Contains, DeltaAccepts, NotHeld, Held, Minus, Continues, Linked, WorldOk, Extends,
         SizesAgree, Increasing, Compatible, RunOk;
    AlongParts(start, w, r, r0, turns, i);
    StepDue(address, start, w, v, r, r0, turns, i);
    if i == 3 {
      CutExact(address, start, v, q);
    }
  }

  lemma StepDue(address: Manifest -> Cid, start: World, w: World, v: World, r: Run, r0: Run, turns: seq<Turn>, i: nat)
    requires Favourable(start, r0, turns) && r.base == r0.base && i < 7 && i < |turns|
    requires WorldOk(address, start) && RunOk(w, r) && Extends(start, w) && Along(start, w, r, turns[1].listing, i)
    requires if i == 5 then v.log == w.log + [r.manifest] else v.log == w.log
    requires i == 6 ==> v == w
    ensures Passes(v, r, Due(r, turns[i]))
  {
    hide LogRows, Distinct, Contains, DeltaAccepts, NotHeld, Held, Minus, Continues, Linked, WorldOk, Extends,
         SizesAgree, Increasing, Compatible, RunOk;
    if i == 3 {
      ReadAtStart(address, start, w, r);
      DiffCompatible(r.resolved, r.listing, r.base);
    }
    if i == 6 {
      CommittedCovers(address, start, w, r);
    }
  }

  lemma ExtendsItself(w: World)
    ensures Extends(w, w)
  {
  }

  lemma ExtendsTransitive(w: World, v: World, u: World)
    requires Extends(w, v) && Extends(v, u)
    ensures Extends(w, u)
  {
  }

  lemma CheckedCovers(w: World, r: Run)
    requires RunOk(w, r) && r.phase.Checked?
    ensures r.epoch < |w.log| && w.log[r.epoch] == r.manifest
    ensures Contains(LogRows(w.blocks, w.log[..r.epoch + 1]), r.listing)
  {
  }

  lemma NothingLeft(address: Manifest -> Cid, w: World, r: Run)
    requires WorldOk(address, w) && RunOk(w, r) && r.phase.Cut? && r.inventory == []
    ensures r.epoch <= |w.log| && Contains(LogRows(w.blocks, w.log[..r.epoch]), Minus(r.listing, r.base))
  {
    hide LogRows, Contains, DeltaAccepts, NotHeld, Held, Minus, Distinct;
    var before := LogRows(w.blocks, w.log[..r.epoch]);
    LogRowsPrefix(w.blocks, w.log, r.epoch);
    DistinctPrefix(LogRows(w.blocks, w.log), before);
    DeltaCompletes(before, r.diff, []);
    AllIn(before, r.diff);
  }

  lemma AllIn(rows: seq<Row>, part: seq<Row>)
    requires forall row :: row in part ==> row in rows
    ensures Contains(rows, part)
  {
  }

  // ----- any number of cycles on one ledger

  function RunsOf(cycles: seq<Cycle>): (runs: seq<Run>)
    reads cycles
    ensures |runs| == |cycles| && forall i :: 0 <= i < |cycles| ==> runs[i] == cycles[i].run
  {
    if cycles == [] then [] else [cycles[0].run] + RunsOf(cycles[1..])
  }

  /** The cycles of all nodes; each event is one step of one of them or a commit of the witnesses. */
  class Lake {
    const ledger: Ledger
    var cycles: seq<Cycle>

    ghost function State(): System reads this, ledger, cycles {
      System(ledger.world, RunsOf(cycles))
    }

    ghost predicate Valid() reads this, ledger, cycles {
      && SystemOk(ledger.address, State())
      && (forall i :: 0 <= i < |cycles| ==> cycles[i].ledger == ledger)
      && forall i, j :: 0 <= i < j < |cycles| ==> cycles[i] != cycles[j]
    }

    constructor (address: Manifest -> Cid, rows: seq<Row>, note: string)
      requires rows != [] && Distinct(rows)
      ensures Valid() && fresh(ledger) && ledger.address == address && cycles == []
      ensures State() == Genesis(address, rows, note)
    {
      ledger := new Ledger(address, rows, note);
      cycles := [];
    }

    method Do(e: Event)
      requires Valid() && EventClashless(ledger.address, State(), e)
      modifies this, ledger, cycles
      ensures Valid() && State() == Next(ledger.address, old(State()), e)
      ensures forall k :: 0 <= k < |cycles| ==> cycles[k] in old(cycles) || fresh(cycles[k])
    {
      hide SystemOk, StepRun, Commit, RunsOf;
      ghost var s := State();
      NextKeeps(ledger.address, s, e);
      OkParts(ledger.address, s);
      match e {
        case Start(base) =>
          var c := new Cycle(ledger, base);
          cycles := cycles + [c];
        case Act(i, step) =>
          if i < |cycles| {
            assert s.runs[i] == cycles[i].run;
            cycles[i].Take(step);
          }
        case Witnesses(record) =>
          ledger.Witness(record);
      }
      assert State().runs == Next(ledger.address, s, e).runs;
    }

    /** Whatever cycles start, stop, repeat steps and race: the log stays safe and only grows. */
    method DoAll(events: seq<Event>)
      requires Valid() && Clashless(ledger.address, State(), events)
      modifies this, ledger, cycles
      ensures Valid() && State() == Execute(ledger.address, old(State()), events)
      ensures Distinct(LogRows(ledger.world.blocks, ledger.world.log)) && Linked(ledger.world.blocks, ledger.world.log)
      ensures Extends(old(ledger.world), ledger.world)
    {
      hide SystemOk, Next, RunsOf, Execute, Clashless, EventClashless;
      ghost var s := State();
      assert events[0..] == events;
      for i := 0 to |events|
        invariant Valid() && Execute(ledger.address, s, events) == Execute(ledger.address, State(), events[i..])
        invariant Clashless(ledger.address, State(), events[i..])
        invariant forall k :: 0 <= k < |cycles| ==> cycles[k] in old(cycles) || fresh(cycles[k])
      {
        ExecuteFirst(ledger.address, State(), events[i..]);
        assert events[i..][1..] == events[i + 1..];
        Do(events[i]);
      }
      ExecuteKeeps(ledger.address, s, events);
      ExecuteNone(ledger.address, State());
      OkParts(ledger.address, State());
    }
  }

  lemma ExecuteFirst(address: Manifest -> Cid, s: System, events: seq<Event>)
    requires events != []
    ensures Execute(address, s, events) == Execute(address, Next(address, s, events[0]), events[1..])
    ensures Clashless(address, s, events) ==>
              EventClashless(address, s, events[0]) && Clashless(address, Next(address, s, events[0]), events[1..])
  {
  }

  lemma ExecuteNone(address: Manifest -> Cid, s: System)
    ensures Execute(address, s, []) == s
  {
  }

  lemma OkParts(address: Manifest -> Cid, s: System)
    requires SystemOk(address, s)
    ensures WorldOk(address, s.world)
    ensures forall i :: 0 <= i < |s.runs| ==> RunOk(s.world, s.runs[i])
  {
  }
}

/** What every interleaving of epoch cycles keeps. */
module EpochSafety {
  import opened Bytes
  import opened Inventory
  import opened MergeDelta
  import opened EpochLog
  import opened InventoryText

  function RowsAt(blocks: map<Cid, Manifest>, cid: Cid): seq<Row> {
    if cid in blocks then blocks[cid].rows else []
  }

  /** The rows of all epochs of the log, in epoch order. */
  function LogRows(blocks: map<Cid, Manifest>, log: seq<Cid>): seq<Row> {
    if log == [] then [] else LogRows(blocks, log[..|log| - 1]) + RowsAt(blocks, log[|log| - 1])
  }

  /** Every committed manifest is stored, carries its sequence number and the CID before it, and is not empty. */
  ghost predicate Linked(blocks: map<Cid, Manifest>, log: seq<Cid>) {
    forall i :: 0 <= i < |log| ==>
      && log[i] in blocks && blocks[log[i]].epoch == i && blocks[log[i]].rows != []
      && (i > 0 ==> blocks[log[i]].prev == Some(log[i - 1]))
  }

  /** A manifest that continues the log at position `at` with rows no earlier epoch has. */
  ghost predicate Continues(blocks: map<Cid, Manifest>, log: seq<Cid>, at: nat, cid: Cid) {
    && 1 <= at <= |log| && cid in blocks
    && blocks[cid].epoch == at && blocks[cid].prev == Some(log[at - 1]) && blocks[cid].rows != []
    && Distinct(LogRows(blocks, log[..at]) + blocks[cid].rows)
  }

  ghost predicate Addressed(address: Manifest -> Cid, blocks: map<Cid, Manifest>) {
    forall cid :: cid in blocks ==> address(blocks[cid]) == cid
  }

  ghost predicate WorldOk(address: Manifest -> Cid, w: World) {
    && Addressed(address, w.blocks)
    && w.log != [] && Linked(w.blocks, w.log)
    && Distinct(LogRows(w.blocks, w.log))
    && forall record :: record in w.pending ==> Continues(w.blocks, w.log, record.at, record.cid)
  }

  /** What a run's files say, as far as its saved steps vouch for them. */
  ghost predicate RunOk(w: World, r: Run) {
    && (Rank(r.phase) >= 1 ==> 1 <= r.epoch <= |w.log| && r.prev == w.log[r.epoch - 1])
    && (Rank(r.phase) >= 2 ==> Contains(r.listing, r.base) && r.diff == Minus(r.listing, r.base))
    && (Rank(r.phase) >= 3 ==> r.resolved == LogRows(w.blocks, w.log[..r.epoch]))
    && (Rank(r.phase) >= 4 ==> DeltaAccepts(r.resolved, r.diff) && r.inventory == NotHeld(r.diff, Held(r.resolved)))
    && (Rank(r.phase) >= 5 ==>
          && r.inventory != [] && r.manifest in w.blocks
          && Continues(w.blocks, w.log, r.epoch, r.manifest) && w.blocks[r.manifest].rows == r.inventory)
    && (Rank(r.phase) >= 6 ==> r.epoch < |w.log| && w.log[r.epoch] == r.manifest)
    && (Rank(r.phase) >= 7 ==> Contains(LogRows(w.blocks, w.log[..r.epoch + 1]), r.listing))
  }

  ghost predicate SystemOk(address: Manifest -> Cid, s: System) {
    WorldOk(address, s.world) && forall i :: 0 <= i < |s.runs| ==> RunOk(s.world, s.runs[i])
  }

  /** Blocks are only added and the log only grows. */
  ghost predicate Extends(w: World, v: World) {
    && (forall cid :: cid in w.blocks ==> cid in v.blocks && v.blocks[cid] == w.blocks[cid])
    && w.log <= v.log
  }

  // ----- the log under extension

  lemma {:induction false} LogRowsStable(a: map<Cid, Manifest>, b: map<Cid, Manifest>, log: seq<Cid>)
    requires forall cid :: cid in a ==> cid in b && b[cid] == a[cid]
    requires forall cid :: cid in log ==> cid in a
    ensures LogRows(b, log) == LogRows(a, log)
    decreases |log|
  {
    if log != [] {
      var n := |log| - 1;
      assert log[n] in log;
      LogRowsStable(a, b, log[..n]);
    }
  }

  lemma LogStable(w: World, v: World, k: nat)
    requires Extends(w, v) && Linked(w.blocks, w.log) && k <= |w.log|
    ensures v.log[..k] == w.log[..k]
    ensures LogRows(v.blocks, v.log[..k]) == LogRows(w.blocks, w.log[..k])
  {
    hide LogRows;
    assert v.log[..k] == w.log[..k];
    LogRowsStable(w.blocks, v.blocks, w.log[..k]);
  }

  lemma ContinuesStable(w: World, v: World, at: nat, cid: Cid)
    requires Extends(w, v) && Linked(w.blocks, w.log) && Continues(w.blocks, w.log, at, cid)
    ensures Continues(v.blocks, v.log, at, cid)
  {
    hide LogRows, Distinct;
    LogStable(w, v, at);
  }

  lemma RunStable(w: World, v: World, r: Run)
    requires Extends(w, v) && Linked(w.blocks, w.log) && RunOk(w, r)
    ensures RunOk(v, r)
  {
    hide LogRows, Distinct, Contains, DeltaAccepts, NotHeld, Held, Minus, Continues, Linked;
    if Rank(r.phase) >= 3 {
      LogStable(w, v, r.epoch);
    }
    if Rank(r.phase) >= 5 {
      ContinuesStable(w, v, r.epoch, r.manifest);
    }
    if Rank(r.phase) >= 6 {
      LogStable(w, v, r.epoch + 1);
    }
  }

  // ----- the walk

  lemma LogRowsAppend(blocks: map<Cid, Manifest>, log: seq<Cid>, cid: Cid)
    ensures LogRows(blocks, log + [cid]) == LogRows(blocks, log) + RowsAt(blocks, cid)
  {
    assert (log + [cid])[..|log|] == log;
  }

  /** The manifests of the log, in epoch order. */
  function Manifests(blocks: map<Cid, Manifest>, log: seq<Cid>): (r: seq<Manifest>)
    requires forall cid :: cid in log ==> cid in blocks
    ensures |r| == |log|
  {
    seq(|log|, i requires 0 <= i < |log| => blocks[log[i]])
  }

  lemma {:induction false} JoinedManifests(blocks: map<Cid, Manifest>, log: seq<Cid>)
    requires forall cid :: cid in log ==> cid in blocks
    ensures Joined(Manifests(blocks, log)) == LogRows(blocks, log)
    decreases |log|
  {
    if log != [] {
      var n := |log| - 1;
      JoinedManifests(blocks, log[..n]);
      assert Manifests(blocks, log)[..n] == Manifests(blocks, log[..n]);
    }
  }

  lemma {:induction false} WalkFromLinked(blocks: map<Cid, Manifest>, log: seq<Cid>, k: nat, acc: seq<Manifest>)
    requires Linked(blocks, log) && k < |log|
    ensures Walk(blocks, k, log[k], acc) == Ok(Manifests(blocks, log[..k + 1]) + acc)
    decreases k
  {
    var m := blocks[log[k]];
    assert Manifests(blocks, log[..k + 1]) == Manifests(blocks, log[..k]) + [m];
    if k > 0 {
      WalkFromLinked(blocks, log, k - 1, [m] + acc);
      assert (Manifests(blocks, log[..k]) + [m]) + acc == Manifests(blocks, log[..k]) + ([m] + acc);
    } else {
      assert Manifests(blocks, log[..0]) == [];
      assert [] + [m] == [m];
    }
  }

  /** Resolving a committed head never fails and writes exactly the epochs up to it, in order. */
  lemma ResolveIsLog(address: Manifest -> Cid, w: World, k: nat)
    requires WorldOk(address, w) && k < |w.log|
    ensures Walk(w.blocks, k, w.log[k], []) == Ok(Manifests(w.blocks, w.log[..k + 1]))
    ensures Resolved(w, k) == Ok(LogRows(w.blocks, w.log[..k + 1]))
  {
    hide Walk, Joined, LogRows, Distinct;
    WalkFromLinked(w.blocks, w.log, k, []);
    assert Manifests(w.blocks, w.log[..k + 1]) + [] == Manifests(w.blocks, w.log[..k + 1]);
    JoinedManifests(w.blocks, w.log[..k + 1]);
  }

  /** `ms` are manifests of epochs 0 to n, each naming the one before, the last one stored under `cid`. */
  ghost predicate Chain(blocks: map<Cid, Manifest>, n: nat, cid: Cid, ms: seq<Manifest>) {
    && |ms| == n + 1 && cid in blocks && blocks[cid] == ms[n]
    && (forall i :: 0 <= i <= n ==> ms[i].epoch == i)
    && forall i :: 0 < i <= n ==> ms[i].prev.Some? && ms[i].prev.value in blocks && blocks[ms[i].prev.value] == ms[i - 1]
  }

  lemma {:induction false} WalkFindsChain(blocks: map<Cid, Manifest>, n: nat, cid: Cid, acc: seq<Manifest>, ms: seq<Manifest>)
    requires Chain(blocks, n, cid, ms)
    ensures Walk(blocks, n, cid, acc) == Ok(ms + acc)
    decreases n
  {
    assert ms == ms[..n] + [ms[n]];
    assert (ms[..n] + [ms[n]]) + acc == ms[..n] + ([ms[n]] + acc);
    if n > 0 {
      WalkFindsChain(blocks, n - 1, ms[n].prev.value, [ms[n]] + acc, ms[..n]);
    } else {
      assert ms[..0] == [];
      assert [] + ([ms[0]] + acc) == [ms[0]] + acc;
    }
  }

  lemma {:induction false} WalkIsChain(blocks: map<Cid, Manifest>, n: nat, cid: Cid, acc: seq<Manifest>) returns (ms: seq<Manifest>)
    requires Walk(blocks, n, cid, acc).Ok?
    ensures Chain(blocks, n, cid, ms)
    decreases n
  {
    var m := blocks[cid];
    if n == 0 {
      ms := [m];
    } else {
      var before := WalkIsChain(blocks, n - 1, m.prev.value, [m] + acc);
      ms := before + [m];
    }
  }

  /** Over any store, honest or not, the walk succeeds exactly on a chain down to epoch 0, and yields that chain. */
  lemma WalkExact(blocks: map<Cid, Manifest>, n: nat, cid: Cid)
    ensures Walk(blocks, n, cid, []).Ok? <==> exists ms :: Chain(blocks, n, cid, ms)
    ensures forall ms :: Chain(blocks, n, cid, ms) ==> Walk(blocks, n, cid, []) == Ok(ms)
  {
    hide Chain, Walk;
    if Walk(blocks, n, cid, []).Ok? {
      var ms := WalkIsChain(blocks, n, cid, []);
    }
    forall ms | Chain(blocks, n, cid, ms)
      ensures Walk(blocks, n, cid, []) == Ok(ms)
    {
      WalkFindsChain(blocks, n, cid, [], ms);
      assert ms + [] == ms;
    }
  }

  // ----- the steps

  lemma {:induction false} LogRowsPrefix(blocks: map<Cid, Manifest>, log: seq<Cid>, k: nat)
    requires k <= |log|
    ensures LogRows(blocks, log[..k]) <= LogRows(blocks, log)
    decreases |log|
  {
    if k < |log| {
      var n := |log| - 1;
      assert log[..n][..k] == log[..k];
      LogRowsPrefix(blocks, log[..n], k);
    } else {
      assert log[..k] == log;
    }
  }

  lemma DistinctPrefix(rows: seq<Row>, prefix: seq<Row>)
    requires Distinct(rows) && prefix <= rows
    ensures Distinct(prefix)
  {
    forall i, j | 0 <= i < j < |prefix|
      ensures prefix[i].cid != prefix[j].cid
    {
      assert prefix[i] == rows[i] && prefix[j] == rows[j];
    }
  }

  lemma ManifestContinues(address: Manifest -> Cid, w: World, r: Run, note: string)
    requires WorldOk(address, w) && RunOk(w, r) && r.phase.Cut? && r.inventory != []
    requires Free(address, w.blocks, Manifest(r.epoch, Some(r.prev), r.inventory, note))
    ensures var m := Manifest(r.epoch, Some(r.prev), r.inventory, note);
            var v := w.(blocks := w.blocks[address(m) := m]);
            Extends(w, v) && Continues(v.blocks, v.log, r.epoch, address(m))
  {
    hide LogRows, Contains, DeltaAccepts, NotHeld, Held, Minus, Distinct;
    var m := Manifest(r.epoch, Some(r.prev), r.inventory, note);
    var v := w.(blocks := w.blocks[address(m) := m]);
    assert address(m) in w.blocks ==> w.blocks[address(m)] == m;
    assert Extends(w, v);
    var before := LogRows(w.blocks, w.log[..r.epoch]);
    LogRowsPrefix(w.blocks, w.log, r.epoch);
    DistinctPrefix(LogRows(w.blocks, w.log), before);
    DeltaCompletes(before, r.diff, r.inventory);
    LogStable(w, v, r.epoch);
  }

  lemma WorldStable(address: Manifest -> Cid, w: World, v: World)
    requires WorldOk(address, w) && Extends(w, v) && v.log == w.log && v.pending == w.pending
    requires Addressed(address, v.blocks)
    ensures WorldOk(address, v)
  {
    hide LogRows, Distinct, Continues, Addressed;
    LogStable(w, v, |w.log|);
    assert v.log[..|w.log|] == v.log && w.log[..|w.log|] == w.log;
    forall record | record in v.pending
      ensures Continues(v.blocks, v.log, record.at, record.cid)
    {
      ContinuesStable(w, v, record.at, record.cid);
    }
  }

  lemma ManifestKeeps(address: Manifest -> Cid, w: World, r: Run, note: string, saved: bool)
    requires WorldOk(address, w) && RunOk(w, r) && r.phase.Cut? && r.inventory != []
    requires Free(address, w.blocks, Manifest(r.epoch, Some(r.prev), r.inventory, note))
    ensures var (v, q) := StepRun(address, w, r, WriteManifest(note, saved));
            WorldOk(address, v) && Extends(w, v) && RunOk(v, q)
  {
    hide LogRows, Distinct, Contains, DeltaAccepts, NotHeld, Held, Minus, Linked, Continues, WorldOk, Extends, Free;
    var m := Manifest(r.epoch, Some(r.prev), r.inventory, note);
    var v := w.(blocks := w.blocks[address(m) := m]);
    ManifestContinues(address, w, r, note);
    AddedIsAddressed(address, w, m);
    WorldStable(address, w, v);
    WorldLinked(address, w);
    RunStable(w, v, r);
  }

  lemma AddedIsAddressed(address: Manifest -> Cid, w: World, m: Manifest)
    requires WorldOk(address, w)
    ensures Addressed(address, w.blocks[address(m) := m])
  {
    hide LogRows, Distinct, Continues, Linked;
  }

  lemma StepKeeps(address: Manifest -> Cid, w: World, r: Run, step: Step)
    requires WorldOk(address, w) && RunOk(w, r) && NoClash(address, w, r, step)
    ensures var (v, q) := StepRun(address, w, r, step);
            WorldOk(address, v) && Extends(w, v) && RunOk(v, q)
  {
    hide LogRows, Distinct, Contains, DeltaAccepts, NotHeld, Held, Minus, Continues, Linked, Resolved, Increasing,
         MergeInventories, Addressed;
    match step
    case WriteManifest(note, saved) =>
      if r.phase.Cut? && r.inventory != [] {
        ManifestKeeps(address, w, r, note, saved);
      }
    case Walks(listing, saved) =>
      if Increasing(r.base) && Increasing(listing) {
        MergeExact(r.base, listing);
      }
    case ReadLog(k, saved) =>
      if k < |w.log| {
        ResolveIsLog(address, w, k);
      }
    case Check(saved) =>
      if r.epoch < |w.log| {
        ResolveIsLog(address, w, r.epoch);
      }
    case _ =>
  }

  // ----- which steps pass

  /** No row of the diff has the CID of a log row with another size, and no CID the log lacks is in it twice. */
  ghost predicate Compatible(log: seq<Row>, diff: seq<Row>) {
    && (forall a, b :: a in diff && b in log && a.cid == b.cid ==> a.size == b.size)
    && (forall i, j :: 0 <= i < j < |diff| && diff[i].cid == diff[j].cid ==> exists b :: b in log && b.cid == diff[i].cid)
  }

  lemma DeltaAcceptsExact(log: seq<Row>, diff: seq<Row>)
    requires Distinct(log)
    ensures DeltaAccepts(log, diff) <==> Compatible(log, diff)
  {
    hide Held, Distinct, NotHeld;
    HeldExact(log);
    NotHeldDistinct(diff, Held(log));
  }

  /** The check a step makes before it is marked done. */
  ghost predicate Passes(w: World, r: Run, step: Step) {
    match step
    case Head(k, _) => r.phase.Begun? && k < |w.log|
    case Walks(listing, _) => r.phase.Headed? && Increasing(r.base) && Increasing(listing) && Contains(listing, r.base)
    case ReadLog(k, _) => r.phase.Walked? && k + 1 == r.epoch
    case CutDelta(_) => r.phase.LogRead? && Compatible(r.resolved, r.diff)
    case WriteManifest(_, _) => r.phase.Cut? && r.inventory != []
    case Submit => false
    case Settle(_) => r.phase.Manifested? && r.epoch < |w.log| && w.log[r.epoch] == r.manifest
    case Check(_) => r.phase.Submitted? && r.epoch < |w.log| && Contains(LogRows(w.blocks, w.log[..r.epoch + 1]), r.listing)
  }

  /** A step is marked done exactly when its check passes and it lives to be saved. */
  lemma StepPasses(address: Manifest -> Cid, w: World, r: Run, step: Step)
    requires WorldOk(address, w) && RunOk(w, r)
    ensures var (v, q) := StepRun(address, w, r, step);
            && Rank(q.phase) == Rank(r.phase) + (if !step.Submit? && step.saved && Passes(w, r, step) then 1 else 0)
            && q.base == r.base && v.log == w.log
            && (step.Head? && Passes(w, r, step) ==> q.epoch == step.k + 1)
            && (step.Walks? && Passes(w, r, step) ==> q.listing == step.listing && q.epoch == r.epoch)
            && (!step.Head? && !step.Walks? ==> q.epoch == r.epoch && q.listing == r.listing)
            && (!step.WriteManifest? ==> q.manifest == r.manifest && v.blocks == w.blocks)
            && (step.Submit? && r.phase.Manifested? ==> Record(r.epoch, r.manifest) in v.pending)
  {
    hide LogRows, Distinct, Contains, DeltaAccepts, NotHeld, Held, Minus, Linked, Resolved, Increasing,
         MergeInventories, Addressed, Compatible, Continues;
    match step
    case Walks(listing, _) =>
      if Increasing(r.base) && Increasing(listing) {
        MergeExact(r.base, listing);
      }
    case ReadLog(k, _) =>
      if k < |w.log| {
        ResolveIsLog(address, w, k);
      }
    case CutDelta(_) =>
      if r.phase.LogRead? {
        ResolvedDistinct(address, w, r);
        DeltaAcceptsExact(r.resolved, r.diff);
      }
    case Check(_) =>
      if r.epoch < |w.log| {
        ResolveIsLog(address, w, r.epoch);
      }
    case _ =>
  }

  lemma ResolvedDistinct(address: Manifest -> Cid, w: World, r: Run)
    requires WorldOk(address, w) && RunOk(w, r) && Rank(r.phase) >= 3
    ensures Distinct(r.resolved)
  {
    hide Distinct, Continues, Linked, Addressed, DeltaAccepts, NotHeld, Held, Minus, Contains;
    LogRowsPrefix(w.blocks, w.log, r.epoch);
    DistinctPrefix(LogRows(w.blocks, w.log), r.resolved);
  }

  lemma CommitKeeps(address: Manifest -> Cid, w: World, record: Record)
    requires WorldOk(address, w)
    ensures var v := Commit(w, record); WorldOk(address, v) && Extends(w, v)
  {
    hide LogRows, Distinct, Addressed;
    var v := Commit(w, record);
    if record in w.pending && record.at == |w.log| {
      assert w.log[..|w.log|] == w.log;
      LogRowsAppend(w.blocks, w.log, record.cid);
      forall other | other in v.pending
        ensures Continues(v.blocks, v.log, other.at, other.cid)
      {
        ContinuesStable(w, v, other.at, other.cid);
      }
    }
  }

  lemma NextKeeps(address: Manifest -> Cid, s: System, e: Event)
    requires SystemOk(address, s) && EventClashless(address, s, e)
    ensures SystemOk(address, Next(address, s, e)) && Extends(s.world, Next(address, s, e).world)
  {
    hide WorldOk, StepRun, Commit, NoClash, Linked;
    var t := Next(address, s, e);
    match e {
      case Start(_) =>
      case Act(i, step) =>
        if i < |s.runs| {
          StepKeeps(address, s.world, s.runs[i], step);
        }
      case Witnesses(record) =>
        CommitKeeps(address, s.world, record);
    }
    WorldLinked(address, s.world);
    forall i | 0 <= i < |t.runs|
      ensures RunOk(t.world, t.runs[i])
    {
      hide RunOk;
      if i < |s.runs| && !(e.Act? && e.i == i) {
        RunStable(s.world, t.world, s.runs[i]);
      } else {
        FreshRunOk(t.world, t.runs[i]);
      }
    }
  }

  lemma WorldLinked(address: Manifest -> Cid, w: World)
    requires WorldOk(address, w)
    ensures Linked(w.blocks, w.log)
  {
  }

  lemma FreshRunOk(w: World, r: Run)
    ensures r.phase.Begun? ==> RunOk(w, r)
  {
  }

  lemma {:induction false} ExecuteKeeps(address: Manifest -> Cid, s: System, events: seq<Event>)
    requires SystemOk(address, s) && Clashless(address, s, events)
    ensures SystemOk(address, Execute(address, s, events)) && Extends(s.world, Execute(address, s, events).world)
    decreases |events|
  {
    hide SystemOk, Next, EventClashless;
    if events != [] {
      NextKeeps(address, s, events[0]);
      ExecuteKeeps(address, Next(address, s, events[0]), events[1..]);
    }
  }

  lemma GenesisOk(address: Manifest -> Cid, rows: seq<Row>, note: string)
    requires rows != [] && Distinct(rows)
    ensures SystemOk(address, Genesis(address, rows, note))
    ensures LogRows(Genesis(address, rows, note).world.blocks, Genesis(address, rows, note).world.log) == rows
  {
    hide Distinct;
    var s := Genesis(address, rows, note);
    assert s.world.log[..0] == [];
    assert [] + rows == rows;
    assert LogRows(s.world.blocks, s.world.log) == rows;
  }

  // ----- the main results

  /**
   Whatever cycles run, stop, repeat steps and race for the next sequence number: no CID is in two epochs
   or twice in one, no epoch is empty, every manifest names its predecessor, and the log only grows.
   */
  lemma LogSafety(address: Manifest -> Cid, rows: seq<Row>, note: string, events: seq<Event>, more: seq<Event>)
    requires rows != [] && Distinct(rows) && Clashless(address, Genesis(address, rows, note), events)
    requires Clashless(address, Execute(address, Genesis(address, rows, note), events), more)
    ensures var s := Execute(address, Genesis(address, rows, note), events);
            && Distinct(LogRows(s.world.blocks, s.world.log))
            && Linked(s.world.blocks, s.world.log)
            && Extends(s.world, Execute(address, s, more).world)
  {
    hide Clashless, LogRows, Distinct, Execute, Genesis, Extends, RunOk;
    GenesisOk(address, rows, note);
    ExecuteKeeps(address, Genesis(address, rows, note), events);
    ExecuteKeeps(address, Execute(address, Genesis(address, rows, note), events), more);
  }

  /** Rows of `log` and `delta` together. */
  lemma ContainsSum(big: seq<Row>, listing: seq<Row>, base: seq<Row>)
    requires Contains(listing, base) && Contains(big, Minus(listing, base))
    ensures Contains(big, listing) <==> Contains(big, base)
  {
    MinusExact(listing, base);
    forall row | row in listing && Contains(big, base)
      ensures row in big
    {
      assert row in base || row in Minus(listing, base);
    }
  }

  /**
   The commit of a run's manifest adds to the log exactly the rows its listing has and its base has not;
   the log then holds every (CID, size) of the listing if and only if it holds the configured base.
   */
  lemma CommitCoversListing(address: Manifest -> Cid, s: System, i: nat)
    requires SystemOk(address, s) && i < |s.runs| && Rank(s.runs[i].phase) >= 5
    requires var r := s.runs[i]; r.epoch < |s.world.log| && s.world.log[r.epoch] == r.manifest
    ensures var r := s.runs[i];
            var before := LogRows(s.world.blocks, s.world.log[..r.epoch]);
            var after := LogRows(s.world.blocks, s.world.log[..r.epoch + 1]);
            && (forall row :: row in after <==> row in before || row in Minus(r.listing, r.base))
            && Contains(LogRows(s.world.blocks, s.world.log), after)
            && (Contains(after, r.listing) <==> Contains(after, r.base))
  {
    hide LogRows, Contains, DeltaAccepts, NotHeld, Held, Minus, Distinct, Continues;
    var w, r := s.world, s.runs[i];
    assert RunOk(w, r);
    var before := LogRows(w.blocks, w.log[..r.epoch]);
    var after := LogRows(w.blocks, w.log[..r.epoch + 1]);
    assert w.log[..r.epoch + 1] == w.log[..r.epoch] + [w.log[r.epoch]];
    LogRowsAppend(w.blocks, w.log[..r.epoch], w.log[r.epoch]);
    LogRowsPrefix(w.blocks, w.log, r.epoch);
    DistinctPrefix(LogRows(w.blocks, w.log), before);
    DeltaCompletes(before, r.diff, r.inventory);
    ContainsSum(after, r.listing, r.base);
    LogRowsPrefix(w.blocks, w.log, r.epoch + 1);
    PrefixContained(LogRows(w.blocks, w.log), after);
  }

  lemma PrefixContained(rows: seq<Row>, prefix: seq<Row>)
    requires prefix <= rows
    ensures Contains(rows, prefix)
  {
    assert rows == prefix + rows[|prefix|..];
  }

  /** With the base a run is configured with equal to epoch 0, the log covers the listing after every commit. */
  lemma CommitCoversListingOfEpochZero(address: Manifest -> Cid, rows: seq<Row>, note: string, events: seq<Event>, i: nat)
    requires rows != [] && Distinct(rows) && Clashless(address, Genesis(address, rows, note), events)
    requires var s := Execute(address, Genesis(address, rows, note), events);
             && i < |s.runs| && Rank(s.runs[i].phase) >= 5 && s.runs[i].base == rows
             && s.runs[i].epoch < |s.world.log| && s.world.log[s.runs[i].epoch] == s.runs[i].manifest
    ensures var s := Execute(address, Genesis(address, rows, note), events);
            Contains(LogRows(s.world.blocks, s.world.log), s.runs[i].listing)
  {
    hide Clashless, LogRows, Distinct, Execute, Genesis, RunOk, WorldOk, Minus;
    var g := Genesis(address, rows, note);
    var s := Execute(address, g, events);
    GenesisOk(address, rows, note);
    ExecuteKeeps(address, g, events);
    CommitCoversListing(address, s, i);
    var r := s.runs[i];
    var after := LogRows(s.world.blocks, s.world.log[..r.epoch + 1]);
    WorldLinked(address, g.world);
    LogStable(g.world, s.world, |g.world.log|);
    assert g.world.log[..|g.world.log|] == g.world.log;
    GenesisLog(address, rows, note);
    assert s.world.log[..r.epoch + 1][..1] == s.world.log[..1];
    LogRowsPrefix(s.world.blocks, s.world.log[..r.epoch + 1], 1);
    PrefixContained(after, rows);
    assert Contains(after, r.listing);
  }

  lemma GenesisLog(address: Manifest -> Cid, rows: seq<Row>, note: string)
    ensures |Genesis(address, rows, note).world.log| == 1
  {
  }

  /** Of two runs cutting the same epoch at most one is committed, and a settled run's manifest stays in its place. */
  lemma FirstWins(address: Manifest -> Cid, s: System, i: nat, j: nat, events: seq<Event>)
    requires SystemOk(address, s) && Clashless(address, s, events) && i < |s.runs| && j < |s.runs|
    requires Rank(s.runs[i].phase) >= 6 && Rank(s.runs[j].phase) >= 6 && s.runs[i].epoch == s.runs[j].epoch
    ensures s.runs[i].manifest == s.runs[j].manifest
    ensures var t := Execute(address, s, events);
            s.runs[i].epoch < |t.world.log| && t.world.log[s.runs[i].epoch] == s.runs[i].manifest
  {
    hide Clashless, WorldOk, Execute, Contains, LogRows, Continues;
    assert RunOk(s.world, s.runs[i]) && RunOk(s.world, s.runs[j]);
    ExecuteKeeps(address, s, events);
  }

  lemma ExecuteTwo(address: Manifest -> Cid, s: System, a: Event, b: Event)
    ensures Execute(address, s, [a, b]) == Next(address, Next(address, s, a), b)
  {
    assert [a, b][1..] == [b] && [b][1..] == [];
    assert Execute(address, Next(address, s, a), [b]) == Execute(address, Next(address, Next(address, s, a), b), []);
  }

  lemma {:induction false} ExecuteConcat(address: Manifest -> Cid, s: System, a: seq<Event>, b: seq<Event>)
    ensures Execute(address, s, a + b) == Execute(address, Execute(address, s, a), b)
    decreases |a|
  {
    if a == [] {
      assert a + b == b;
    } else {
      assert (a + b)[1..] == a[1..] + b;
      ExecuteConcat(address, Next(address, s, a[0]), a[1..], b);
    }
  }

  /** The trace of one undisturbed cycle: all steps, and the witnesses' commit. */
  function OneCycle(base: seq<Row>, listing: seq<Row>, record: Record): seq<Event> {
    [Start(base), Act(0, Head(0, true))] + [Act(0, Walks(listing, true)), Act(0, ReadLog(0, true))] +
    [Act(0, CutDelta(true)), Act(0, WriteManifest("", true))] + [Act(0, Submit), Witnesses(record)]
  }

  /** The system of the example below after the cycle has read the log. */
  function ExampleRead(g: System, a: Row, b: Row, c: Row): System
    requires g.world.log != []
  {
    System(g.world, [Run(LogRead, [b], 1, g.world.log[0], [b, c], [c], [a], [], "")])
  }

  lemma ExampleReads(address: Manifest -> Cid, g: System, a: Row, b: Row, c: Row)
    requires Before(b.cid, c.cid) && g == Genesis(address, [a], "")
    ensures Execute(address, g, [Start([b]), Act(0, Head(0, true))] + [Act(0, Walks([b, c], true)), Act(0, ReadLog(0, true))])
            == ExampleRead(g, a, b, c)
  {
    hide LogRows, MergeInventories, Resolved, Increasing, Execute;
    var e1, e2 := [Start([b]), Act(0, Head(0, true))], [Act(0, Walks([b, c], true)), Act(0, ReadLog(0, true))];
    ExecuteConcat(address, g, e1, e2);
    ExecuteTwo(address, g, e1[0], e1[1]);
    var s1 := System(g.world, [Run(Headed, [b], 1, g.world.log[0], [], [], [], [], "")]);
    assert Execute(address, g, e1) == s1;
    ExecuteTwo(address, s1, e2[0], e2[1]);
    MergedExample(b, c);
    ResolvedExample(address, g, a);
  }

  lemma ExampleCommits(address: Manifest -> Cid, g: System, a: Row, b: Row, c: Row)
    requires a.cid != c.cid && g == Genesis(address, [a], "")
    ensures var m := Manifest(1, Some(g.world.log[0]), [c], "");
            var t := Execute(address, ExampleRead(g, a, b, c),
                             [Act(0, CutDelta(true)), Act(0, WriteManifest("", true))] +
                             [Act(0, Submit), Witnesses(Record(1, address(m)))]);
            && t.world.blocks == g.world.blocks[address(m) := m] && t.world.log == g.world.log + [address(m)]
            && t.runs == [Run(Manifested, [b], 1, g.world.log[0], [b, c], [c], [a], [c], address(m))]
  {
    hide LogRows, DeltaAccepts, NotHeld, Held, Execute;
    var m := Manifest(1, Some(g.world.log[0]), [c], "");
    var s2 := ExampleRead(g, a, b, c);
    var e3 := [Act(0, CutDelta(true)), Act(0, WriteManifest("", true))];
    var e4 := [Act(0, Submit), Witnesses(Record(1, address(m)))];
    ExecuteConcat(address, s2, e3, e4);
    ExecuteTwo(address, s2, e3[0], e3[1]);
    DeltaExample(a, c);
    var s3 := System(World(g.world.blocks[address(m) := m], g.world.log, {}),
                     [Run(Manifested, [b], 1, g.world.log[0], [b, c], [c], [a], [c], address(m))]);
    assert Execute(address, s2, e3) == s3;
    ExecuteTwo(address, s3, e4[0], e4[1]);
  }

  /**
   With a base the log does not hold, a committed epoch leaves a listed row outside the log: epoch 0 holds
   `a`, the cycle is configured with `b` as base and lists `b` and `c`.
   */
  lemma BaseOutsideLog(address: Manifest -> Cid, a: Row, b: Row, c: Row)
    requires a.cid != b.cid && a.cid != c.cid && Before(b.cid, c.cid)
    requires var first := Manifest(0, None, [a], "");
             address(first) != address(Manifest(1, Some(address(first)), [c], ""))
    ensures var g := Genesis(address, [a], "");
            var m := Manifest(1, Some(g.world.log[0]), [c], "");
            var s := Execute(address, g, OneCycle([b], [b, c], Record(1, address(m))));
            && |s.runs| == 1 && s.runs[0].phase.Manifested? && s.runs[0].listing == [b, c]
            && |s.world.log| == 2 && s.world.log[1] == s.runs[0].manifest
            && !Contains(LogRows(s.world.blocks, s.world.log), s.runs[0].listing)
  {
    hide Execute, Next;
    var g := Genesis(address, [a], "");
    var m := Manifest(1, Some(g.world.log[0]), [c], "");
    var e1, e2 := [Start([b]), Act(0, Head(0, true))], [Act(0, Walks([b, c], true)), Act(0, ReadLog(0, true))];
    var e3, e4 := [Act(0, CutDelta(true)), Act(0, WriteManifest("", true))], [Act(0, Submit), Witnesses(Record(1, address(m)))];
    assert OneCycle([b], [b, c], Record(1, address(m))) == (e1 + e2) + (e3 + e4);
    ExecuteConcat(address, g, e1 + e2, e3 + e4);
    ExampleReads(address, g, a, b, c);
    ExampleCommits(address, g, a, b, c);
    ExampleRows(address, g, a, c);
    BeforeTotal(b.cid, c.cid);
    assert b in [b, c] && b !in [a] + [c];
  }

  function ExampleRow(c: char): Row {
    Row("b" + seq(58, _ => c), 1)
  }

  /** Rows every tool accepts that are such a case. */
  lemma BaseOutsideLogRows()
    ensures var a, b, c := ExampleRow('a'), ExampleRow('b'), ExampleRow('c');
            && Writable(a) && Writable(b) && Writable(c)
            && ReaderCid(a.cid) && ReaderCid(b.cid) && ReaderCid(c.cid)
            && a.cid != b.cid && a.cid != c.cid && Before(b.cid, c.cid)
  {
    var a, b, c := ExampleRow('a'), ExampleRow('b'), ExampleRow('c');
    assert a.cid[1] != b.cid[1] && a.cid[1] != c.cid[1];
    assert b.cid[1..][0] < c.cid[1..][0];
  }

  lemma ExampleRows(address: Manifest -> Cid, g: System, a: Row, c: Row)
    requires a.cid != c.cid && g == Genesis(address, [a], "")
    requires address(Manifest(1, Some(g.world.log[0]), [c], "")) != g.world.log[0]
    ensures var m := Manifest(1, Some(g.world.log[0]), [c], "");
            LogRows(g.world.blocks[address(m) := m], g.world.log + [address(m)]) == [a] + [c]
  {
    var m := Manifest(1, Some(g.world.log[0]), [c], "");
    var blocks := g.world.blocks[address(m) := m];
    assert address(m) != g.world.log[0];
    LogRowsAppend(blocks, g.world.log, address(m));
    assert g.world.log[..0] == [];
    assert LogRows(blocks, g.world.log) == LogRows(blocks, []) + [a];
    assert [] + [a] == [a];
  }

  lemma MergedExample(b: Row, c: Row)
    requires Before(b.cid, c.cid)
    ensures Increasing([b]) && Increasing([b, c])
    ensures MergeInventories([b], [b, c]).Ok? && MergeInventories([b], [b, c]).value.rows == [c]
  {
    assert Contains([b, c], [b]);
    MergeExact([b], [b, c]);
    assert [b, c][1..] == [c] && [c][1..] == [];
    assert Minus([c], [b]) == [c] + Minus([], [b]);
  }

  lemma ResolvedExample(address: Manifest -> Cid, g: System, a: Row)
    requires g == Genesis(address, [a], "")
    ensures Resolved(g.world, 0) == Ok([a])
  {
    GenesisOk(address, [a], "");
    ResolveIsLog(address, g.world, 0);
    assert g.world.log[..1] == g.world.log;
  }

  lemma DeltaExample(a: Row, c: Row)
    requires a.cid != c.cid
    ensures DeltaAccepts([a], [c]) && NotHeld([c], Held([a])) == [c]
  {
    assert [a][..0] == [] && [c][..0] == [];
    assert Held([a]) == map[a.cid := a.size];
  }
}

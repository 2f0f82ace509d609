/** capture! on its files (deploy/capture_lake_inventory.cljk), with the invariant of every run. */
module CaptureWalk {
  import opened Bytes
  import opened Inventory
  import opened InventoryText
  import opened Capture
  import opened CaptureSafety

  /** How a run ends; a stop can come before any effect. */
  datatype Outcome = Complete | InProgress | Refused | Stopped

  class Walk {
    const env: Env
    ghost const listing: seq<Block>
    ghost const position: Position
    var disk: Disk
    var process: Process

    ghost predicate Valid() reads this {
      Given(env, listing, position) && RunOk(env, listing, position, disk, process)
    }

    /** A walk that has not started. */
    constructor (env: Env, ghost listing: seq<Block>, ghost position: Position)
      requires Given(env, listing, position)
      ensures Valid() && this.env == env && this.listing == listing && this.position == position
      ensures disk == EMPTY && process.Idle?
    {
      this.env, this.listing, this.position := env, listing, position;
      disk, process := EMPTY, Idle;
    }

    method ScanPartial(state: Checkpoint)
      requires disk.unfinished.Some?
      modifies this
      ensures (disk, process) == Resume(env, old(disk), state, old(disk).unfinished.value)
    {
      process := Idle;
      if |disk.unfinished.value| < state.size {
        return;
      }
      disk := disk.(unfinished := Some(disk.unfinished.value[..state.size]));
      if ScanAgrees(env, disk.unfinished.value, state) && !Before(state.lastSeen, state.lastCid) {
        process := Ready(state);
      }
    }

    method Open(stop: bool)
      requires Valid() && process.Idle?
      modifies this
      ensures Valid() && (disk, process) == Step(env, old(disk), old(process), Start(stop))
    {
      hide Given, RunOk, RequireSuperset, ScanAgrees, Before;
      StepKeeps(env, listing, position, disk, process, Start(stop));
      if disk.output.Some? {
        if disk.checkpoint.Some? && disk.unfinished.None? {
          var text, state := disk.output.value, disk.checkpoint.value;
          if |text| == state.size && env.hash(text) == state.sha256 && !state.complete && RequireSuperset(env, text) {
            disk := disk.(checkpoint := Some(state.(complete := true)));
          }
        }
      } else if disk.checkpoint.Some? {
        if !disk.checkpoint.value.complete && disk.unfinished.Some? {
          ScanPartial(disk.checkpoint.value);
        }
      } else if disk.unfinished.None? {
        disk := disk.(unfinished := Some(""));
        if !stop {
          disk := disk.(checkpoint := Some(Initial(env)));
          ScanPartial(Initial(env));
        }
      }
    }

    method AppendPage()
      requires Valid() && process.Ready? && disk.unfinished.Some?
      modifies this
      ensures Valid() && (disk, process) == Step(env, old(disk), old(process), Append)
    {
      hide Given, RunOk, NextState;
      StepKeeps(env, listing, position, disk, process, Append);
      var next := NextState(env, process.state, disk.unfinished.value);
      if next.Err? {
        process := Idle;
      } else {
        disk := disk.(unfinished := Some(disk.unfinished.value + next.value.0));
        process := Appended(next.value.1, next.value.2);
      }
    }

    method SaveCheckpoint()
      requires Valid() && process.Appended?
      modifies this
      ensures Valid() && (disk, process) == Step(env, old(disk), old(process), Save)
    {
      hide Given, RunOk;
      StepKeeps(env, listing, position, disk, process, Save);
      disk := disk.(checkpoint := Some(process.state));
      process := if process.last then Walked(process.state) else Ready(process.state);
    }

    method Publish()
      requires Valid() && process.Walked? && disk.unfinished.Some?
      modifies this
      ensures Valid() && (disk, process) == Step(env, old(disk), old(process), Rename)
    {
      hide Given, RunOk, RequireSuperset;
      StepKeeps(env, listing, position, disk, process, Rename);
      if RequireSuperset(env, disk.unfinished.value) {
        disk := disk.(output := disk.unfinished, unfinished := None);
        process := Published(process.state);
      } else {
        process := Idle;
      }
    }

    method Finalize()
      requires Valid() && process.Published?
      modifies this
      ensures Valid() && (disk, process) == Step(env, old(disk), old(process), Finish)
    {
      hide Given, RunOk;
      StepKeeps(env, listing, position, disk, process, Finish);
      disk := disk.(checkpoint := Some(process.state.(complete := true)));
      process := Idle;
    }

    /** The process ends where it is; its files stay. */
    method Die()
      requires Valid()
      modifies this
      ensures Valid() && process.Idle? && disk == old(disk)
    {
      hide Given, RunOk;
      StepKeeps(env, listing, position, disk, process, Stop(None));
      process := Idle;
    }

    /**
     A start that finds the published file: the checkpoint is completed unless it already is. It is never
     refused, because the published file is the whole listing.
     */
    method Confirm() returns (outcome: Outcome)
      requires Valid() && process.Idle? && disk.output.Some? && disk.checkpoint.Some?
      modifies this
      ensures Valid() && process.Idle? && outcome.Complete? && disk.output == old(disk.output)
      ensures disk.checkpoint == Some(old(disk.checkpoint).value.(complete := true))
    {
      hide Given, RunOk, RequireSuperset, Written, Publishable, Reflects;
      PublishedMatches(env, listing, position, disk);
      SupersetOfWhole(env, listing, position);
      Open(false);
      return Complete;
    }

    /** The pages, until the listing ends or the run does. */
    method Pages(lifetime: nat, maxPages: Option<nat>, ghost k: nat) returns (outcome: Outcome, left: nat)
      requires Valid() && process.Ready? && !process.state.complete && disk.output.None?
      requires Reached(env, listing, position, process.state, disk.unfinished, k)
      modifies this
      ensures Valid() && disk.output.None? && left <= lifetime
      ensures outcome.Complete? ==> process.Walked? && !process.state.complete && k < |listing|
      ensures !outcome.Complete? ==> process.Idle?
      ensures outcome.InProgress? ==> maxPages.Some?
      ensures outcome.Refused? && TimesParse(env, listing) ==> k == |listing|
      ensures outcome.Stopped? ==> lifetime <= 2 * (|listing| - k)
      ensures outcome.Complete? ==> lifetime <= left + 2 * (|listing| - k)
      decreases |listing| - k
    {
      hide Given, RunOk, Reflects, Written, NextState, Publishable, TimesParse;
      ghost var s := process.state;
      ReflectsWithin(env, listing, position, s, k);
      if maxPages == Some(0) {
        Die();
        return InProgress, lifetime;
      }
      if lifetime == 0 {
        Die();
        return Stopped, 0;
      }
      if TimesParse(env, listing) && k < |listing| {
        PageAccepted(env, listing, position, s, k);
      }
      AppendPage();
      if process.Idle? {
        return Refused, lifetime - 1;
      }
      PageKeeps(env, listing, position, s, k);
      ghost var j: nat :|
        k < j <= |listing| && Reflects(env, listing, position, process.state, j) &&
        disk.unfinished == Some(Written(env, listing, j)) && (process.last <==> j == |listing|);
      if lifetime == 1 {
        Die();
        return Stopped, 0;
      }
      NextIncomplete(env, s, Written(env, listing, k));
      SaveCheckpoint();
      if process.Walked? {
        return Complete, lifetime - 2;
      }
      outcome, left := Pages(lifetime - 2, if maxPages.Some? then Some(maxPages.value - 1) else None, j);
    }

    /**
     capture!: from any stop after `k` blocks, a run whose process does not die and that has no page budget
     completes exactly when the capture can still be finished; after a publication every run completes.
     Whatever ends a run, a published file is the whole listing, and only then is the run complete.
     */
    method Run(lifetime: nat, maxPages: Option<nat>, ghost k: nat) returns (outcome: Outcome)
      requires Valid() && process.Idle? && (disk.output.None? ==> StoppedAt(env, listing, position, disk, k))
      modifies this
      ensures Valid() && process.Idle?
      ensures disk.output.Some? ==> disk.output.value == Written(env, listing, |listing|) && Publishable(env, listing)
      ensures outcome.Complete? ==> disk.output.Some? && disk.checkpoint.Some? && disk.checkpoint.value.complete
      ensures old(disk.output).None? && TimesParse(env, listing) && maxPages.None? && !outcome.Stopped? ==>
                (outcome.Complete? <==> Intact(env, listing, old(disk), k) && k < |listing| && Publishable(env, listing))
      ensures old(disk.output).Some? && old(disk.checkpoint).Some? && !outcome.Stopped? ==> outcome.Complete?
      ensures outcome.InProgress? ==> maxPages.Some?
      ensures lifetime >= 2 * |listing| + 3 ==> !outcome.Stopped?
    {
      hide Given, RunOk, Reflects, Written, Publishable, TimesParse, Intact, Begin, RequireSuperset;
      OutputIsWhole(env, listing, position, disk, process);
      if lifetime == 0 {
        return Stopped;
      }
      if disk.output.Some? {
        if disk.checkpoint.None? {
          return Refused;
        }
        outcome := Confirm();
        return;
      }
      BeginIntact(env, listing, position, disk, k, false);
      Open(false);
      if process.Idle? {
        return Refused;
      }
      StateIncomplete(env, listing, position, old(disk), k);
      var left: nat;
      outcome, left := Pages(lifetime - 1, maxPages, k);
      if !outcome.Complete? {
        return;
      }
      if left == 0 {
        Die();
        return Stopped;
      }
      OutputIsWhole(env, listing, position, disk, process);
      SupersetOfWhole(env, listing, position);
      Publish();
      if process.Idle? {
        return Refused;
      }
      OutputIsWhole(env, listing, position, disk, process);
      if left == 1 {
        Die();
        return Stopped;
      }
      Finalize();
      return Complete;
    }
  }

  lemma NextIncomplete(env: Env, s: Checkpoint, text: string)
    requires NextState(env, s, text).Ok?
    ensures NextState(env, s, text).value.1.complete == s.complete
  {
  }

  lemma OutputIsWhole(env: Env, listing: seq<Block>, position: Position, disk: Disk, process: Process)
    requires RunOk(env, listing, position, disk, process)
    ensures disk.output.Some? ==> disk.output.value == Written(env, listing, |listing|) && Publishable(env, listing)
    ensures process.Walked? ==> disk.unfinished == Some(Written(env, listing, |listing|))
  {
    hide Reflects, Publishable, Written;
  }

  /** Only a walk that is not complete is resumed. */
  lemma StateIncomplete(env: Env, listing: seq<Block>, position: Position, disk: Disk, k: nat)
    requires Given(env, listing, position) && StoppedAt(env, listing, position, disk, k)
    requires Begin(env, disk, false).1.Ready?
    ensures !Begin(env, disk, false).1.state.complete && Intact(env, listing, disk, k)
  {
    hide Given, Reflects, Written, ScanAgrees, Before;
    BeginIntact(env, listing, position, disk, k, false);
  }

  lemma PublishedMatches(env: Env, listing: seq<Block>, position: Position, disk: Disk)
    requires RunOk(env, listing, position, disk, Idle) && disk.output.Some? && disk.checkpoint.Some?
    ensures disk.unfinished.None? && disk.output.value == Written(env, listing, |listing|) && Publishable(env, listing)
    ensures |disk.output.value| == disk.checkpoint.value.size && env.hash(disk.output.value) == disk.checkpoint.value.sha256
  {
    hide Publishable, Included, Render, Sum;
    assert Reflects(env, listing, position, disk.checkpoint.value, |listing|);
  }
}

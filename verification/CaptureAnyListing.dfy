/** What a capture publishes whatever the listing answers. */
module CaptureAnyListing {
  import opened Bytes
  import opened Inventory
  import opened InventoryText
  import opened Capture
  import opened CaptureSafety
  import MergeDelta

  /** Increasing rows any reader accepts. */
  ghost predicate Good(rows: seq<Row>) {
    Increasing(rows) && forall row :: row in rows ==> Writable(row)
  }

  /** The checkpoint describes the text of `rows`, and has seen nothing before its last row. */
  ghost predicate Describes(env: Env, s: Checkpoint, rows: seq<Row>) {
    && Good(rows)
    && s.size == |Render(rows)| && s.rows == |rows| && s.bytes == Sum(rows) && s.lastCid == LastCid(rows)
    && (s.lastSeen == s.lastCid || Before(s.lastCid, s.lastSeen))
    && s.sha256 == env.hash(Render(rows))
  }

  /** The checkpoint describes rows whose text was hashed. */
  ghost predicate Known(env: Env, hashed: set<string>, s: Checkpoint) {
    exists rows :: Describes(env, s, rows) && Render(rows) in hashed
  }

  ghost predicate DescribesText(env: Env, hashed: set<string>, s: Checkpoint, text: Option<string>) {
    exists rows :: Describes(env, s, rows) && Render(rows) in hashed && text == Some(Render(rows))
  }

  /** The texts whose hash one effect computes. */
  function HashedBy(env: Env, disk: Disk, process: Process, e: Event): set<string> {
    match e
    case Start(stop) =>
      if !process.Idle? || disk.output.Some? then {}
      else if disk.checkpoint.None? then {""}
      else if disk.unfinished.Some? && disk.checkpoint.value.size <= |disk.unfinished.value|
      then {disk.unfinished.value[..disk.checkpoint.value.size]}
      else {}
    case Append =>
      if process.Ready? && disk.unfinished.Some? && NextState(env, process.state, disk.unfinished.value).Ok?
      then {disk.unfinished.value + NextState(env, process.state, disk.unfinished.value).value.0}
      else {}
    case _ => {}
  }

  /** The texts whose hash a run computes. */
  function HashedIn(env: Env, disk: Disk, process: Process, events: seq<Event>): set<string>
    decreases |events|
  {
    if events == [] then {}
    else
      var (d, p) := Step(env, disk, process, events[0]);
      HashedBy(env, disk, process, events[0]) + HashedIn(env, d, p, events[1..])
  }

  ghost predicate NoCollision(env: Env, hashed: set<string>) {
    forall a, b :: a in hashed && b in hashed && env.hash(a) == env.hash(b) ==> a == b
  }

  ghost predicate RenderedText(text: string) {
    exists rows :: Good(rows) && text == Render(rows)
  }

  ghost predicate Sound(env: Env, hashed: set<string>, disk: Disk, process: Process) {
    && (disk.output.Some? ==> RenderedText(disk.output.value) && (process.Idle? || process.Published?))
    && (disk.checkpoint.Some? ==> Known(env, hashed, disk.checkpoint.value))
    && match process
       case Idle => true
       case Ready(s) => DescribesText(env, hashed, s, disk.unfinished)
       case Appended(s, _) => DescribesText(env, hashed, s, disk.unfinished)
       case Walked(s) => DescribesText(env, hashed, s, disk.unfinished)
       case Published(s) => disk.output.Some? && Known(env, hashed, s)
  }

  // ----- one page

  /** A page that is tallied is in order and starts after what was seen. */
  lemma {:induction false} AddBlocksOrdered(acc: Tally, blocks: seq<Block>, cutoff: Option<int>)
    requires AddBlocks(acc, blocks, cutoff).Ok?
    ensures Increasing(RowsOf(blocks))
    decreases |blocks|
  {
    if blocks != [] {
      hide AddBlocks, AddBlock, Before, Included, Tallied, RowsOf, Increasing;
      var n := |blocks| - 1;
      AddBlocksLast(acc, blocks, cutoff);
      AddBlocksOrdered(acc, blocks[..n], cutoff);
      var before := AddBlocks(acc, blocks[..n], cutoff).value;
      AddBlocksExact(acc, blocks[..n], cutoff);
      TalliedPrevious(acc, blocks[..n], Included(blocks[..n], cutoff), before);
      FirstIsAfter(before, blocks[n], cutoff);
      OneMore(blocks, n);
    }
  }

  lemma OneMore(blocks: seq<Block>, n: nat)
    requires |blocks| == n + 1 && Increasing(RowsOf(blocks[..n]))
    requires n > 0 ==> Before(blocks[n - 1].row.cid, blocks[n].row.cid)
    ensures Increasing(RowsOf(blocks))
  {
    hide Before;
    assert RowsOf(blocks[..n]) == RowsOf(blocks)[..n];
  }

  lemma TalliedPrevious(acc: Tally, blocks: seq<Block>, rows: seq<Row>, t: Tally)
    requires Tallied(acc, blocks, rows, t)
    ensures t.previous == if blocks == [] then acc.previous else blocks[|blocks| - 1].row.cid
  {
  }

  lemma {:induction false} IncludedAfter(blocks: seq<Block>, cutoff: Option<int>, seen: string)
    requires Increasing(RowsOf(blocks)) && (blocks != [] ==> Before(seen, blocks[0].row.cid))
    ensures forall row :: row in Included(blocks, cutoff) ==> Before(seen, row.cid)
    decreases |blocks|
  {
    IncludedExact(blocks, cutoff);
    forall row | row in Included(blocks, cutoff)
      ensures Before(seen, row.cid)
    {
      var b :| b in blocks && b.row == row;
      var i :| 0 <= i < |blocks| && blocks[i] == b;
      if i > 0 {
        IncreasingPairs(RowsOf(blocks), 0, i);
        BeforeTransitive(seen, blocks[0].row.cid, row.cid);
      }
    }
  }

  /** Rows after the last seen CID extend good rows. */
  lemma GoodExtends(rows: seq<Row>, added: seq<Row>, seen: string)
    requires Good(rows) && Good(added)
    requires seen == LastCid(rows) || Before(LastCid(rows), seen)
    requires forall row :: row in added ==> Before(seen, row.cid)
    ensures Good(rows + added)
  {
    hide Before, Writable;
    var all := rows + added;
    forall i | 0 < i < |all|
      ensures Before(all[i - 1].cid, all[i].cid)
    {
      if i == |rows| {
        assert added[0] in added;
        if seen != LastCid(rows) {
          BeforeTransitive(LastCid(rows), seen, added[0].cid);
        }
      }
    }
  }

  lemma LastOf(rows: seq<Row>, added: seq<Row>)
    ensures LastCid(rows + added) == if added == [] then LastCid(rows) else LastCid(added)
  {
    assert added == [] ==> rows + added == rows;
  }

  lemma PageDescribes(env: Env, s: Checkpoint, rows: seq<Row>)
    requires Describes(env, s, rows) && NextState(env, s, Render(rows)).Ok?
    ensures var (lines, t, _) := NextState(env, s, Render(rows)).value;
            exists more :: Describes(env, t, more) && Render(rows) + lines == Render(more)
  {
    hide Render, Sum, Before, Increasing, Writable, AddBlocks, Included, Tallied;
    var page := env.serve(s.cursor);
    var acc := Tally("", 0, 0, s.lastCid, s.lastSeen);
    var tally := AddBlocks(acc, page.blocks, env.cutoff).value;
    var added := Included(page.blocks, env.cutoff);
    AddBlocksExact(acc, page.blocks, env.cutoff);
    AddBlocksOrdered(acc, page.blocks, env.cutoff);
    PageRowsGood(page, env.cutoff, s.lastSeen);
    GoodExtends(rows, added, s.lastSeen);
    RenderConcat(rows, added);
    SumConcat(rows, added);
    LastOf(rows, added);
    TalliedFields(acc, page.blocks, added, tally);
    SeenAfterLast(page.blocks, env.cutoff, s.lastCid, s.lastSeen);
    var (lines, t, last) := NextState(env, s, Render(rows)).value;
    assert Describes(env, t, rows + added);
  }

  lemma TalliedFields(acc: Tally, blocks: seq<Block>, rows: seq<Row>, t: Tally)
    requires Tallied(acc, blocks, rows, t) && acc.lines == "" && acc.count == 0 && acc.bytes == 0 && blocks != []
    ensures t.lines == Render(rows) && t.count == |rows| && t.bytes == Sum(rows)
    ensures t.lastIncluded == (if rows == [] then acc.lastIncluded else LastCid(rows))
    ensures t.previous == LastCid(RowsOf(blocks))
  {
    hide Render, Sum;
    assert "" + Render(rows) == Render(rows);
  }

  lemma PageRowsGood(page: Page, cutoff: Option<int>, seen: string)
    requires Increasing(RowsOf(page.blocks)) && forall b :: b in page.blocks ==> Writable(b.row)
    requires page.blocks != [] ==> Before(seen, page.blocks[0].row.cid)
    ensures Good(Included(page.blocks, cutoff))
    ensures forall row :: row in Included(page.blocks, cutoff) ==> Before(seen, row.cid)
  {
    hide Before, Writable, Increasing, Late, Included;
    IncludedExact(page.blocks, cutoff);
    IncludedIncreases(page.blocks, cutoff);
    IncludedAfter(page.blocks, cutoff, seen);
    forall row | row in Included(page.blocks, cutoff)
      ensures Writable(row)
    {
      var b :| b in page.blocks && b.row == row;
    }
  }

  /** After the page nothing seen is before the last included row. */
  lemma SeenAfterLast(blocks: seq<Block>, cutoff: Option<int>, lastCid: string, seen: string)
    requires blocks != [] && Increasing(RowsOf(blocks)) && Before(seen, blocks[0].row.cid)
    requires seen == lastCid || Before(lastCid, seen)
    ensures var rows, last := Included(blocks, cutoff), LastCid(RowsOf(blocks));
            var included := if rows == [] then lastCid else LastCid(rows);
            last == included || Before(included, last)
  {
    hide Before, Included;
    IncludedIncreases(blocks, cutoff);
    var n := |blocks| - 1;
    if n > 0 {
      IncreasingPairs(RowsOf(blocks), 0, n);
      BeforeTransitive(seen, RowsOf(blocks)[0].cid, RowsOf(blocks)[n].cid);
    }
    if seen != lastCid {
      BeforeTransitive(lastCid, seen, RowsOf(blocks)[n].cid);
    }
  }

  // ----- the invariant

  lemma InitialDescribes(env: Env)
    ensures Describes(env, Initial(env), []) && Render([]) == ""
  {
    assert Sum([]) == 0;
  }

  lemma ResumeSound(env: Env, hashed: set<string>, disk: Disk, s: Checkpoint, text: string)
    requires NoCollision(env, hashed) && Known(env, hashed, s) && (s.size <= |text| ==> text[..s.size] in hashed)
    requires disk.output.None? && disk.checkpoint == Some(s) && disk.unfinished == Some(text)
    ensures var (d, p) := Resume(env, disk, s, text); Sound(env, hashed, d, p)
  {
    hide Render, InventoryRows, Good, Before;
    var rows :| Describes(env, s, rows) && Render(rows) in hashed;
    if |text| >= s.size && ScanAgrees(env, text[..s.size], s) {
      assert env.hash(text[..s.size]) == env.hash(Render(rows));
      assert DescribesText(env, hashed, s, Some(text[..s.size]));
    }
  }

  lemma InitialKnown(env: Env, hashed: set<string>)
    requires "" in hashed
    ensures Known(env, hashed, Initial(env)) && Initial(env).size == 0
  {
    hide Describes, Render;
    InitialDescribes(env);
    assert Describes(env, Initial(env), []) && Render([]) in hashed;
    InitialSize(env);
  }

  lemma InitialSize(env: Env)
    ensures Initial(env).size == 0
  {
  }

  lemma BeginSound(env: Env, hashed: set<string>, disk: Disk, stop: bool)
    requires NoCollision(env, hashed) && Sound(env, hashed, disk, Idle) && HashedBy(env, disk, Idle, Start(stop)) <= hashed
    ensures var (d, p) := Begin(env, disk, stop); Sound(env, hashed, d, p)
  {
    hide Resume, RequireSuperset, NoCollision, RenderedText, Known, Initial;
    if disk.output.None? {
      if disk.checkpoint.None? {
        InitialKnown(env, hashed);
        assert ""[..0] == "";
        ResumeSound(env, hashed, Disk(None, Some(""), Some(Initial(env))), Initial(env), "");
      } else if disk.unfinished.Some? {
        ResumeSound(env, hashed, disk, disk.checkpoint.value, disk.unfinished.value);
      }
    } else if disk.checkpoint.Some? {
      CompleteKnown(env, hashed, disk.checkpoint.value);
    }
  }

  lemma CompleteKnown(env: Env, hashed: set<string>, s: Checkpoint)
    requires Known(env, hashed, s)
    ensures Known(env, hashed, s.(complete := true))
  {
    hide Render, Sum, Good, Before;
    var rows :| Describes(env, s, rows) && Render(rows) in hashed;
    assert Describes(env, s.(complete := true), rows);
  }

  /** The page's rows behind the text so far; the text of both is hashed. */
  lemma AppendSound(env: Env, hashed: set<string>, s: Checkpoint, text: string)
    requires DescribesText(env, hashed, s, Some(text)) && NextState(env, s, text).Ok?
    requires text + NextState(env, s, text).value.0 in hashed
    ensures var (lines, t, _) := NextState(env, s, text).value; DescribesText(env, hashed, t, Some(text + lines))
  {
    hide Render, Describes, NextState;
    var rows :| Describes(env, s, rows) && Render(rows) in hashed && text == Render(rows);
    PageDescribes(env, s, rows);
  }

  lemma SavedIsKnown(env: Env, hashed: set<string>, s: Checkpoint, text: Option<string>)
    requires DescribesText(env, hashed, s, text)
    ensures Known(env, hashed, s) && text.Some? && RenderedText(text.value)
  {
    hide Render, Good;
    var rows :| Describes(env, s, rows) && Render(rows) in hashed && text == Some(Render(rows));
  }

  lemma StepSound(env: Env, hashed: set<string>, disk: Disk, process: Process, e: Event)
    requires NoCollision(env, hashed) && Sound(env, hashed, disk, process) && HashedBy(env, disk, process, e) <= hashed
    ensures var (d, p) := Step(env, disk, process, e); Sound(env, hashed, d, p)
  {
    hide Render, RequireSuperset, Resume, NoCollision, RenderedText, Known, DescribesText, Begin, NextState;
    match e
    case Start(stop) =>
      if process.Idle? {
        BeginSound(env, hashed, disk, stop);
      }
    case Append =>
      if process.Ready? && disk.unfinished.Some? && NextState(env, process.state, disk.unfinished.value).Ok? {
        AppendSound(env, hashed, process.state, disk.unfinished.value);
      }
    case Save =>
      if process.Appended? {
        SavedIsKnown(env, hashed, process.state, disk.unfinished);
      }
    case Rename =>
      if process.Walked? {
        SavedIsKnown(env, hashed, process.state, disk.unfinished);
      }
    case Finish =>
      if process.Published? {
        CompleteKnown(env, hashed, process.state);
      }
    case _ =>
  }

  lemma {:induction false} ExecuteSound(env: Env, hashed: set<string>, disk: Disk, process: Process, events: seq<Event>)
    requires NoCollision(env, hashed) && Sound(env, hashed, disk, process) && HashedIn(env, disk, process, events) <= hashed
    ensures var (d, p) := Execute(env, disk, process, events); Sound(env, hashed, d, p)
    decreases |events|
  {
    hide NoCollision, Sound, Step, HashedBy;
    if events != [] {
      StepSound(env, hashed, disk, process, events[0]);
      var (d, p) := Step(env, disk, process, events[0]);
      ExecuteSound(env, hashed, d, p, events[1..]);
    }
  }

  /** Only a text that contains the old inventory is ever published. */
  lemma {:induction false} PublishedWasChecked(env: Env, disk: Disk, process: Process, events: seq<Event>)
    requires disk.output.Some? ==> RequireSuperset(env, disk.output.value)
    ensures var output := Execute(env, disk, process, events).0.output; output.Some? ==> RequireSuperset(env, output.value)
    decreases |events|
  {
    hide RequireSuperset, NextState, ScanAgrees;
    if events != [] {
      var (d, p) := Step(env, disk, process, events[0]);
      PublishedWasChecked(env, d, p, events[1..]);
    }
  }

  lemma NothingSound(env: Env, hashed: set<string>)
    ensures Sound(env, hashed, EMPTY, Idle)
  {
  }

  /**
   Whatever the listing answers to a cursor, whatever the hash, and whatever stops and altered partial files
   happen: what is published reads back as valid rows in strictly increasing order that contain the old
   inventory. If no two texts the run hashes collide, it is the very text of those rows.
   */
  lemma PublishedIsSound(env: Env, events: seq<Event>)
    ensures var output := Execute(env, EMPTY, Idle, events).0.output;
            output.Some? ==>
              var before, after := InventoryRows(env.json, env.oldText), InventoryRows(env.json, output.value);
              && before.Ok? && after.Ok? && Good(after.value) && Contains(after.value, before.value)
              && (ReadsRows(env.json) && NoCollision(env, HashedIn(env, EMPTY, Idle, events)) ==>
                    output.value == Render(after.value))
  {
    hide Render, InventoryRows, Execute, Contains, Increasing, Writable, ReadsRows, Sound, NoCollision, HashedIn;
    PublishedWasChecked(env, EMPTY, Idle, events);
    var (disk, process) := Execute(env, EMPTY, Idle, events);
    if disk.output.Some? {
      CheckedContains(env, disk.output.value);
      var hashed := HashedIn(env, EMPTY, Idle, events);
      if ReadsRows(env.json) && NoCollision(env, hashed) {
        NothingSound(env, hashed);
        ExecuteSound(env, hashed, EMPTY, Idle, events);
        SoundOutput(env, hashed, disk, process);
      }
    }
  }

  lemma CheckedContains(env: Env, text: string)
    requires RequireSuperset(env, text)
    ensures var before, after := InventoryRows(env.json, env.oldText), InventoryRows(env.json, text);
            before.Ok? && after.Ok? && Good(after.value) && Contains(after.value, before.value)
  {
    hide Contains, Increasing, Writable, MergeDelta.Superset;
    AcceptedRows(env.json, Lines(env.oldText), "");
    AcceptedRows(env.json, Lines(text), "");
    MergeDelta.SupersetExact(InventoryRows(env.json, env.oldText).value, InventoryRows(env.json, text).value);
  }

  lemma SoundOutput(env: Env, hashed: set<string>, disk: Disk, process: Process)
    requires Sound(env, hashed, disk, process) && disk.output.Some? && ReadsRows(env.json)
    requires InventoryRows(env.json, disk.output.value).Ok?
    ensures disk.output.value == Render(InventoryRows(env.json, disk.output.value).value)
  {
    hide Render, InventoryRows, Increasing, Writable, ReadsRows;
    var rows :| Good(rows) && disk.output.value == Render(rows);
    ReadBack(env.json, rows);
  }
}

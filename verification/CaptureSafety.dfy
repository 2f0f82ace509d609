/** What a capture of an unchanging listing publishes, whatever stops and resumes happen. */
module CaptureSafety {
  import opened Bytes
  import opened Inventory
  import opened InventoryText
  import opened Capture
  import MergeDelta

  type Position = Option<string> -> int

  function RowsOf(blocks: seq<Block>): (rows: seq<Row>)
    ensures |rows| == |blocks|
  {
    seq(|blocks|, i requires 0 <= i < |blocks| => blocks[i].row)
  }

  /** The listing does not change: a cursor stands for a position, and a page is the next rows from there. */
  ghost predicate Serves(serve: Option<string> -> Page, listing: seq<Block>, position: Position) {
    && position(None) == 0
    && forall c :: ServesAt(serve, listing, position, c)
  }

  ghost predicate ServesAt(serve: Option<string> -> Page, listing: seq<Block>, position: Position, c: Option<string>) {
    var page, p := serve(c), position(c);
    if 0 <= p < |listing| then
      var n := p + |page.blocks|;
      && 0 < |page.blocks| <= PAGE_BLOCKS && n <= |listing| && page.blocks == listing[p..n]
      && (page.truncated <==> n < |listing|)
      && (page.truncated ==> page.cursor.Some? && position(page.cursor) == n)
    else page.blocks == []
  }

  ghost predicate Listing(listing: seq<Block>) {
    Increasing(RowsOf(listing)) && forall b :: b in listing ==> Writable(b.row)
  }

  ghost predicate Given(env: Env, listing: seq<Block>, position: Position) {
    && ReadsRows(env.json) && Serves(env.serve, listing, position) && Listing(listing)
  }

  /** The rows within the cutoff. */
  function Included(blocks: seq<Block>, cutoff: Option<int>): seq<Row> {
    if blocks == [] then []
    else
      var n := |blocks| - 1;
      Included(blocks[..n], cutoff) + if Late(blocks[n], cutoff) then [] else [blocks[n].row]
  }

  lemma IncludedAppend(blocks: seq<Block>, b: Block, cutoff: Option<int>)
    ensures Included(blocks + [b], cutoff) == Included(blocks, cutoff) + if Late(b, cutoff) then [] else [b.row]
  {
    hide Late;
    assert (blocks + [b])[..|blocks|] == blocks;
  }

  lemma {:induction false} IncludedConcat(a: seq<Block>, b: seq<Block>, cutoff: Option<int>)
    ensures Included(a + b, cutoff) == Included(a, cutoff) + Included(b, cutoff)
    decreases |b|
  {
    if b == [] {
      assert a + b == a;
    } else {
      var n := |b| - 1;
      assert (a + b)[..|a| + n] == a + b[..n];
      IncludedConcat(a, b[..n], cutoff);
    }
  }

  /** Exactly the listing's rows uploaded at the cutoff or before; without a cutoff, all of them. */
  lemma {:induction false} IncludedExact(blocks: seq<Block>, cutoff: Option<int>)
    ensures forall row :: row in Included(blocks, cutoff) <==>
                          exists b :: b in blocks && b.row == row &&
                                      (cutoff.None? || b.uploaded.None? || b.uploaded.value <= cutoff.value)
    decreases |blocks|
  {
    if blocks != [] {
      var n := |blocks| - 1;
      assert blocks == blocks[..n] + [blocks[n]];
      IncludedExact(blocks[..n], cutoff);
      forall row
        ensures row in Included(blocks, cutoff) <==>
                exists b :: b in blocks && b.row == row &&
                            (cutoff.None? || b.uploaded.None? || b.uploaded.value <= cutoff.value)
      {
        if b :| b in blocks && b.row == row && (cutoff.None? || b.uploaded.None? || b.uploaded.value <= cutoff.value) {
          assert b in blocks[..n] || b == blocks[n];
        }
      }
    }
  }

  /** In the listing's order. */
  lemma {:induction false} IncludedIncreases(blocks: seq<Block>, cutoff: Option<int>)
    requires Increasing(RowsOf(blocks))
    ensures var rows := Included(blocks, cutoff);
            && Increasing(rows)
            && (rows != [] ==> LastCid(rows) == LastCid(RowsOf(blocks)) || Before(LastCid(rows), LastCid(RowsOf(blocks))))
    decreases |blocks|
  {
    if blocks != [] {
      hide Before, Late;
      var n := |blocks| - 1;
      assert RowsOf(blocks)[..n] == RowsOf(blocks[..n]);
      IncludedIncreases(blocks[..n], cutoff);
      var before := Included(blocks[..n], cutoff);
      if before != [] {
        assert Before(RowsOf(blocks)[n - 1].cid, RowsOf(blocks)[n].cid);
        if LastCid(before) != RowsOf(blocks)[n - 1].cid {
          BeforeTransitive(LastCid(before), RowsOf(blocks)[n - 1].cid, blocks[n].row.cid);
        }
      }
    }
  }

  // ----- one page

  /** The tally `t` is `acc` and the rows of `blocks` within the cutoff. */
  predicate Tallied(acc: Tally, blocks: seq<Block>, rows: seq<Row>, t: Tally) {
    && t.lines == acc.lines + Render(rows) && t.count == acc.count + |rows|
    && t.bytes == acc.bytes + Sum(rows)
    && t.lastIncluded == (if rows == [] then acc.lastIncluded else LastCid(rows))
    && t.previous == (if blocks == [] then acc.previous else blocks[|blocks| - 1].row.cid)
  }

  lemma TalliedStep(acc: Tally, blocks: seq<Block>, rows: seq<Row>, t: Tally, b: Block, cutoff: Option<int>)
    requires Tallied(acc, blocks, rows, t) && AddBlock(t, b, cutoff).Ok?
    ensures Tallied(acc, blocks + [b], rows + if Late(b, cutoff) then [] else [b.row], AddBlock(t, b, cutoff).value)
  {
    hide RowText, Before, Late, Sum;
    if Late(b, cutoff) {
      assert rows + [] == rows;
    } else {
      SumAppend(rows, b.row);
      assert (rows + [b.row])[..|rows|] == rows;
    }
  }

  lemma TalliedNone(acc: Tally)
    ensures Tallied(acc, [], [], acc)
  {
    assert acc.lines + "" == acc.lines;
  }

  lemma AddBlocksLast(acc: Tally, blocks: seq<Block>, cutoff: Option<int>)
    requires blocks != [] && AddBlocks(acc, blocks, cutoff).Ok?
    ensures var before := AddBlocks(acc, blocks[..|blocks| - 1], cutoff);
            before.Ok? && AddBlocks(acc, blocks, cutoff) == AddBlock(before.value, blocks[|blocks| - 1], cutoff)
  {
    hide AddBlock;
  }

  lemma {:induction false} AddBlocksExact(acc: Tally, blocks: seq<Block>, cutoff: Option<int>)
    requires AddBlocks(acc, blocks, cutoff).Ok?
    ensures Tallied(acc, blocks, Included(blocks, cutoff), AddBlocks(acc, blocks, cutoff).value)
    ensures blocks != [] ==> Before(acc.previous, blocks[0].row.cid)
    decreases |blocks|
  {
    if blocks == [] {
      TalliedNone(acc);
    } else {
      hide AddBlocks, AddBlock, Before, Tallied, Late, Included;
      var n := |blocks| - 1;
      AddBlocksLast(acc, blocks, cutoff);
      IncludedAppend(blocks[..n], blocks[n], cutoff);
      var t := AddBlocks(acc, blocks[..n], cutoff).value;
      AddBlocksExact(acc, blocks[..n], cutoff);
      TalliedStep(acc, blocks[..n], Included(blocks[..n], cutoff), t, blocks[n], cutoff);
      assert blocks == blocks[..n] + [blocks[n]];
      FirstIsAfter(t, blocks[n], cutoff);
    }
  }

  lemma FirstIsAfter(t: Tally, b: Block, cutoff: Option<int>)
    requires AddBlock(t, b, cutoff).Ok?
    ensures Before(t.previous, b.row.cid)
  {
  }

  /** The walk's numbers describe the first `k` blocks of the listing. */
  ghost predicate Reflects(env: Env, listing: seq<Block>, position: Position, s: Checkpoint, k: nat) {
    && k <= |listing|
    && var rows := Included(listing[..k], env.cutoff);
       && s.size == |Render(rows)| && s.rows == |rows| && s.bytes == Sum(rows) && s.lastCid == LastCid(rows)
       && s.lastSeen == LastCid(RowsOf(listing[..k]))
       && s.sha256 == env.hash(Render(rows))
       && (k < |listing| ==> position(s.cursor) == k)
  }

  function Written(env: Env, listing: seq<Block>, k: nat): string
    requires k <= |listing|
  {
    Render(Included(listing[..k], env.cutoff))
  }

  /** No beginning of `text` has the size and the hash of a text of the walk without being that text. */
  ghost predicate Honest(env: Env, listing: seq<Block>, text: string) {
    forall k: nat :: k <= |listing| ==> HonestAt(text, Written(env, listing, k), env.hash)
  }

  predicate HonestAt(text: string, written: string, hash: string -> string) {
    |written| <= |text| && hash(text[..|written|]) == hash(written) ==> text[..|written|] == written
  }

  lemma CutHonest(env: Env, listing: seq<Block>, text: string, n: nat)
    requires Honest(env, listing, text) && n <= |text|
    ensures Honest(env, listing, text[..n])
  {
    hide Written;
    forall k: nat | k <= |listing|
      ensures HonestAt(text[..n], Written(env, listing, k), env.hash)
    {
      var m := |Written(env, listing, k)|;
      assert HonestAt(text, Written(env, listing, k), env.hash);
      assert m <= n ==> text[..n][..m] == text[..m];
    }
  }

  lemma {:induction false} WrittenPrefix(env: Env, listing: seq<Block>, k: nat, j: nat)
    requires k <= j <= |listing|
    ensures Written(env, listing, k) <= Written(env, listing, j)
  {
    hide Included, Render;
    assert listing[..j] == listing[..k] + listing[k..j];
    IncludedConcat(listing[..k], listing[k..j], env.cutoff);
    RenderConcat(Included(listing[..k], env.cutoff), Included(listing[k..j], env.cutoff));
  }

  /** The walk's own texts are honest whatever the hash is. */
  lemma WrittenHonest(env: Env, listing: seq<Block>, j: nat)
    requires j <= |listing|
    ensures Honest(env, listing, Written(env, listing, j))
  {
    hide Written;
    var text := Written(env, listing, j);
    forall k: nat | k <= |listing|
      ensures HonestAt(text, Written(env, listing, k), env.hash)
    {
      if k <= j {
        WrittenPrefix(env, listing, k, j);
      } else {
        WrittenPrefix(env, listing, j, k);
      }
    }
  }

  lemma HonestCut(env: Env, listing: seq<Block>, position: Position, s: Checkpoint, text: string, k: nat)
    requires Honest(env, listing, text) && Reflects(env, listing, position, s, k) && s.size <= |text|
    ensures s.size == |Written(env, listing, k)| && s.sha256 == env.hash(Written(env, listing, k))
    ensures env.hash(text[..s.size]) == s.sha256 ==> text[..s.size] == Written(env, listing, k)
  {
    hide Included, Render, Sum, LastCid, RowsOf;
    assert HonestAt(text, Written(env, listing, k), env.hash);
  }

  lemma ReflectsWithin(env: Env, listing: seq<Block>, position: Position, s: Checkpoint, k: nat)
    requires Reflects(env, listing, position, s, k)
    ensures k <= |listing|
  {
  }

  /** A page fetched after the whole listing was walked starts at or before the last CID: it is refused. */
  lemma NothingAfterTheEnd(env: Env, listing: seq<Block>, position: Position, s: Checkpoint, text: string)
    requires Given(env, listing, position) && Reflects(env, listing, position, s, |listing|)
    ensures NextState(env, s, text).Err?
  {
    hide Increasing, Before, Render, Included, Sum, AddBlocks, Writable, Tallied;
    assert ServesAt(env.serve, listing, position, s.cursor);
    var page, p := env.serve(s.cursor), position(s.cursor);
    if 0 <= p < |listing| {
      var n := |listing| - 1;
      assert listing[..|listing|] == listing;
      assert s.lastSeen == RowsOf(listing)[n].cid;
      if p < n {
        IncreasingPairs(RowsOf(listing), p, n);
      }
      BeforeTotal(RowsOf(listing)[p].cid, RowsOf(listing)[n].cid);
      assert page.blocks[0].row == RowsOf(listing)[p];
      BeforeTotal(s.lastSeen, page.blocks[0].row.cid);
      BeforeTotal(s.lastSeen, s.lastSeen);
      var acc := Tally("", 0, 0, s.lastCid, s.lastSeen);
      if AddBlocks(acc, page.blocks, env.cutoff).Ok? {
        AddBlocksExact(acc, page.blocks, env.cutoff);
      }
    }
  }

  lemma PageKeeps(env: Env, listing: seq<Block>, position: Position, s: Checkpoint, k: nat)
    requires Given(env, listing, position) && Reflects(env, listing, position, s, k)
    requires NextState(env, s, Written(env, listing, k)).Ok?
    ensures var (lines, t, last) := NextState(env, s, Written(env, listing, k)).value;
            exists j: nat ::
              && k < j <= |listing| && Reflects(env, listing, position, t, j)
              && Written(env, listing, k) + lines == Written(env, listing, j)
              && (last <==> j == |listing|)
  {
    hide Reflects, Given, Tallied, Included, Render, NextState, Sum;
    ReflectsWithin(env, listing, position, s, k);
    if k == |listing| {
      NothingAfterTheEnd(env, listing, position, s, Written(env, listing, k));
    } else {
      var j := PageMoves(env, listing, position, s, k);
    }
  }

  /** The first `j` blocks are the first `k` and the page's. */
  lemma WholeTally(env: Env, listing: seq<Block>, s: Checkpoint, k: nat, blocks: seq<Block>, t: Tally)
    requires k <= |listing| && k + |blocks| <= |listing| && blocks == listing[k..k + |blocks|] && blocks != []
    requires var before := Included(listing[..k], env.cutoff);
             s.size == |Render(before)| && s.rows == |before| && s.bytes == Sum(before) && s.lastCid == LastCid(before)
    requires Tallied(Tally("", 0, 0, s.lastCid, s.lastSeen), blocks, Included(blocks, env.cutoff), t)
    ensures var j := k + |blocks|;
            var rows := Included(listing[..j], env.cutoff);
            && Written(env, listing, k) + t.lines == Render(rows)
            && s.size + |t.lines| == |Render(rows)| && s.rows + t.count == |rows| && s.bytes + t.bytes == Sum(rows)
            && t.lastIncluded == LastCid(rows) && t.previous == LastCid(RowsOf(listing[..j]))
  {
    hide Render, Included, Sum;
    var j := k + |blocks|;
    assert listing[..j] == listing[..k] + blocks;
    IncludedConcat(listing[..k], blocks, env.cutoff);
    var before, added := Included(listing[..k], env.cutoff), Included(blocks, env.cutoff);
    RenderConcat(before, added);
    SumConcat(before, added);
    assert "" + Render(added) == Render(added);
    assert added == [] ==> before + added == before;
    assert RowsOf(listing[..j])[j - 1] == blocks[|blocks| - 1].row;
  }

  lemma PageMoves(env: Env, listing: seq<Block>, position: Position, s: Checkpoint, k: nat) returns (j: nat)
    requires Given(env, listing, position) && Reflects(env, listing, position, s, k) && k < |listing|
    requires NextState(env, s, Written(env, listing, k)).Ok?
    ensures var (lines, t, last) := NextState(env, s, Written(env, listing, k)).value;
            && k < j <= |listing| && Reflects(env, listing, position, t, j)
            && Written(env, listing, k) + lines == Written(env, listing, j)
            && (last <==> j == |listing|)
  {
    hide Increasing, Before, Render, Included, Sum, AddBlocks, Writable, Tallied, ReadsRows, RowsOf, LastCid;
    assert ServesAt(env.serve, listing, position, s.cursor);
    var page := env.serve(s.cursor);
    j := k + |page.blocks|;
    var acc := Tally("", 0, 0, s.lastCid, s.lastSeen);
    AddBlocksExact(acc, page.blocks, env.cutoff);
    WholeTally(env, listing, s, k, page.blocks, AddBlocks(acc, page.blocks, env.cutoff).value);
  }

  // ----- the invariant

  ghost predicate Reached(env: Env, listing: seq<Block>, position: Position, s: Checkpoint, text: Option<string>, k: nat) {
    Reflects(env, listing, position, s, k) && text == Some(Written(env, listing, k))
  }

  /** The published text: every row within the cutoff, and with them every old row. */
  ghost predicate Publishable(env: Env, listing: seq<Block>) {
    var before, rows := InventoryRows(env.json, env.oldText), Included(listing, env.cutoff);
    before.Ok? && Contains(rows, before.value)
  }

  ghost predicate RunOk(env: Env, listing: seq<Block>, position: Position, disk: Disk, process: Process) {
    && (disk.output.Some? ==>
          && disk.output.value == Written(env, listing, |listing|) && Publishable(env, listing)
          && disk.unfinished.None? && (process.Idle? || process.Published?))
    && (disk.unfinished.Some? ==> Honest(env, listing, disk.unfinished.value))
    && (disk.checkpoint.Some? ==>
          exists k: nat :: Reflects(env, listing, position, disk.checkpoint.value, k) && (disk.output.Some? ==> k == |listing|))
    && match process
       case Idle => true
       case Ready(s) =>
         disk.checkpoint == Some(s) && exists k: nat :: Reached(env, listing, position, s, disk.unfinished, k)
       case Appended(s, last) =>
         exists k: nat :: Reached(env, listing, position, s, disk.unfinished, k) && (last <==> k == |listing|)
       case Walked(s) => disk.checkpoint == Some(s) && Reached(env, listing, position, s, disk.unfinished, |listing|)
       case Published(s) => disk.output.Some? && Reflects(env, listing, position, s, |listing|)
  }

  lemma InitialReflects(env: Env, listing: seq<Block>, position: Position)
    requires Given(env, listing, position)
    ensures Reflects(env, listing, position, Initial(env), 0) && Written(env, listing, 0) == ""
  {
    assert listing[..0] == [];
    assert Included([], env.cutoff) == [];
  }

  /** A cut partial file that hashes to the checkpoint is the checkpointed text. */
  lemma ResumeKeeps(env: Env, listing: seq<Block>, position: Position, disk: Disk, s: Checkpoint, text: string, k: nat)
    requires Given(env, listing, position) && Reflects(env, listing, position, s, k)
    requires disk.output.None? && disk.checkpoint == Some(s) && disk.unfinished == Some(text) && Honest(env, listing, text)
    ensures var (d, p) := Resume(env, disk, s, text); RunOk(env, listing, position, d, p)
  {
    hide Written, Serves, Listing, ReadsRows, InventoryRows, Before, Honest, Reflects;
    if |text| >= s.size {
      var cut := text[..s.size];
      HonestCut(env, listing, position, s, text, k);
      CutHonest(env, listing, text, s.size);
      if ScanAgrees(env, cut, s) {
        assert Reached(env, listing, position, s, Some(cut), k);
      }
    }
  }

  lemma BeginKeeps(env: Env, listing: seq<Block>, position: Position, disk: Disk, stop: bool)
    requires Given(env, listing, position) && RunOk(env, listing, position, disk, Idle)
    ensures var (d, p) := Begin(env, disk, stop); RunOk(env, listing, position, d, p)
  {
    hide Included, Render, Given, RequireSuperset, Resume, Publishable, Written, Honest;
    if disk.output.None? {
      if disk.checkpoint.None? {
        InitialReflects(env, listing, position);
        WrittenHonest(env, listing, 0);
        ResumeKeeps(env, listing, position, Disk(None, Some(""), Some(Initial(env))), Initial(env), "", 0);
      } else if disk.unfinished.Some? {
        var k: nat :| Reflects(env, listing, position, disk.checkpoint.value, k);
        ResumeKeeps(env, listing, position, disk, disk.checkpoint.value, disk.unfinished.value, k);
      }
    } else if disk.checkpoint.Some? {
      var s := disk.checkpoint.value;
      assert Reflects(env, listing, position, s, |listing|);
      CompleteReflects(env, listing, position, s, |listing|);
    }
  }

  lemma CompleteReflects(env: Env, listing: seq<Block>, position: Position, s: Checkpoint, k: nat)
    requires Reflects(env, listing, position, s, k)
    ensures Reflects(env, listing, position, s.(complete := true), k)
  {
    hide Included, Render, Sum;
  }

  lemma WholeIsReadBack(env: Env, listing: seq<Block>, position: Position)
    requires Given(env, listing, position)
    ensures var rows := Included(listing, env.cutoff);
            && Written(env, listing, |listing|) == Render(rows)
            && Increasing(rows) && InventoryRows(env.json, Render(rows)) == Result.Ok(rows)
  {
    hide Serves, Render, InventoryRows, Writable, Increasing, RowLine;
    var rows := Included(listing, env.cutoff);
    assert listing[..|listing|] == listing;
    IncludedExact(listing, env.cutoff);
    IncludedIncreases(listing, env.cutoff);
    forall row | row in rows
      ensures Writable(row)
    {
      var b :| b in listing && b.row == row;
    }
    ReadBack(env.json, rows);
  }

  lemma SupersetOfWhole(env: Env, listing: seq<Block>, position: Position)
    requires Given(env, listing, position)
    ensures RequireSuperset(env, Written(env, listing, |listing|)) <==> Publishable(env, listing)
  {
    hide Included, Render, InventoryRows, Given, Contains, Increasing, MergeDelta.Superset;
    WholeIsReadBack(env, listing, position);
    var before := InventoryRows(env.json, env.oldText);
    if before.Ok? {
      OldIncreases(env);
      MergeDelta.SupersetExact(before.value, Included(listing, env.cutoff));
    }
  }

  lemma OldIncreases(env: Env)
    requires InventoryRows(env.json, env.oldText).Ok?
    ensures Increasing(InventoryRows(env.json, env.oldText).value)
  {
    AcceptedRows(env.json, Lines(env.oldText), "");
  }

  ghost predicate HonestTear(env: Env, listing: seq<Block>, e: Event) {
    e.Stop? && e.tear.Some? ==> Honest(env, listing, e.tear.value)
  }

  ghost predicate HonestTears(env: Env, listing: seq<Block>, events: seq<Event>) {
    forall i :: 0 <= i < |events| ==> HonestTear(env, listing, events[i])
  }

  lemma StepKeeps(env: Env, listing: seq<Block>, position: Position, disk: Disk, process: Process, e: Event)
    requires Given(env, listing, position) && RunOk(env, listing, position, disk, process) && HonestTear(env, listing, e)
    ensures var (d, p) := Step(env, disk, process, e); RunOk(env, listing, position, d, p)
  {
    hide Included, Render, Given, RequireSuperset, Resume, Publishable, Written, Reflects, Begin, NextState, Honest;
    match e
    case Start(stop) =>
      if process.Idle? {
        BeginKeeps(env, listing, position, disk, stop);
      }
    case Append =>
      if process.Ready? {
        var s := process.state;
        var k: nat :| Reached(env, listing, position, s, disk.unfinished, k);
        if NextState(env, s, disk.unfinished.value).Ok? {
          PageKeeps(env, listing, position, s, k);
          var (lines, t, last) := NextState(env, s, disk.unfinished.value).value;
          var j: nat :| k < j <= |listing| && Reflects(env, listing, position, t, j) &&
                        Written(env, listing, k) + lines == Written(env, listing, j) && (last <==> j == |listing|);
          assert Reached(env, listing, position, t, Some(Written(env, listing, j)), j);
          WrittenHonest(env, listing, j);
        }
      }
    case Rename => SupersetOfWhole(env, listing, position);
    case Finish =>
      if process.Published? {
        CompleteReflects(env, listing, position, process.state, |listing|);
      }
    case _ =>
  }

  lemma {:induction false} ExecuteKeeps(env: Env, listing: seq<Block>, position: Position, disk: Disk, process: Process, events: seq<Event>)
    requires Given(env, listing, position) && RunOk(env, listing, position, disk, process)
    requires HonestTears(env, listing, events)
    ensures var (d, p) := Execute(env, disk, process, events); RunOk(env, listing, position, d, p)
    decreases |events|
  {
    hide Given, RunOk, Step, HonestTear;
    if events != [] {
      assert HonestTear(env, listing, events[0]);
      assert forall i :: 0 <= i < |events[1..]| ==> events[1..][i] == events[i + 1];
      StepKeeps(env, listing, position, disk, process, events[0]);
      var (d, p) := Step(env, disk, process, events[0]);
      ExecuteKeeps(env, listing, position, d, p, events[1..]);
    }
  }

  // ----- the main results

  const EMPTY := Disk(None, None, None)

  /**
   Whatever starts, stops, torn or altered partial files happen, as long as no altered file collides with a
   text of the walk under the hash: what is published is exactly the
   rendering of the listing's rows within the cutoff, each once and in CID order, it reads back as
   those rows, and it contains the old inventory.
   */
  lemma PublishedExact(env: Env, listing: seq<Block>, position: Position, events: seq<Event>)
    requires Given(env, listing, position) && HonestTears(env, listing, events)
    ensures var disk := Execute(env, EMPTY, Idle, events).0;
            disk.output.Some? ==>
              var rows := Included(listing, env.cutoff);
              && disk.output.value == Render(rows) && Increasing(rows)
              && InventoryRows(env.json, disk.output.value) == Result.Ok(rows)
              && InventoryRows(env.json, env.oldText).Ok?
              && Contains(rows, InventoryRows(env.json, env.oldText).value)
  {
    hide Included, Render, Given, Execute, InventoryRows;
    ExecuteKeeps(env, listing, position, EMPTY, Idle, events);
    WholeIsReadBack(env, listing, position);
  }

  /** A resumed walk goes on exactly when the partial file still begins with the checkpointed text. */
  lemma ResumeExact(env: Env, listing: seq<Block>, position: Position, disk: Disk, s: Checkpoint, text: string, k: nat)
    requires Given(env, listing, position) && Reflects(env, listing, position, s, k) && Honest(env, listing, text)
    ensures Resume(env, disk, s, text).1.Ready? <==> |text| >= s.size && text[..s.size] == Written(env, listing, k)
  {
    hide Included, Render, Serves, InventoryRows, Increasing, Writable, Before, RowLine, Honest;
    if |text| >= s.size {
      HonestCut(env, listing, position, s, text, k);
    }
    var rows := Included(listing[..k], env.cutoff);
    assert RowsOf(listing[..k]) == RowsOf(listing)[..k];
    PrefixIncreases(RowsOf(listing), k);
    IncludedExact(listing[..k], env.cutoff);
    IncludedIncreases(listing[..k], env.cutoff);
    forall row | row in rows
      ensures Writable(row)
    {
      var b :| b in listing[..k] && b.row == row;
    }
    ReadBack(env.json, rows);
    assert !Before(s.lastSeen, s.lastCid) by {
      BeforeTotal(s.lastSeen, s.lastCid);
      BeforeTotal(s.lastCid, s.lastCid);
      EmptyIsFirst(s.lastSeen);
    }
  }

  lemma PrefixIncreases(rows: seq<Row>, k: nat)
    requires Increasing(rows) && k <= |rows|
    ensures Increasing(rows[..k])
  {
  }

  lemma EmptyIsFirst(a: string)
    ensures !Before(a, "")
  {
  }

  /**
   After a stop between the last checkpoint and the rename no later run publishes: the next page of the
   whole listing is refused.
   */
  lemma {:induction false} StopsForGood(env: Env, listing: seq<Block>, position: Position, disk: Disk, process: Process, events: seq<Event>)
    requires Given(env, listing, position) && disk.output.None? && disk.checkpoint.Some?
    requires Reflects(env, listing, position, disk.checkpoint.value, |listing|)
    requires process.Idle? || process == Ready(disk.checkpoint.value)
    ensures Execute(env, disk, process, events).0.output.None?
    decreases |events|
  {
    hide Reflects, Given, NextState, ScanAgrees;
    if events != [] {
      if process.Ready? && disk.unfinished.Some? {
        NothingAfterTheEnd(env, listing, position, disk.checkpoint.value, disk.unfinished.value);
      }
      var (d, p) := Step(env, disk, process, events[0]);
      StopsForGood(env, listing, position, d, p, events[1..]);
    }
  }

  // ----- an undisturbed walk

  /** Every upload time the cutoff is compared with can be read. */
  predicate TimesParse(env: Env, listing: seq<Block>) {
    env.cutoff.Some? ==> forall b :: b in listing ==> b.uploaded.Some?
  }

  lemma {:induction false} AddBlocksAccepts(acc: Tally, blocks: seq<Block>, cutoff: Option<int>)
    requires Increasing(RowsOf(blocks)) && (blocks != [] ==> Before(acc.previous, blocks[0].row.cid))
    requires cutoff.Some? ==> forall b :: b in blocks ==> b.uploaded.Some?
    ensures AddBlocks(acc, blocks, cutoff).Ok?
    decreases |blocks|
  {
    if blocks != [] {
      hide RowText, Before, Included, Render, Sum, AddBlock, Late;
      var n := |blocks| - 1;
      assert RowsOf(blocks[..n]) == RowsOf(blocks)[..n];
      AddBlocksAccepts(acc, blocks[..n], cutoff);
      AddBlocksExact(acc, blocks[..n], cutoff);
      assert blocks[n] in blocks;
      assert n > 0 ==> Before(RowsOf(blocks)[n - 1].cid, RowsOf(blocks)[n].cid);
      AddBlockAccepts(AddBlocks(acc, blocks[..n], cutoff).value, blocks[n], cutoff);
    }
  }

  lemma AddBlockAccepts(t: Tally, b: Block, cutoff: Option<int>)
    requires Before(t.previous, b.row.cid) && (cutoff.Some? ==> b.uploaded.Some?)
    ensures AddBlock(t, b, cutoff).Ok?
  {
  }

  lemma SliceIncreases(rows: seq<Row>, k: nat, j: nat)
    requires Increasing(rows) && k <= j <= |rows|
    ensures Increasing(rows[k..j])
  {
  }

  lemma PageAccepted(env: Env, listing: seq<Block>, position: Position, s: Checkpoint, k: nat)
    requires Given(env, listing, position) && TimesParse(env, listing)
    requires Reflects(env, listing, position, s, k) && k < |listing|
    ensures NextState(env, s, Written(env, listing, k)).Ok?
  {
    hide Increasing, Before, Render, Included, Sum, AddBlocks, Writable, AddBlock, Late, RowText, ReadsRows;
    assert ServesAt(env.serve, listing, position, s.cursor);
    var page := env.serve(s.cursor);
    var j := k + |page.blocks|;
    SliceIncreases(RowsOf(listing), k, j);
    assert RowsOf(page.blocks) == RowsOf(listing)[k..j];
    if k > 0 {
      IncreasingPairs(RowsOf(listing), k - 1, k);
      assert RowsOf(listing[..k])[k - 1] == listing[k - 1].row;
    } else {
      assert listing[..0] == [];
      NonEmptyIsAfter(listing[0].row);
    }
    assert page.blocks[0] == listing[k];
    AddBlocksAccepts(Tally("", 0, 0, s.lastCid, s.lastSeen), page.blocks, env.cutoff);
  }

  lemma NonEmptyIsAfter(row: Row)
    requires Writable(row)
    ensures Before("", row.cid)
  {
  }

  lemma ExecuteOne(env: Env, disk: Disk, process: Process, e: Event, events: seq<Event>)
    ensures var (d, p) := Step(env, disk, process, e);
            Execute(env, disk, process, [e] + events) == Execute(env, d, p, events)
  {
    assert ([e] + events)[1..] == events;
  }

  /** Stops there may be, but no partial file was changed by anybody else. */
  predicate Untorn(events: seq<Event>) {
    forall i :: 0 <= i < |events| ==> (events[i].Stop? ==> events[i].tear.None?)
  }

  /** From any saved state the walk can be run to its end. */
  lemma {:induction false} WalkOn(env: Env, listing: seq<Block>, position: Position, disk: Disk, s: Checkpoint, k: nat)
    returns (events: seq<Event>, state: Checkpoint)
    requires Given(env, listing, position) && TimesParse(env, listing)
    requires k < |listing| && disk.output.None? && disk.checkpoint == Some(s)
    requires Reached(env, listing, position, s, disk.unfinished, k)
    ensures Reflects(env, listing, position, state, |listing|) && Untorn(events)
    ensures Execute(env, disk, Ready(s), events) ==
            (Disk(None, Some(Written(env, listing, |listing|)), Some(state)), Walked(state))
    decreases |listing| - k
  {
    hide Given, TimesParse, Reflects, Written, NextState, Execute;
    PageAccepted(env, listing, position, s, k);
    PageKeeps(env, listing, position, s, k);
    var (lines, t, last) := NextState(env, s, Written(env, listing, k)).value;
    var j: nat :| k < j <= |listing| && Reflects(env, listing, position, t, j) &&
                  Written(env, listing, k) + lines == Written(env, listing, j) && (last <==> j == |listing|);
    var appended := disk.(unfinished := Some(Written(env, listing, j)));
    var saved := appended.(checkpoint := Some(t));
    if last {
      events, state := [], t;
      assert Execute(env, saved, Walked(t), []) == (saved, Walked(t)) by { ExecuteNone(env, saved, Walked(t)); }
    } else {
      events, state := WalkOn(env, listing, position, saved, t, j);
    }
    ExecuteOne(env, disk, Ready(s), Append, [Save] + events);
    ExecuteOne(env, appended, Appended(t, last), Save, events);
    events := [Append] + ([Save] + events);
  }

  lemma ExecuteNone(env: Env, disk: Disk, process: Process)
    ensures Execute(env, disk, process, []) == (disk, process)
  {
  }

  lemma BeginFresh(env: Env, listing: seq<Block>, position: Position)
    requires Given(env, listing, position)
    ensures Begin(env, EMPTY, false) == (Disk(None, Some(""), Some(Initial(env))), Ready(Initial(env)))
    ensures Reached(env, listing, position, Initial(env), Some(""), 0)
  {
    hide Included, Render, Serves, InventoryRows, Honest;
    InitialReflects(env, listing, position);
    WrittenHonest(env, listing, 0);
    ResumeExact(env, listing, position, Disk(None, Some(""), Some(Initial(env))), Initial(env), "", 0);
    assert ""[..0] == "";
  }

  /** An undisturbed run publishes exactly when the rows within the cutoff contain the old inventory. */
  lemma UndisturbedRun(env: Env, listing: seq<Block>, position: Position) returns (events: seq<Event>)
    requires Given(env, listing, position) && TimesParse(env, listing) && listing != []
    ensures var disk := Execute(env, EMPTY, Idle, events).0;
            if Publishable(env, listing)
            then disk.output == Some(Written(env, listing, |listing|)) && disk.checkpoint.Some? && disk.checkpoint.value.complete
            else disk.output.None?
  {
    hide Given, TimesParse, Reflects, Written, NextState, Execute, Publishable, RequireSuperset, Begin;
    BeginFresh(env, listing, position);
    var begun := Disk(None, Some(""), Some(Initial(env)));
    var walk, state := WalkOn(env, listing, position, begun, Initial(env), 0);
    var walked := Disk(None, Some(Written(env, listing, |listing|)), Some(state));
    var renamed := Disk(walked.unfinished, None, walked.checkpoint);
    SupersetOfWhole(env, listing, position);
    events := [Start(false)] + (walk + ([Rename] + ([Finish] + [])));
    ExecuteOne(env, EMPTY, Idle, Start(false), walk + ([Rename] + ([Finish] + [])));
    ExecuteConcat(env, begun, Ready(Initial(env)), walk, [Rename] + ([Finish] + []));
    ExecuteOne(env, walked, Walked(state), Rename, [Finish] + []);
    if Publishable(env, listing) {
      ExecuteOne(env, renamed, Published(state), Finish, []);
      ExecuteNone(env, renamed.(checkpoint := Some(state.(complete := true))), Idle);
    } else {
      ExecuteOne(env, walked, Idle, Finish, []);
      ExecuteNone(env, walked, Idle);
    }
  }

  lemma {:induction false} ExecuteConcat(env: Env, disk: Disk, process: Process, a: seq<Event>, b: seq<Event>)
    ensures var (d, p) := Execute(env, disk, process, a);
            Execute(env, disk, process, a + b) == Execute(env, d, p, b)
    decreases |a|
  {
    if a == [] {
      assert a + b == b;
    } else {
      hide Step;
      assert (a + b)[1..] == a[1..] + b;
      var (d, p) := Step(env, disk, process, a[0]);
      ExecuteConcat(env, d, p, a[1..], b);
    }
  }

  // ----- when a stopped walk can still publish

  /** The partial file begins with the text of the first `k` blocks, which the checkpoint describes. */
  predicate Intact(env: Env, listing: seq<Block>, disk: Disk, k: nat)
    requires k <= |listing|
  {
    match disk.checkpoint
    case None => disk.unfinished.None?
    case Some(s) =>
      !s.complete && disk.unfinished.Some? && s.size <= |disk.unfinished.value| &&
      disk.unfinished.value[..s.size] == Written(env, listing, k)
  }

  /**
   No process is running, nothing is published, and the checkpoint, if any, describes the first `k` blocks;
   the partial file collides with no text of the walk.
   */
  ghost predicate StoppedAt(env: Env, listing: seq<Block>, position: Position, disk: Disk, k: nat) {
    && disk.output.None? && k <= |listing|
    && (disk.unfinished.Some? ==> Honest(env, listing, disk.unfinished.value))
    && match disk.checkpoint
       case None => k == 0
       case Some(s) => Reflects(env, listing, position, s, k)
  }

  lemma BeginIntact(env: Env, listing: seq<Block>, position: Position, disk: Disk, k: nat, stop: bool)
    requires Given(env, listing, position) && StoppedAt(env, listing, position, disk, k)
    ensures var (d, p) := Begin(env, disk, stop);
            if !Intact(env, listing, disk, k) || (stop && disk.checkpoint.None?)
            then p.Idle? && StoppedAt(env, listing, position, d, k) && !Intact(env, listing, d, k)
            else p.Ready? && d.output.None? && d.checkpoint == Some(p.state) &&
                 Reached(env, listing, position, p.state, d.unfinished, k)
  {
    hide Given, Reflects, Written, ScanAgrees, Before, Initial, Honest;
    match disk.checkpoint {
      case None =>
        InitialReflects(env, listing, position);
        WrittenHonest(env, listing, 0);
        ResumeExact(env, listing, position, Disk(None, Some(""), Some(Initial(env))), Initial(env), "", 0);
        EmptyCut(env, listing, position);
      case Some(s) =>
        if !s.complete && disk.unfinished.Some? {
          ResumeExact(env, listing, position, disk, s, disk.unfinished.value, k);
          if s.size <= |disk.unfinished.value| {
            CutHonest(env, listing, disk.unfinished.value, s.size);
          }
        }
    }
  }

  lemma EmptyCut(env: Env, listing: seq<Block>, position: Position)
    requires Given(env, listing, position)
    ensures Initial(env).size == 0 && !Initial(env).complete && ""[..0] == Written(env, listing, 0) == ""
  {
    InitialReflects(env, listing, position);
  }

  /** A partial file the checkpoint does not describe is never repaired by another run. */
  lemma {:induction false} NotIntactForGood(env: Env, listing: seq<Block>, position: Position, disk: Disk, k: nat, events: seq<Event>)
    requires Given(env, listing, position) && StoppedAt(env, listing, position, disk, k) && !Intact(env, listing, disk, k)
    requires Untorn(events)
    ensures Execute(env, disk, Idle, events).0.output.None?
    decreases |events|
  {
    hide Given, Intact, Begin, Reflects, Honest;
    if events != [] {
      if events[0].Start? {
        BeginIntact(env, listing, position, disk, k, events[0].stop);
      }
      var (d, p) := Step(env, disk, Idle, events[0]);
      assert Untorn(events[1..]);
      NotIntactForGood(env, listing, position, d, k, events[1..]);
    }
  }

  /** An empty listing is never published. */
  lemma {:induction false} NothingListed(env: Env, position: Position, disk: Disk, events: seq<Event>)
    requires Given(env, [], position) && disk == EMPTY && Untorn(events)
    ensures Execute(env, disk, Idle, events).0.output.None?
    decreases |events|
  {
    hide Given, Intact, Begin, Reflects, Honest;
    if events != [] {
      var (d, p) := Step(env, disk, Idle, events[0]);
      assert Untorn(events[1..]);
      if events[0].Start? {
        IntactAtStart(env, []);
        BeginIntact(env, [], position, disk, 0, events[0].stop);
        if events[0].stop {
          NotIntactForGood(env, [], position, d, 0, events[1..]);
        } else {
          StopsForGood(env, [], position, d, p, events[1..]);
        }
      } else {
        NothingListed(env, position, d, events[1..]);
      }
    }
  }

  lemma IntactAtStart(env: Env, listing: seq<Block>)
    ensures Intact(env, listing, EMPTY, 0)
  {
  }

  ghost predicate Publishes(env: Env, disk: Disk, events: seq<Event>) {
    Execute(env, disk, Idle, events).0.output.Some?
  }

  lemma StoppedIsOk(env: Env, listing: seq<Block>, position: Position, disk: Disk, k: nat)
    requires StoppedAt(env, listing, position, disk, k)
    ensures RunOk(env, listing, position, disk, Idle)
  {
    hide Reflects, Honest;
  }

  lemma OkPublishable(env: Env, listing: seq<Block>, position: Position, disk: Disk, process: Process)
    requires RunOk(env, listing, position, disk, process)
    ensures disk.output.Some? ==> Publishable(env, listing)
  {
    hide Reflects, Reached, Publishable;
  }

  lemma NeverPublishes(env: Env, listing: seq<Block>, position: Position, disk: Disk, k: nat, events: seq<Event>)
    requires Given(env, listing, position) && StoppedAt(env, listing, position, disk, k) && Untorn(events)
    requires !(Intact(env, listing, disk, k) && k < |listing| && Publishable(env, listing))
    ensures !Publishes(env, disk, events)
  {
    hide Given, Publishable, Reflects, Execute, RunOk, Honest;
    if !Intact(env, listing, disk, k) {
      NotIntactForGood(env, listing, position, disk, k, events);
    } else if k < |listing| {
      StoppedIsOk(env, listing, position, disk, k);
      ExecuteKeeps(env, listing, position, disk, Idle, events);
      var (d, p) := Execute(env, disk, Idle, events);
      OkPublishable(env, listing, position, d, p);
    } else if disk.checkpoint.Some? {
      StopsForGood(env, listing, position, disk, Idle, events);
    } else {
      NothingListed(env, position, disk, events);
    }
  }

  /** A run that publishes, from any stop before the last checkpoint. */
  lemma RunsToTheEnd(env: Env, listing: seq<Block>, position: Position, disk: Disk, k: nat) returns (events: seq<Event>)
    requires Given(env, listing, position) && TimesParse(env, listing) && StoppedAt(env, listing, position, disk, k)
    requires Intact(env, listing, disk, k) && k < |listing| && Publishable(env, listing)
    ensures Untorn(events) && Publishes(env, disk, events)
  {
    hide Given, TimesParse, Reflects, Written, NextState, Execute, Publishable, RequireSuperset, Begin, Intact, Honest;
    BeginIntact(env, listing, position, disk, k, false);
    var (d, p) := Begin(env, disk, false);
    var walk, state := WalkOn(env, listing, position, d, p.state, k);
    var walked := Disk(None, Some(Written(env, listing, |listing|)), Some(state));
    SupersetOfWhole(env, listing, position);
    events := [Start(false)] + (walk + ([Rename] + []));
    ExecuteOne(env, disk, Idle, Start(false), walk + ([Rename] + []));
    ExecuteConcat(env, d, p, walk, [Rename] + []);
    ExecuteOne(env, walked, Walked(state), Rename, []);
    ExecuteNone(env, Disk(walked.unfinished, None, walked.checkpoint), Published(state));
  }

  /**
   A capture that stopped after its first `k` listed blocks can still be finished, by runs that may stop
   again, if and only if blocks are left to walk, the partial file begins with the checkpointed text, and
   the listing's rows within the cutoff contain the old inventory.
   */
  lemma FinishesExact(env: Env, listing: seq<Block>, position: Position, disk: Disk, k: nat)
    requires Given(env, listing, position) && TimesParse(env, listing) && StoppedAt(env, listing, position, disk, k)
    ensures (exists events :: Untorn(events) && Publishes(env, disk, events)) <==>
            Intact(env, listing, disk, k) && k < |listing| && Publishable(env, listing)
  {
    hide Given, TimesParse, Intact, Publishable, Publishes, Untorn, Reflects, Honest;
    if Intact(env, listing, disk, k) && k < |listing| && Publishable(env, listing) {
      var events := RunsToTheEnd(env, listing, position, disk, k);
    } else {
      forall events | Untorn(events)
        ensures !Publishes(env, disk, events)
      {
        NeverPublishes(env, listing, position, disk, k, events);
      }
    }
  }

  /** Every capture of a non-empty listing can be stopped where no later run publishes, its file complete. */
  lemma StuckAtTheEnd(env: Env, listing: seq<Block>, position: Position) returns (events: seq<Event>)
    requires Given(env, listing, position) && TimesParse(env, listing) && listing != []
    ensures Untorn(events)
    ensures var (disk, process) := Execute(env, EMPTY, Idle, events);
            && process.Idle? && StoppedAt(env, listing, position, disk, |listing|)
            && disk.unfinished == Some(Written(env, listing, |listing|))
            && forall more :: Execute(env, disk, Idle, more).0.output.None?
  {
    hide Given, TimesParse, Reflects, Written, NextState, Execute, Publishable, RequireSuperset, Begin, Honest;
    WrittenHonest(env, listing, |listing|);
    BeginFresh(env, listing, position);
    var begun := Disk(None, Some(""), Some(Initial(env)));
    var walk, state := WalkOn(env, listing, position, begun, Initial(env), 0);
    var walked := Disk(None, Some(Written(env, listing, |listing|)), Some(state));
    events := [Start(false)] + (walk + ([Stop(None)] + []));
    ExecuteOne(env, EMPTY, Idle, Start(false), walk + ([Stop(None)] + []));
    ExecuteConcat(env, begun, Ready(Initial(env)), walk, [Stop(None)] + []);
    ExecuteOne(env, walked, Walked(state), Stop(None), []);
    ExecuteNone(env, walked, Idle);
    forall more
      ensures Execute(env, walked, Idle, more).0.output.None?
    {
      StopsForGood(env, listing, position, walked, Idle, more);
    }
  }
}

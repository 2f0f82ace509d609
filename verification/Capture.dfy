/** The resumable listing walk (capture! in deploy/capture_lake_inventory.cljk), one effect at a time. */
module Capture {
  import opened Bytes
  import opened Inventory
  import opened InventoryText
  import MergeDelta

  const PAGE_BLOCKS: nat := 200

  /** A block of the public listing; `uploaded` is None when its time does not parse. */
  datatype Block = Block(row: Row, uploaded: Option<int>)

  datatype Page = Page(blocks: seq<Block>, cursor: Option<string>, truncated: bool)

  /** What one walk is run with, and the calls it makes. */
  datatype Env = Env(
    serve: Option<string> -> Page,
    hash: string -> string,
    json: string -> Line,
    cutoff: Option<int>,
    oldText: string)

  datatype Checkpoint = Checkpoint(
    complete: bool, cursor: Option<string>, size: nat, rows: nat, bytes: int,
    lastCid: string, lastSeen: string, sha256: string)

  datatype Disk = Disk(output: Option<string>, unfinished: Option<string>, checkpoint: Option<Checkpoint>)

  /** The running process between two effects. */
  datatype Process =
    | Idle
    | Ready(state: Checkpoint)
    | Appended(state: Checkpoint, last: bool)
    | Walked(state: Checkpoint)
    | Published(state: Checkpoint)

  // ----- one page

  datatype PageRefusal = MovedBackward | InvalidTime | BadPage | CursorStuck

  datatype Tally = Tally(lines: string, count: nat, bytes: int, lastIncluded: string, previous: string)

  predicate Late(b: Block, cutoff: Option<int>) {
    cutoff.Some? && b.uploaded.Some? && b.uploaded.value > cutoff.value
  }

  function AddBlock(acc: Tally, b: Block, cutoff: Option<int>): Result<Tally, PageRefusal> {
    if !Before(acc.previous, b.row.cid) then Err(MovedBackward)
    else if cutoff.Some? && b.uploaded.None? then Err(InvalidTime)
    else if Late(b, cutoff) then Ok(acc.(previous := b.row.cid))
    else Ok(Tally(acc.lines + RowText(b.row), acc.count + 1, acc.bytes + b.row.size, b.row.cid, b.row.cid))
  }

  function AddBlocks(acc: Tally, blocks: seq<Block>, cutoff: Option<int>): Result<Tally, PageRefusal> {
    if blocks == [] then Ok(acc)
    else
      var before :- AddBlocks(acc, blocks[..|blocks| - 1], cutoff);
      AddBlock(before, blocks[|blocks| - 1], cutoff)
  }

  /** The listing's own checks on a page, and the walk's on its cursor. */
  function FetchPage(env: Env, cursor: Option<string>): Result<Page, PageRefusal> {
    var page := env.serve(cursor);
    if !(0 < |page.blocks| <= PAGE_BLOCKS) || (page.truncated && page.cursor.None?) ||
       exists b :: b in page.blocks && !Writable(b.row)
    then Err(BadPage)
    else if page.truncated && page.cursor == cursor then Err(CursorStuck)
    else Ok(page)
  }

  /** The page's rows to append, and the state to checkpoint after that. */
  function NextState(env: Env, state: Checkpoint, text: string): Result<(string, Checkpoint, bool), PageRefusal> {
    var page :- FetchPage(env, state.cursor);
    var tally :- AddBlocks(Tally("", 0, 0, state.lastCid, state.lastSeen), page.blocks, env.cutoff);
    Ok((tally.lines,
        state.(cursor := page.cursor, size := state.size + |tally.lines|, rows := state.rows + tally.count,
               bytes := state.bytes + tally.bytes, lastCid := tally.lastIncluded, lastSeen := tally.previous,
               sha256 := env.hash(text + tally.lines)),
        !page.truncated))
  }

  // ----- the files

  predicate RequireSuperset(env: Env, text: string) {
    var before, after := InventoryRows(env.json, env.oldText), InventoryRows(env.json, text);
    before.Ok? && after.Ok? && MergeDelta.Superset(before.value, after.value)
  }

  function LastCid(rows: seq<Row>): string {
    if rows == [] then "" else rows[|rows| - 1].cid
  }

  /** scan-partial! found what the checkpoint says in the text cut to the checkpointed size. */
  predicate ScanAgrees(env: Env, text: string, state: Checkpoint) {
    var rows := InventoryRows(env.json, text);
    && rows.Ok? && env.hash(text) == state.sha256 && |rows.value| == state.rows
    && Sum(rows.value) == state.bytes && LastCid(rows.value) == state.lastCid
  }

  function Initial(env: Env): Checkpoint {
    Checkpoint(false, None, 0, 0, 0, "", "", env.hash(""))
  }

  /** Resuming: the partial file is cut to the checkpoint and checked before the cursor is trusted. */
  function Resume(env: Env, disk: Disk, state: Checkpoint, text: string): (Disk, Process) {
    if |text| < state.size then (disk, Idle)
    else
      var cut := text[..state.size];
      (disk.(unfinished := Some(cut)),
       if ScanAgrees(env, cut, state) && !Before(state.lastSeen, state.lastCid) then Ready(state) else Idle)
  }

  /** A start; `stop` ends it between creating the partial file and writing the first checkpoint. */
  function Begin(env: Env, disk: Disk, stop: bool): (Disk, Process) {
    match disk.output
    case Some(text) =>
      if disk.checkpoint.None? || disk.unfinished.Some? then (disk, Idle)
      else
        var state := disk.checkpoint.value;
        if |text| == state.size && env.hash(text) == state.sha256 && !state.complete && RequireSuperset(env, text)
        then (disk.(checkpoint := Some(state.(complete := true))), Idle)
        else (disk, Idle)
    case None =>
      match disk.checkpoint
      case Some(state) =>
        if state.complete || disk.unfinished.None? then (disk, Idle)
        else Resume(env, disk, state, disk.unfinished.value)
      case None =>
        if disk.unfinished.Some? then (disk, Idle)
        else if stop then (disk.(unfinished := Some("")), Idle)
        else Resume(env, Disk(None, Some(""), Some(Initial(env))), Initial(env), "")
  }

  /**
   One effect of the running process, a start, or a stop. A stop may leave anything in the partial file:
   an append that was cut short, or a file somebody else changed.
   */
  datatype Event = Start(stop: bool) | Append | Save | Rename | Finish | Stop(tear: Option<string>)

  function Step(env: Env, disk: Disk, process: Process, e: Event): (Disk, Process) {
    match e
    case Start(stop) =>
      if process.Idle? then Begin(env, disk, stop) else (disk, process)
    case Append =>
      if process.Ready? && disk.unfinished.Some? then
        match NextState(env, process.state, disk.unfinished.value)
        case Err(_) => (disk, Idle)
        case Ok((lines, state, last)) => (disk.(unfinished := Some(disk.unfinished.value + lines)), Appended(state, last))
      else (disk, process)
    case Save =>
      if process.Appended?
      then (disk.(checkpoint := Some(process.state)), if process.last then Walked(process.state) else Ready(process.state))
      else (disk, process)
    case Rename =>
      if process.Walked? && disk.unfinished.Some? then
        if RequireSuperset(env, disk.unfinished.value)
        then (disk.(output := disk.unfinished, unfinished := None), Published(process.state))
        else (disk, Idle)
      else (disk, process)
    case Finish =>
      if process.Published?
      then (disk.(checkpoint := Some(process.state.(complete := true))), Idle)
      else (disk, process)
    case Stop(tear) =>
      (if tear.Some? && disk.unfinished.Some? then disk.(unfinished := tear) else disk, Idle)
  }

  function Execute(env: Env, disk: Disk, process: Process, events: seq<Event>): (Disk, Process)
    decreases |events|
  {
    if events == [] then (disk, process)
    else
      var (d, p) := Step(env, disk, process, events[0]);
      Execute(env, d, p, events[1..])
  }
}

/** The resumable offline readback of an inventory (advance of deploy/verify_lake_leaves.py). */
module Readback {
  import opened Bytes
  import opened Inventory
  import Cids

  const PRESENT: Data := [0x70, 0x72, 0x65, 0x73, 0x65, 0x6E, 0x74]
  const MISSING: Data := [0x6D, 0x69, 0x73, 0x73, 0x69, 0x6E, 0x67]

  /** The checkpoint, without the identity it was checked against. */
  datatype State = State(
    cursor: nat, presentRows: nat, presentBytes: int, missingRows: nat, missingBytes: int, scan: Data)

  function FreshState(): State {
    State(0, 0, 0, 0, 0, Zeros(32))
  }

  /** What reading one block locally gives: a failure, a confirmed absence, or bytes. */
  datatype Reading = Refused | Absent | Block(data: Data)

  datatype Status = Waiting | Complete | Partial

  datatype ReadbackError = BlockTooLarge | ReadRefused | SizeDiffers | CidDiffers | BadCheckpoint

  /** What one row adds to the running digest. */
  function Entry(scan: Data, cursor: nat, row: Row, kind: Data, digest: Data): Data {
    scan + BE(8, cursor) + Ascii(row.cid) + BE(8, Max(row.size, 0)) + kind + digest
  }

  /** The bytes are those of the row: its size, and the digest of its CID. */
  predicate Matches(sha: Data -> Data, row: Row, data: Data) {
    |data| == row.size && Cids.RawDigest(row.cid) == Some(sha(data))
  }

  function AddPresent(sha: Data -> Data, s: State, row: Row, digest: Data): State {
    s.(cursor := s.cursor + 1, presentRows := s.presentRows + 1, presentBytes := s.presentBytes + row.size,
       scan := sha(Entry(s.scan, s.cursor, row, PRESENT, digest)))
  }

  function AddMissing(sha: Data -> Data, s: State, row: Row): State {
    s.(cursor := s.cursor + 1, missingRows := s.missingRows + 1, missingBytes := s.missingBytes + row.size,
       scan := sha(Entry(s.scan, s.cursor, row, MISSING, Zeros(32))))
  }

  ghost predicate Positive(rows: seq<Row>) {
    forall i :: 0 <= i < |rows| ==> rows[i].size > 0
  }

  /**
   The state after reading `n` more rows, row `i` as `read(i)` says: every one is present with matching
   bytes, or a confirmed gap.
   */
  function After(sha: Data -> Data, rows: seq<Row>, read: nat -> Reading, s: State, n: nat): State
    requires s.cursor + n <= |rows|
    ensures After(sha, rows, read, s, n).cursor == s.cursor + n
  {
    if n == 0 then s
    else
      AddRow(sha, rows, read, After(sha, rows, read, s, n - 1))
  }

  /** Row `i` may be passed: bytes must match, and a gap is passed only when gaps are scanned. */
  predicate Passes(sha: Data -> Data, rows: seq<Row>, read: nat -> Reading, i: nat, stopAtMissing: bool)
    requires i < |rows|
  {
    match read(i)
    case Refused => false
    case Absent => !stopAtMissing
    case Block(data) => Matches(sha, rows[i], data)
  }

  ghost predicate AllPass(sha: Data -> Data, rows: seq<Row>, read: nat -> Reading, from: nat, n: nat, stopAtMissing: bool) {
    from + n <= |rows| && forall i :: from <= i < from + n ==> Passes(sha, rows, read, i, stopAtMissing)
  }

  /** Why a call ends after `n` rows: its row bound, the end, its byte bound, or a gap it waits for. */
  ghost predicate Ends(rows: seq<Row>, read: nat -> Reading, from: nat, n: nat, maxRows: nat, maxBytes: int,
                       stopAtMissing: bool, status: Status)
    requires from + n <= |rows|
  {
    var next := from + n;
    var added := Sum(rows[from..next]);
    var waits := next < |rows| && n < maxRows && read(next).Absent? && stopAtMissing;
    var over := next < |rows| && n > 0 && added + rows[next].size > maxBytes;
    && n <= maxRows
    && (n > 0 ==> added <= maxBytes)
    && (n == maxRows || next == |rows| || waits || over)
    && (status.Waiting? <==> waits && !over)
  }

  /**
   A call passed `n` rows, every one of them as its reading allows, and ended for one of those reasons;
   it is complete exactly when it ended at the last row with nothing missing.
   */
  ghost predicate Advanced(sha: Data -> Data, rows: seq<Row>, read: nat -> Reading, s: State, n: nat, maxRows: nat,
                           maxBytes: int, stopAtMissing: bool, after: State, status: Status) {
    && AllPass(sha, rows, read, s.cursor, n, stopAtMissing)
    && after == After(sha, rows, read, s, n)
    && Ends(rows, read, s.cursor, n, maxRows, maxBytes, stopAtMissing, status)
    && (status.Complete? <==> after.cursor == |rows| && after.missingRows == 0)
  }

  /** The row at `at` refuses the call: too large for the batch, unreadable, or with other bytes. */
  ghost predicate Stuck(sha: Data -> Data, rows: seq<Row>, read: nat -> Reading, at: nat, maxBytes: int, error: ReadbackError) {
    at < |rows| &&
    match error
    case BlockTooLarge => rows[at].size > maxBytes
    case ReadRefused => read(at).Refused?
    case SizeDiffers => read(at).Block? && |read(at).data| != rows[at].size
    case CidDiffers => read(at).Block? && Cids.RawDigest(rows[at].cid) != Some(sha(read(at).data))
    case BadCheckpoint => false
  }

  /** The state after one more row. */
  function AddRow(sha: Data -> Data, rows: seq<Row>, read: nat -> Reading, s: State): State
    requires s.cursor < |rows|
  {
    match read(s.cursor)
    case Block(data) => AddPresent(sha, s, rows[s.cursor], sha(data))
    case _ => AddMissing(sha, s, rows[s.cursor])
  }

  datatype RowOutcome = Passed(state: State) | Waits | OverBudget | Fails(error: ReadbackError)

  datatype Outcome = Advances(state: State, status: Status) | Refuses(error: ReadbackError)

  /** One row: refused, waited for, or passed. */
  method ReadRow(sha: Data -> Data, rows: seq<Row>, read: nat -> Reading, s: State, stopAtMissing: bool)
    returns (r: RowOutcome)
    requires s.cursor < |rows|
    ensures r.Fails? ==> r.error != BlockTooLarge && Stuck(sha, rows, read, s.cursor, 0, r.error)
    ensures r.Waits? <==> read(s.cursor).Absent? && stopAtMissing
    ensures !r.OverBudget?
    ensures r.Passed? ==> Passes(sha, rows, read, s.cursor, stopAtMissing) && r.state == AddRow(sha, rows, read, s)
  {
    hide Matches, AddPresent, AddMissing;
    var reading, row := read(s.cursor), rows[s.cursor];
    if reading.Refused? {
      return Fails(ReadRefused);
    }
    if reading.Absent? {
      return if stopAtMissing then Waits else Passed(AddMissing(sha, s, row));
    }
    if |reading.data| != row.size {
      return Fails(SizeDiffers);
    }
    SizeMatters(sha, row, reading.data);
    if !Matches(sha, row, reading.data) {
      return Fails(CidDiffers);
    }
    return Passed(AddPresent(sha, s, row, sha(reading.data)));
  }

  lemma SizeMatters(sha: Data -> Data, row: Row, data: Data)
    ensures Matches(sha, row, data) <==> |data| == row.size && Cids.RawDigest(row.cid) == Some(sha(data))
  {
    hide Cids.RawDigest;
  }

  /** The next row, when the call's bytes allow it. */
  method TryRow(sha: Data -> Data, rows: seq<Row>, read: nat -> Reading, s: State, addedBytes: int, maxBytes: int,
                stopAtMissing: bool)
    returns (r: RowOutcome)
    requires s.cursor < |rows|
    ensures r.OverBudget? <==> addedBytes != 0 && addedBytes + rows[s.cursor].size > maxBytes
    ensures r.Fails? ==> Stuck(sha, rows, read, s.cursor, maxBytes, r.error)
    ensures r.Waits? ==> read(s.cursor).Absent? && stopAtMissing
    ensures r.Passed? ==> addedBytes + rows[s.cursor].size <= maxBytes
    ensures r.Passed? ==> Passes(sha, rows, read, s.cursor, stopAtMissing) && r.state == AddRow(sha, rows, read, s)
  {
    hide Passes, AddRow;
    if addedBytes != 0 && addedBytes + rows[s.cursor].size > maxBytes {
      return OverBudget;
    }
    if rows[s.cursor].size > maxBytes {
      return Fails(BlockTooLarge);
    }
    r := ReadRow(sha, rows, read, s, stopAtMissing);
  }

  /** Rows one after the other up to `end`; `last` says why the loop ended. */
  method PassRows(sha: Data -> Data, rows: seq<Row>, read: nat -> Reading, s: State, end: nat, maxBytes: int,
                  stopAtMissing: bool)
    returns (last: RowOutcome, n: nat, current: State, addedBytes: int)
    requires Positive(rows) && s.cursor <= end <= |rows|
    ensures s.cursor + n <= end && Progress(sha, rows, read, s, n, stopAtMissing, current, addedBytes)
    ensures last.Passed? <==> s.cursor + n == end
    ensures n > 0 ==> addedBytes <= maxBytes
    ensures s.cursor + n < end ==> (last.OverBudget? <==> addedBytes != 0 && addedBytes + rows[s.cursor + n].size > maxBytes)
    ensures last.Waits? ==> read(s.cursor + n).Absent? && stopAtMissing
    ensures last.Fails? ==> Stuck(sha, rows, read, s.cursor + n, maxBytes, last.error)
  {
    hide *;
    n, current, addedBytes := 0, s, 0;
    ProgressNone(sha, rows, read, s, stopAtMissing);
    while s.cursor + n < end
      invariant s.cursor + n <= end && (n > 0 ==> addedBytes <= maxBytes)
      invariant Progress(sha, rows, read, s, n, stopAtMissing, current, addedBytes)
      decreases end - n
    {
      ProgressBytes(sha, rows, read, s, n, stopAtMissing, current, addedBytes);
      last := TryRow(sha, rows, read, current, addedBytes, maxBytes, stopAtMissing);
      if !last.Passed? {
        return;
      }
      ProgressStep(sha, rows, read, s, n, stopAtMissing, current, addedBytes);
      addedBytes := addedBytes + rows[current.cursor].size;
      current := last.state;
      n := n + 1;
    }
    last := Passed(current);
  }

  method Advance(sha: Data -> Data, rows: seq<Row>, read: nat -> Reading, s: State, maxRows: nat, maxBytes: int,
                 stopAtMissing: bool)
    returns (r: Outcome, n: nat)
    requires Positive(rows) && s.cursor <= |rows| && 1 <= maxRows
    ensures r.Advances? ==> Advanced(sha, rows, read, s, n, maxRows, maxBytes, stopAtMissing, r.state, r.status)
    ensures r.Refuses? ==>
              n < maxRows && Stuck(sha, rows, read, s.cursor + n, maxBytes, r.error)
  {
    hide *;
    if s.cursor == |rows| {
      AdvancedNone(sha, rows, read, s, maxRows, maxBytes, stopAtMissing);
      return Advances(s, if s.missingRows == 0 then Complete else Partial), 0;
    }
    var end := if s.cursor + maxRows < |rows| then s.cursor + maxRows else |rows|;
    var last, passed, current, addedBytes := PassRows(sha, rows, read, s, end, maxBytes, stopAtMissing);
    n := passed;
    if last.Fails? {
      return Refuses(last.error), n;
    }
    var status :=
      if last.Waits? then Waiting else if current.cursor == |rows| && current.missingRows == 0 then Complete else Partial;
    ProgressEnds(sha, rows, read, s, n, stopAtMissing, current, addedBytes, maxRows, maxBytes, status);
    return Advances(current, status), n;
  }

  /** The loop's variables after `n` rows. */
  ghost predicate Progress(sha: Data -> Data, rows: seq<Row>, read: nat -> Reading, s: State, n: nat, stopAtMissing: bool,
                           current: State, addedBytes: int) {
    && s.cursor + n <= |rows|
    && current == After(sha, rows, read, s, n) && AllPass(sha, rows, read, s.cursor, n, stopAtMissing)
    && addedBytes == Sum(rows[s.cursor..s.cursor + n]) >= 0 && (addedBytes == 0 <==> n == 0)
  }

  lemma ProgressNone(sha: Data -> Data, rows: seq<Row>, read: nat -> Reading, s: State, stopAtMissing: bool)
    requires s.cursor <= |rows|
    ensures Progress(sha, rows, read, s, 0, stopAtMissing, s, 0)
  {
    assert rows[s.cursor..s.cursor] == [];
    NoBytes();
  }

  lemma ProgressBytes(sha: Data -> Data, rows: seq<Row>, read: nat -> Reading, s: State, n: nat, stopAtMissing: bool,
                      current: State, addedBytes: int)
    requires Progress(sha, rows, read, s, n, stopAtMissing, current, addedBytes)
    ensures current.cursor == s.cursor + n
  {
    hide Sum, AllPass;
  }

  lemma ProgressStep(sha: Data -> Data, rows: seq<Row>, read: nat -> Reading, s: State, n: nat, stopAtMissing: bool,
                     before: State, addedBytes: int)
    requires Progress(sha, rows, read, s, n, stopAtMissing, before, addedBytes) && s.cursor + n < |rows| && Positive(rows)
    requires Passes(sha, rows, read, s.cursor + n, stopAtMissing)
    ensures before.cursor == s.cursor + n
    ensures Progress(sha, rows, read, s, n + 1, stopAtMissing, AddRow(sha, rows, read, before),
                     addedBytes + rows[s.cursor + n].size)
  {
    hide AddRow, Passes, AllPass, After, Sum;
    var i := s.cursor + n;
    AfterStep(sha, rows, read, s, n, stopAtMissing);
    assert rows[s.cursor..i + 1] == rows[s.cursor..i] + [rows[i]];
    SumAppend(rows[s.cursor..i], rows[i]);
  }

  lemma ProgressEnds(sha: Data -> Data, rows: seq<Row>, read: nat -> Reading, s: State, n: nat, stopAtMissing: bool,
                     current: State, addedBytes: int, maxRows: nat, maxBytes: int, status: Status)
    requires Progress(sha, rows, read, s, n, stopAtMissing, current, addedBytes)
    requires n <= maxRows && s.cursor + n <= |rows| && (n > 0 ==> addedBytes <= maxBytes)
    requires var next := s.cursor + n;
             n < maxRows && next < |rows| ==>
               (addedBytes != 0 && addedBytes + rows[next].size > maxBytes) || (read(next).Absent? && stopAtMissing)
    requires var next := s.cursor + n;
             status.Waiting? <==>
             && n < maxRows && next < |rows| && read(next).Absent? && stopAtMissing
             && !(addedBytes != 0 && addedBytes + rows[next].size > maxBytes)
    requires !status.Waiting? ==> (status.Complete? <==> current.cursor == |rows| && current.missingRows == 0)
    ensures Advanced(sha, rows, read, s, n, maxRows, maxBytes, stopAtMissing, current, status)
  {
    hide Sum, AllPass;
  }

  lemma AdvancedNone(sha: Data -> Data, rows: seq<Row>, read: nat -> Reading, s: State, maxRows: nat, maxBytes: int,
                     stopAtMissing: bool)
    requires s.cursor == |rows|
    ensures Advanced(sha, rows, read, s, 0, maxRows, maxBytes, stopAtMissing, s,
                     if s.missingRows == 0 then Complete else Partial)
  {
    hide Sum;
  }

  lemma NoBytes()
    ensures Sum([]) == 0
  {
  }

  lemma AfterStep(sha: Data -> Data, rows: seq<Row>, read: nat -> Reading, s: State, n: nat, stopAtMissing: bool)
    requires AllPass(sha, rows, read, s.cursor, n, stopAtMissing) && s.cursor + n < |rows|
    requires Passes(sha, rows, read, s.cursor + n, stopAtMissing)
    ensures AllPass(sha, rows, read, s.cursor, n + 1, stopAtMissing)
    ensures After(sha, rows, read, s, n + 1) == AddRow(sha, rows, read, After(sha, rows, read, s, n))
    ensures After(sha, rows, read, s, n + 1).cursor == s.cursor + n + 1
  {
    hide AddRow, Matches;
  }

  /** load_state, as far as it checks the counters. */
  predicate Loadable(rows: seq<Row>, s: State) {
    s.presentBytes >= 0 && s.missingBytes >= 0 && s.cursor <= |rows| && s.presentRows + s.missingRows == s.cursor
  }

  // ----- any sequence of calls

  /** One call on the saved state: its bounds, what it could read, and how many rows it passed. */
  datatype Call = Call(read: nat -> Reading, stopAtMissing: bool, n: nat)

  /** The saved states between calls; a call that is refused or stopped leaves the state as it was (n = 0). */
  ghost predicate History(sha: Data -> Data, rows: seq<Row>, calls: seq<Call>, states: seq<State>) {
    && |states| == |calls| + 1
    && states[0] == FreshState()
    && forall i :: 0 <= i < |calls| ==>
         && AllPass(sha, rows, calls[i].read, states[i].cursor, calls[i].n, calls[i].stopAtMissing)
         && states[i + 1] == After(sha, rows, calls[i].read, states[i], calls[i].n)
  }

  /** What reading the first `k` rows gives, all of them present: nothing but the rows goes in. */
  function ReadAll(sha: Data -> Data, rows: seq<Row>, k: nat): State
    requires k <= |rows|
    ensures ReadAll(sha, rows, k).cursor == k
  {
    if k == 0 then FreshState()
    else
      var digest := Cids.RawDigest(rows[k - 1].cid);
      AddPresent(sha, ReadAll(sha, rows, k - 1), rows[k - 1], if digest.Some? then digest.value else [])
  }

  lemma {:induction false} AfterDefault(sha: Data -> Data, rows: seq<Row>, read: nat -> Reading, k: nat, n: nat)
    requires AllPass(sha, rows, read, k, n, true)
    ensures After(sha, rows, read, ReadAll(sha, rows, k), n) == ReadAll(sha, rows, k + n)
    decreases n
  {
    hide AddPresent, AddMissing, Cids.RawDigest;
    if n > 0 {
      AfterDefault(sha, rows, read, k, n - 1);
      assert Passes(sha, rows, read, k + n - 1, true);
    }
  }

  /**
   In the default mode the checkpoint at cursor k is a function of the first k rows alone, whatever
   bounds, waits, refusals and restarts led there.
   */
  lemma {:induction false} DefaultIsFunctionOfRows(sha: Data -> Data, rows: seq<Row>, calls: seq<Call>, states: seq<State>, j: nat)
    requires History(sha, rows, calls, states) && j < |states|
    requires forall i :: 0 <= i < |calls| ==> calls[i].stopAtMissing
    ensures states[j].cursor <= |rows| && states[j] == ReadAll(sha, rows, states[j].cursor)
    decreases j
  {
    hide After, AllPass, ReadAll;
    if j > 0 {
      DefaultIsFunctionOfRows(sha, rows, calls, states, j - 1);
      AfterWithin(sha, rows, calls[j - 1].read, states[j - 1], calls[j - 1].n, true);
      AfterDefault(sha, rows, calls[j - 1].read, states[j - 1].cursor, calls[j - 1].n);
    } else {
      ReadNone(sha, rows);
    }
  }

  lemma ReadNone(sha: Data -> Data, rows: seq<Row>)
    ensures ReadAll(sha, rows, 0) == FreshState()
  {
  }

  lemma AfterWithin(sha: Data -> Data, rows: seq<Row>, read: nat -> Reading, s: State, n: nat, stopAtMissing: bool)
    requires AllPass(sha, rows, read, s.cursor, n, stopAtMissing)
    ensures s.cursor + n <= |rows|
  {
  }

  /** Rows and bytes add up. */
  ghost predicate Adds(rows: seq<Row>, s: State) {
    && Loadable(rows, s)
    && s.presentBytes + s.missingBytes == Sum(rows[..s.cursor])
  }

  lemma {:induction false} AfterAdds(sha: Data -> Data, rows: seq<Row>, read: nat -> Reading, s: State, n: nat)
    requires Positive(rows) && s.cursor + n <= |rows| && Adds(rows, s)
    ensures Adds(rows, After(sha, rows, read, s, n))
    decreases n
  {
    hide Entry, Sum;
    if n > 0 {
      AfterAdds(sha, rows, read, s, n - 1);
      var i := s.cursor + n - 1;
      assert rows[..i + 1] == rows[..i] + [rows[i]];
      SumAppend(rows[..i], rows[i]);
    }
  }

  /** In both modes, mixed as one likes: present and missing rows are the cursor, their bytes the first rows' sizes. */
  lemma {:induction false} CountsAdd(sha: Data -> Data, rows: seq<Row>, calls: seq<Call>, states: seq<State>, j: nat)
    requires Positive(rows) && History(sha, rows, calls, states) && j < |states|
    ensures Adds(rows, states[j])
    decreases j
  {
    if j > 0 {
      hide After, Adds, Positive;
      CountsAdd(sha, rows, calls, states, j - 1);
      AfterAdds(sha, rows, calls[j - 1].read, states[j - 1], calls[j - 1].n);
    } else {
      assert rows[..0] == [];
    }
  }

  lemma HistoryNone(sha: Data -> Data, rows: seq<Row>)
    ensures History(sha, rows, [], [FreshState()])
  {
  }

  lemma HistorySize(sha: Data -> Data, rows: seq<Row>, calls: seq<Call>, states: seq<State>)
    requires History(sha, rows, calls, states)
    ensures |states| == |calls| + 1
  {
  }

  lemma AddsIsLoadable(rows: seq<Row>, s: State)
    ensures Adds(rows, s) ==> Loadable(rows, s) && s.cursor <= |rows|
  {
  }

  lemma HistoryStep(sha: Data -> Data, rows: seq<Row>, calls: seq<Call>, states: seq<State>, c: Call)
    requires History(sha, rows, calls, states)
    requires AllPass(sha, rows, c.read, states[|calls|].cursor, c.n, c.stopAtMissing)
    ensures History(sha, rows, calls + [c], states + [After(sha, rows, c.read, states[|calls|], c.n)])
  {
    hide AllPass, After;
  }

  lemma AfterNothing(sha: Data -> Data, rows: seq<Row>, read: nat -> Reading, s: State, stopAtMissing: bool)
    requires s.cursor <= |rows|
    ensures AllPass(sha, rows, read, s.cursor, 0, stopAtMissing) && After(sha, rows, read, s, 0) == s
  {
  }

  lemma AdvancedParts(sha: Data -> Data, rows: seq<Row>, read: nat -> Reading, s: State, n: nat, maxRows: nat,
                      maxBytes: int, stopAtMissing: bool, after: State, status: Status)
    requires Advanced(sha, rows, read, s, n, maxRows, maxBytes, stopAtMissing, after, status)
    ensures AllPass(sha, rows, read, s.cursor, n, stopAtMissing) && after == After(sha, rows, read, s, n)
  {
    hide After, Sum, AllPass;
    assert AllPass(sha, rows, read, s.cursor, n, stopAtMissing);
  }

  /** What one invocation is given; it may stop before its checkpoint is saved. */
  datatype Request = Request(read: nat -> Reading, maxRows: nat, maxBytes: int, stopAtMissing: bool, stops: bool)

  /** The invocation is not stopped, and finds every block with the right bytes, none above its byte bound. */
  ghost predicate Undisturbed(sha: Data -> Data, rows: seq<Row>, q: Request) {
    && !q.stops && 1 <= q.maxRows
    && forall i :: 0 <= i < |rows| ==>
         rows[i].size <= q.maxBytes && q.read(i).Block? && Matches(sha, rows[i], q.read(i).data)
  }

  /** An undisturbed invocation is not refused, passes a row unless it is at the end, and finds no gap. */
  lemma UndisturbedCall(sha: Data -> Data, rows: seq<Row>, q: Request, s: State, r: Outcome, n: nat)
    requires Undisturbed(sha, rows, q) && s.cursor <= |rows|
    requires r.Advances? ==> Advanced(sha, rows, q.read, s, n, q.maxRows, q.maxBytes, q.stopAtMissing, r.state, r.status)
    requires r.Refuses? ==> Stuck(sha, rows, q.read, s.cursor + n, q.maxBytes, r.error)
    ensures !q.stops && r.Advances? && !r.status.Waiting? && r.state.cursor == s.cursor + n && (n > 0 || s.cursor == |rows|)
    ensures r.state.missingRows == s.missingRows
  {
    hide Cids.RawDigest, After, Sum;
    if r.Advances? {
      NoGaps(sha, rows, q.read, s, n);
    }
  }

  lemma {:induction false} NoGaps(sha: Data -> Data, rows: seq<Row>, read: nat -> Reading, s: State, n: nat)
    requires s.cursor + n <= |rows| && forall i :: 0 <= i < |rows| ==> read(i).Block?
    ensures After(sha, rows, read, s, n).missingRows == s.missingRows
  {
    hide Entry;
    if n > 0 {
      NoGaps(sha, rows, read, s, n - 1);
    }
  }

  /** The checkpoint file of one readback. */
  class Verifier {
    const sha: Data -> Data
    const rows: seq<Row>
    var saved: State
    ghost var calls: seq<Call>
    ghost var states: seq<State>

    ghost predicate Valid()
      reads this
    {
      Positive(rows) && History(sha, rows, calls, states) && saved == states[|calls|]
    }

    constructor (sha: Data -> Data, rows: seq<Row>)
      requires Positive(rows)
      ensures Valid() && this.sha == sha && this.rows == rows && saved == FreshState() && calls == []
    {
      HistoryNone(sha, rows);
      this.sha, this.rows, saved := sha, rows, FreshState();
      calls, states := [], [FreshState()];
    }

    /** One invocation: the checkpoint is loaded, which is never refused, advanced and saved. */
    method Run(q: Request) returns (r: Outcome, passed: nat)
      requires Valid() && 1 <= q.maxRows
      modifies this
      ensures Valid() && |calls| == |old(calls)| + 1 && calls[..|old(calls)|] == old(calls)
      ensures calls[|old(calls)|] == Call(q.read, q.stopAtMissing, if r.Advances? && !q.stops then passed else 0)
      ensures r.Advances? ==>
                Advanced(sha, rows, q.read, old(saved), passed, q.maxRows, q.maxBytes, q.stopAtMissing, r.state, r.status)
      ensures r.Refuses? ==> passed < q.maxRows && Stuck(sha, rows, q.read, old(saved).cursor + passed, q.maxBytes, r.error)
      ensures Adds(rows, saved)
      ensures saved == if r.Advances? && !q.stops then r.state else old(saved)
    {
      hide Positive, History, Adds, Loadable, After, AllPass, Advanced, Stuck;
      HistorySize(sha, rows, calls, states);
      CountsAdd(sha, rows, calls, states, |calls|);
      AddsIsLoadable(rows, saved);
      passed := 0;
      if !Loadable(rows, saved) {
        r := Refuses(BadCheckpoint);
        return;
      }
      ghost var s := saved;
      r, passed := Advance(sha, rows, q.read, saved, q.maxRows, q.maxBytes, q.stopAtMissing);
      ghost var n := 0;
      AfterNothing(sha, rows, q.read, s, q.stopAtMissing);
      if r.Advances? && !q.stops {
        AdvancedParts(sha, rows, q.read, s, passed, q.maxRows, q.maxBytes, q.stopAtMissing, r.state, r.status);
        saved := r.state;
        n := passed;
      }
      HistoryStep(sha, rows, calls, states, Call(q.read, q.stopAtMissing, n));
      calls, states := calls + [Call(q.read, q.stopAtMissing, n)], states + [saved];
      CountsAdd(sha, rows, calls, states, |calls|);
    }

    /**
     Any sequence of invocations. In the default mode the checkpoint it leaves is a function of the rows
     before its cursor. Undisturbed ones pass at least a row each until the readback is at its end.
     */
    method RunAll(requests: seq<Request>)
      requires Valid() && forall i :: 0 <= i < |requests| ==> 1 <= requests[i].maxRows
      modifies this
      ensures Valid() && Adds(rows, saved)
      ensures |calls| == |old(calls)| + |requests| && calls[..|old(calls)|] == old(calls)
      ensures old(calls) == [] && (forall i :: 0 <= i < |requests| ==> requests[i].stopAtMissing) ==>
                saved.cursor <= |rows| && saved == ReadAll(sha, rows, saved.cursor)
      ensures (forall q :: q in requests ==> Undisturbed(sha, rows, q)) ==>
                && saved.cursor >= Min(old(saved).cursor + |requests|, |rows|)
                && saved.missingRows == old(saved).missingRows
    {
      hide History, Positive, Adds, ReadAll, Advanced, Stuck, Undisturbed, After, AllPass;
      for k := 0 to |requests|
        invariant Valid() && |calls| == |old(calls)| + k && calls[..|old(calls)|] == old(calls)
        invariant forall i :: 0 <= i < k ==> calls[|old(calls)| + i].stopAtMissing == requests[i].stopAtMissing
        invariant (forall q :: q in requests ==> Undisturbed(sha, rows, q)) ==>
                    && saved.cursor >= Min(old(saved).cursor + k, |rows|)
                    && saved.missingRows == old(saved).missingRows
      {
        ghost var before, s := calls, saved;
        HistorySize(sha, rows, calls, states);
        CountsAdd(sha, rows, calls, states, |calls|);
        AddsIsLoadable(rows, saved);
        var r, passed := Run(requests[k]);
        if Undisturbed(sha, rows, requests[k]) {
          UndisturbedCall(sha, rows, requests[k], s, r, passed);
        }
        assert forall i :: 0 <= i < |before| ==> calls[i] == calls[..|before|][i];
      }
      HistorySize(sha, rows, calls, states);
      CountsAdd(sha, rows, calls, states, |calls|);
      if old(calls) == [] && forall i :: 0 <= i < |requests| ==> requests[i].stopAtMissing {
        forall i | 0 <= i < |calls|
          ensures calls[i].stopAtMissing
        {
          assert calls[|old(calls)| + i].stopAtMissing == requests[i].stopAtMissing;
        }
        DefaultIsFunctionOfRows(sha, rows, calls, states, |calls|);
      }
    }
  }

  // ----- what the running digest binds

  /** What happened at one row. */
  datatype Fact = Fact(row: Row, kind: Data, digest: Data)

  ghost predicate WellFormed(f: Fact) {
    && (forall i :: 0 <= i < |f.row.cid| ==> f.row.cid[i] as int < 128)
    && 0 <= f.row.size < TWO_TO_THE_64 && |f.kind| == 7 && |f.digest| == 32
  }

  ghost predicate Proper(facts: seq<Fact>) {
    forall f :: f in facts ==> WellFormed(f)
  }

  lemma ProperPrefix(facts: seq<Fact>, n: nat)
    requires Proper(facts) && n <= |facts|
    ensures Proper(facts[..n])
  {
  }

  /** The running digest over a list of facts. */
  function Digest(sha: Data -> Data, facts: seq<Fact>): Data
    requires Proper(facts)
    decreases |facts|
  {
    if facts == [] then Zeros(32)
    else
      var n := |facts| - 1;
      sha(Entry(Digest(sha, facts[..n]), n, facts[n].row, facts[n].kind, facts[n].digest))
  }

  lemma AsciiInjective(a: string, b: string)
    requires forall i :: 0 <= i < |a| ==> a[i] as int < 128
    requires forall i :: 0 <= i < |b| ==> b[i] as int < 128
    requires Ascii(a) == Ascii(b)
    ensures a == b
  {
    forall i | 0 <= i < |a|
      ensures a[i] == b[i]
    {
      assert Ascii(a)[i] == Ascii(b)[i];
    }
  }

  lemma SplitParts(a: Data, b: Data, c: Data, d: Data, e: Data, f: Data, g: Data, h: Data)
    requires |a| == |e| && |c| == |g| && |d| == |h| && a + b + c + d == e + f + g + h
    ensures a == e && b == f && c == g && d == h
  {
    Parts(a, b, c, d);
    Parts(e, f, g, h);
  }

  /**
   What is hashed at a row: the running digest, the row's number, its CID in ASCII, its size, "present" or
   "missing", and the block's digest or zeros; the numbers in network byte order.
   */
  lemma EntryFields(scan: Data, cursor: nat, row: Row, present: bool, digest: Data)
    requires |scan| == 32 && |digest| == 32 && cursor < TWO_TO_THE_64 && 0 <= row.size < TWO_TO_THE_64
    ensures var e, n := Entry(scan, cursor, row, if present then PRESENT else MISSING, digest), |row.cid|;
            && |e| == n + 87
            && e[..32] == scan && FromBE(e[32..40]) == cursor
            && e[40..n + 40] == Ascii(row.cid)
            && FromBE(e[n + 40..n + 48]) == row.size
            && e[n + 48..n + 55] == Ascii(if present then "present" else "missing")
            && e[n + 55..] == digest
  {
    hide BE, FromBE, Ascii;
    Pow256();
    FromBEOfBE(8, cursor);
    FromBEOfBE(8, row.size);
    var kind := if present then PRESENT else MISSING;
    Kinds();
    var at, cid, size := BE(8, cursor), Ascii(row.cid), BE(8, row.size);
    var e := Entry(scan, cursor, row, kind, digest);
    AsciiSize(row.cid);
    Six(scan, at, cid, size, kind, digest, e);
  }

  lemma AsciiSize(text: string)
    ensures |Ascii(text)| == |text|
  {
  }

  lemma Kinds()
    ensures PRESENT == Ascii("present") && MISSING == Ascii("missing")
  {
  }

  lemma Six(a: Data, b: Data, c: Data, d: Data, k: Data, f: Data, e: Data)
    requires e == a + b + c + d + k + f && |a| == 32 && |b| == 8 && |d| == 8 && |k| == 7
    ensures var n := |c|;
            && |e| == n + 55 + |f| && e[..32] == a && e[32..40] == b && e[40..n + 40] == c
            && e[n + 40..n + 48] == d && e[n + 48..n + 55] == k && e[n + 55..] == f
  {
  }

  lemma EntryInjective(s: Data, t: Data, n: nat, f: Fact, g: Fact)
    requires |s| == 32 && |t| == 32 && WellFormed(f) && WellFormed(g)
    requires Entry(s, n, f.row, f.kind, f.digest) == Entry(t, n, g.row, g.kind, g.digest)
    ensures s == t && f == g
  {
    hide BE, Ascii;
    var x, y := s + BE(8, n), t + BE(8, n);
    var u, v := BE(8, f.row.size) + f.kind, BE(8, g.row.size) + g.kind;
    assert Entry(s, n, f.row, f.kind, f.digest) == x + Ascii(f.row.cid) + u + f.digest;
    assert Entry(t, n, g.row, g.kind, g.digest) == y + Ascii(g.row.cid) + v + g.digest;
    SplitParts(x, Ascii(f.row.cid), u, f.digest, y, Ascii(g.row.cid), v, g.digest);
    assert x[..32] == s && y[..32] == t;
    assert u[..8] == BE(8, f.row.size) && v[..8] == BE(8, g.row.size);
    assert u[8..] == f.kind && v[8..] == g.kind;
    AsciiInjective(f.row.cid, g.row.cid);
    Pow256();
    BEInjective(8, f.row.size, g.row.size);
  }

  /** What is hashed at fact `k`. */
  function Hashed(sha: Data -> Data, facts: seq<Fact>, k: nat): Data
    requires k < |facts| && Proper(facts)
  {
    Entry(Digest(sha, facts[..k]), k, facts[k].row, facts[k].kind, facts[k].digest)
  }

  /** At fact `k` the two readbacks hashed different bytes and got the same hash. */
  ghost predicate Collides(sha: Data -> Data, a: seq<Fact>, b: seq<Fact>, k: nat)
    requires Proper(a) && Proper(b)
  {
    k < |a| && k < |b| && Hashed(sha, a, k) != Hashed(sha, b, k) && sha(Hashed(sha, a, k)) == sha(Hashed(sha, b, k))
  }

  /**
   Two readbacks at the same cursor with the same running digest read the same rows, found the same ones
   present and the same ones missing, with the same block digests, unless the hash has one value for the
   two different byte strings they hashed at some row.
   */
  lemma {:induction false} DigestBinds(sha: Data -> Data, a: seq<Fact>, b: seq<Fact>)
    requires forall x :: |sha(x)| == 32
    requires Proper(a) && Proper(b)
    requires |a| == |b| && Digest(sha, a) == Digest(sha, b)
    ensures a == b || exists k: nat :: Collides(sha, a, b, k)
    decreases |a|
  {
    if a != [] {
      hide Proper, Collides, Hashed, Digest;
      var n := |a| - 1;
      ProperPrefix(a, n);
      ProperPrefix(b, n);
      LastHashed(sha, a);
      LastHashed(sha, b);
      if Hashed(sha, a, n) != Hashed(sha, b, n) {
        CollidesLast(sha, a, b, n);
      } else {
        SameHashed(sha, a, b, n);
        DigestBinds(sha, a[..n], b[..n]);
        assert a == a[..n] + [a[n]] && b == b[..n] + [b[n]];
        if k: nat :| Collides(sha, a[..n], b[..n], k) {
          CollidesLater(sha, a, b, n, k);
        }
      }
    }
  }

  /** The same bytes hashed at one row are those of the same fact and of the same digest before it. */
  lemma SameHashed(sha: Data -> Data, a: seq<Fact>, b: seq<Fact>, n: nat)
    requires forall x :: |sha(x)| == 32
    requires Proper(a) && Proper(b)
    requires n < |a| && n < |b| && Hashed(sha, a, n) == Hashed(sha, b, n)
    ensures a[n] == b[n] && Digest(sha, a[..n]) == Digest(sha, b[..n])
  {
    hide Entry, WellFormed, Digest;
    assert a[n] in a && b[n] in b;
    DigestSize(sha, a[..n]);
    DigestSize(sha, b[..n]);
    EntryInjective(Digest(sha, a[..n]), Digest(sha, b[..n]), n, a[n], b[n]);
  }

  lemma LastHashed(sha: Data -> Data, facts: seq<Fact>)
    requires facts != [] && Proper(facts)
    ensures var n := |facts| - 1;
            && Digest(sha, facts) == sha(Hashed(sha, facts, n))
            && Hashed(sha, facts, n) == Entry(Digest(sha, facts[..n]), n, facts[n].row, facts[n].kind, facts[n].digest)
  {
    hide Entry, WellFormed;
  }

  lemma CollidesLast(sha: Data -> Data, a: seq<Fact>, b: seq<Fact>, n: nat)
    requires Proper(a) && Proper(b)
    requires n < |a| && n < |b| && Hashed(sha, a, n) != Hashed(sha, b, n) && sha(Hashed(sha, a, n)) == sha(Hashed(sha, b, n))
    ensures Collides(sha, a, b, n)
  {
  }

  lemma CollidesLater(sha: Data -> Data, a: seq<Fact>, b: seq<Fact>, n: nat, k: nat)
    requires Proper(a) && Proper(b)
    requires n <= |a| && n <= |b| && Collides(sha, a[..n], b[..n], k)
    ensures Collides(sha, a, b, k)
  {
    hide WellFormed, Entry, Digest;
    assert a[..n][..k] == a[..k] && b[..n][..k] == b[..k];
  }

  lemma DigestSize(sha: Data -> Data, facts: seq<Fact>)
    requires (forall x :: |sha(x)| == 32) && Proper(facts)
    ensures |Digest(sha, facts)| == 32
  {
  }

  /** The facts the default mode puts into the digest are those of the rows. */
  lemma {:induction false} DefaultDigest(sha: Data -> Data, rows: seq<Row>, k: nat)
    requires k <= |rows| && DigestedRows(rows, k)
    ensures Proper(DefaultFacts(rows[..k]))
    ensures ReadAll(sha, rows, k).scan == Digest(sha, DefaultFacts(rows[..k]))
    decreases k
  {
    hide Entry, WellFormed, DefaultFact, Digest, DefaultFacts, DigestedRows, Cids.RawDigest;
    FactsWellFormed(rows, k);
    FactsStep(rows, k);
    if k > 0 {
      DefaultDigest(sha, rows, k - 1);
      DigestAppend(sha, DefaultFacts(rows[..k - 1]), DefaultFact(rows[k - 1]));
      DefaultEntry(rows[k - 1]);
    } else {
      DigestNone(sha);
    }
  }

  lemma FactsStep(rows: seq<Row>, k: nat)
    requires k <= |rows| && DigestedRows(rows, k)
    ensures k == 0 ==> DefaultFacts(rows[..k]) == []
    ensures k > 0 ==> DefaultFacts(rows[..k]) == DefaultFacts(rows[..k - 1]) + [DefaultFact(rows[k - 1])]
    ensures k > 0 ==> DigestedRows(rows, k - 1) && |DefaultFacts(rows[..k - 1])| == k - 1
  {
    hide WellFormed, DefaultFact, Cids.RawDigest;
  }

  ghost predicate DigestedRows(rows: seq<Row>, k: nat) {
    k <= |rows| && forall i :: 0 <= i < k ==> Cids.RawDigest(rows[i].cid).Some? && WellFormed(DefaultFact(rows[i]))
  }

  lemma FactsWellFormed(rows: seq<Row>, k: nat)
    requires DigestedRows(rows, k)
    ensures Proper(DefaultFacts(rows[..k]))
  {
    hide WellFormed, DefaultFact, Cids.RawDigest;
  }

  lemma DefaultEntry(row: Row)
    ensures DefaultFact(row) ==
            Fact(row, PRESENT, if Cids.RawDigest(row.cid).Some? then Cids.RawDigest(row.cid).value else [])
  {
    hide Cids.RawDigest;
  }

  lemma DigestNone(sha: Data -> Data)
    ensures Digest(sha, []) == Zeros(32)
  {
  }

  lemma DigestAppend(sha: Data -> Data, facts: seq<Fact>, f: Fact)
    requires Proper(facts + [f])
    ensures Proper(facts) &&
            Digest(sha, facts + [f]) == sha(Entry(Digest(sha, facts), |facts|, f.row, f.kind, f.digest))
  {
    hide Entry, WellFormed;
    assert (facts + [f])[..|facts|] == facts;
  }

  /** A present row with its CID's own digest. */
  function DefaultFact(row: Row): Fact {
    Fact(row, PRESENT, if Cids.RawDigest(row.cid).Some? then Cids.RawDigest(row.cid).value else [])
  }

  function DefaultFacts(rows: seq<Row>): seq<Fact> {
    seq(|rows|, i requires 0 <= i < |rows| => DefaultFact(rows[i]))
  }

  /** What one reading of a row puts into the digest: present with its bytes' digest, or missing with zeros. */
  function FactOf(sha: Data -> Data, row: Row, reading: Reading): Fact {
    if reading.Block? then Fact(row, PRESENT, sha(reading.data)) else Fact(row, MISSING, Zeros(32))
  }

  /** `facts` are those of the first rows, one for each, as some readings gave them. */
  ghost predicate FactsOf(sha: Data -> Data, rows: seq<Row>, facts: seq<Fact>) {
    && |facts| <= |rows|
    && forall i :: 0 <= i < |facts| ==> IsFact(sha, rows[i], facts[i])
  }

  ghost predicate IsFact(sha: Data -> Data, row: Row, f: Fact) {
    exists reading :: f == FactOf(sha, row, reading)
  }

  ghost predicate Digests(sha: Data -> Data, facts: seq<Fact>, s: State) {
    && Proper(facts)
    && |facts| == s.cursor && s.scan == Digest(sha, facts)
  }

  /** Every row has eight bytes for its size and a CID in ASCII. */
  ghost predicate Plain(rows: seq<Row>) {
    forall i :: 0 <= i < |rows| ==> WellFormed(Fact(rows[i], MISSING, Zeros(32)))
  }

  lemma {:induction false} AfterDigests(sha: Data -> Data, rows: seq<Row>, read: nat -> Reading, s: State, n: nat, facts: seq<Fact>)
    returns (all: seq<Fact>)
    requires (forall x :: |sha(x)| == 32) && Plain(rows) && s.cursor + n <= |rows|
    requires Digests(sha, facts, s) && FactsOf(sha, rows, facts)
    ensures Digests(sha, all, After(sha, rows, read, s, n)) && FactsOf(sha, rows, all)
    ensures |all| == |facts| + n && all[..|facts|] == facts
    ensures forall i :: |facts| <= i < |all| ==> all[i] == FactOf(sha, rows[i], read(i))
    decreases n
  {
    hide AddRow, Digests, FactsOf, Plain, FactOf;
    if n == 0 {
      all := facts;
    } else {
      var before := AfterDigests(sha, rows, read, s, n - 1, facts);
      DigestsSize(sha, facts, s);
      var t := After(sha, rows, read, s, n - 1);
      StepDigests(sha, rows, read, t, before);
      all := before + [FactOf(sha, rows[t.cursor], read(t.cursor))];
    }
  }

  lemma DigestsSize(sha: Data -> Data, facts: seq<Fact>, s: State)
    requires Digests(sha, facts, s)
    ensures |facts| == s.cursor
  {
  }

  lemma StepDigests(sha: Data -> Data, rows: seq<Row>, read: nat -> Reading, s: State, facts: seq<Fact>)
    requires (forall x :: |sha(x)| == 32) && Plain(rows) && s.cursor < |rows|
    requires Digests(sha, facts, s) && FactsOf(sha, rows, facts)
    ensures var all := facts + [FactOf(sha, rows[s.cursor], read(s.cursor))];
            Digests(sha, all, AddRow(sha, rows, read, s)) && FactsOf(sha, rows, all)
  {
    hide Entry, Digest, WellFormed;
    var f := FactOf(sha, rows[s.cursor], read(s.cursor));
    FactWellFormed(rows, s.cursor, f);
    DigestAppend(sha, facts, f);
    FactsAppend(sha, rows, facts, read(s.cursor));
  }

  lemma FactsAppend(sha: Data -> Data, rows: seq<Row>, facts: seq<Fact>, reading: Reading)
    requires FactsOf(sha, rows, facts) && |facts| < |rows|
    ensures FactsOf(sha, rows, facts + [FactOf(sha, rows[|facts|], reading)])
  {
    hide FactOf;
    var f := FactOf(sha, rows[|facts|], reading);
    assert IsFact(sha, rows[|facts|], f);
  }

  lemma FactWellFormed(rows: seq<Row>, i: nat, f: Fact)
    requires Plain(rows) && i < |rows| && f.row == rows[i] && |f.kind| == 7 && |f.digest| == 32
    ensures WellFormed(f)
  {
  }

  /**
   In both modes, mixed as one likes, the running digest is that of one fact a row: present with the digest
   of the bytes read, or missing with zeros.
   */
  lemma {:induction false} HistoryDigest(sha: Data -> Data, rows: seq<Row>, calls: seq<Call>, states: seq<State>, j: nat)
    returns (facts: seq<Fact>)
    requires (forall x :: |sha(x)| == 32) && Plain(rows) && History(sha, rows, calls, states) && j < |states|
    ensures Digests(sha, facts, states[j]) && FactsOf(sha, rows, facts)
    decreases j
  {
    hide After, AllPass, Digests, FactsOf, Plain;
    if j == 0 {
      facts := [];
      NoFacts(sha, rows);
    } else {
      var before := HistoryDigest(sha, rows, calls, states, j - 1);
      AfterWithin(sha, rows, calls[j - 1].read, states[j - 1], calls[j - 1].n, calls[j - 1].stopAtMissing);
      facts := AfterDigests(sha, rows, calls[j - 1].read, states[j - 1], calls[j - 1].n, before);
    }
  }

  lemma NoFacts(sha: Data -> Data, rows: seq<Row>)
    ensures Digests(sha, [], FreshState()) && FactsOf(sha, rows, [])
  {
  }
}

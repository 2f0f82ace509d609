/** New rows against old: merge-delta, the superset check and the epoch delta. */
module MergeDelta {
  import opened Bytes
  import opened Inventory

  datatype MergeRefusal = Omits(cid: string) | ChangesSize(cid: string)

  datatype Merge = Merge(
    rows: seq<Row>,
    oldCount: nat, oldBytes: int,
    newCount: nat, newBytes: int,
    deltaCount: nat, deltaBytes: int,
    largest: int, oversized: nat)

  const NOTHING := Merge([], 0, 0, 0, 0, 0, 0, 0, 0)
  const OVERSIZED_BYTES := 8_000_000

  /** A row both inventories have. */
  function Kept(acc: Merge, row: Row): Merge {
    acc.(newCount := acc.newCount + 1, newBytes := acc.newBytes + row.size,
         oldCount := acc.oldCount + 1, oldBytes := acc.oldBytes + row.size)
  }

  /** A row only the new inventory has. */
  function Added(acc: Merge, row: Row): Merge {
    acc.(newCount := acc.newCount + 1, newBytes := acc.newBytes + row.size,
         rows := acc.rows + [row],
         deltaCount := acc.deltaCount + 1, deltaBytes := acc.deltaBytes + row.size,
         largest := Max(acc.largest, row.size),
         oversized := acc.oversized + if row.size > OVERSIZED_BYTES then 1 else 0)
  }

  function MergeFrom(base: seq<Row>, next: seq<Row>, acc: Merge): Result<Merge, MergeRefusal>
    decreases |next|
  {
    if next == [] then
      if base == [] then Ok(acc) else Err(Omits(base[0].cid))
    else
      var row := next[0];
      if base != [] && Before(base[0].cid, row.cid) then Err(Omits(base[0].cid))
      else if base != [] && base[0].cid == row.cid then
        if base[0].size == row.size then MergeFrom(base[1..], next[1..], Kept(acc, row)) else Err(ChangesSize(row.cid))
      else MergeFrom(base, next[1..], Added(acc, row))
  }

  function MergeInventories(base: seq<Row>, next: seq<Row>): Result<Merge, MergeRefusal> {
    MergeFrom(base, next, NOTHING)
  }

  /** The rows of `next` that `base` does not have, in their order. */
  function Minus(next: seq<Row>, base: seq<Row>): seq<Row> {
    if next == [] then []
    else (if next[0] in base then [] else [next[0]]) + Minus(next[1..], base)
  }

  lemma {:induction false} MinusExact(next: seq<Row>, base: seq<Row>)
    ensures forall row :: row in Minus(next, base) <==> row in next && row !in base
    decreases |next|
  {
    if next != [] {
      MinusExact(next[1..], base);
      assert next == [next[0]] + next[1..];
    }
  }

  /** Dropping a row of `base` that `next` does not have changes nothing. */
  lemma {:induction false} MinusIgnores(next: seq<Row>, base: seq<Row>)
    requires base != [] && base[0] !in next
    ensures Minus(next, base) == Minus(next, base[1..])
    decreases |next|
  {
    if next != [] {
      assert base == [base[0]] + base[1..];
      assert next[0] in next;
      assert base[0] !in next[1..];
      MinusIgnores(next[1..], base);
    }
  }

  lemma ContainsSplit(big: seq<Row>, small: seq<Row>)
    requires small != []
    ensures Contains(big, small) <==> small[0] in big && Contains(big, small[1..])
  {
    assert small == [small[0]] + small[1..];
    assert small[0] in small;
  }

  /** Both inventories start with the same row: it can be dropped from both. */
  lemma DropShared(base: seq<Row>, next: seq<Row>)
    requires Increasing(base) && Increasing(next) && base != [] && next != [] && base[0] == next[0]
    ensures Increasing(base[1..]) && Increasing(next[1..])
    ensures Contains(next, base) <==> Contains(next[1..], base[1..])
    ensures Minus(next, base) == Minus(next[1..], base[1..])
  {
    FirstIsLeast(base);
    FirstIsLeast(next);
    ContainsSplit(next, base);
    assert next == [next[0]] + next[1..];
    assert base[0] !in next[1..];
    assert base[0] in base;
    MinusIgnores(next[1..], base);
  }

  /** The first new row is before every old one: it is not old. */
  lemma DropNew(base: seq<Row>, next: seq<Row>)
    requires Increasing(base) && Increasing(next) && next != []
    requires base != [] ==> Before(next[0].cid, base[0].cid)
    ensures Increasing(next[1..])
    ensures Contains(next, base) <==> Contains(next[1..], base)
    ensures Minus(next, base) == [next[0]] + Minus(next[1..], base)
  {
    FirstIsLeast(next);
    assert next == [next[0]] + next[1..];
    if base != [] {
      FirstIsLeast(base);
      forall i | 0 <= i < |base|
        ensures base[i].cid != next[0].cid
      {
        if i > 0 {
          BeforeTransitive(next[0].cid, base[0].cid, base[i].cid);
        }
        BeforeTotal(next[0].cid, base[i].cid);
      }
    }
    assert next[0] !in base;
  }

  /** An old row before, or of another size than, the first new row is not in `next`. */
  lemma Lost(base: seq<Row>, next: seq<Row>)
    requires Increasing(next) && base != []
    requires next != [] ==> Before(base[0].cid, next[0].cid) || (base[0].cid == next[0].cid && base[0].size != next[0].size)
    ensures !Contains(next, base)
  {
    forall i | 0 <= i < |next|
      ensures next[i] != base[0]
    {
      if i > 0 {
        FirstIsLeast(next);
        if base[0].cid != next[0].cid {
          BeforeTransitive(base[0].cid, next[0].cid, next[i].cid);
        }
      }
      BeforeTotal(base[0].cid, next[i].cid);
    }
    assert base[0] in base;
  }

  /** The largest size, 0 of none. */
  function Largest(rows: seq<Row>): int {
    if rows == [] then 0 else Max(rows[0].size, Largest(rows[1..]))
  }

  /** How many rows are too large for a CAR. */
  function Oversized(rows: seq<Row>): nat {
    if rows == [] then 0 else (if rows[0].size > OVERSIZED_BYTES then 1 else 0) + Oversized(rows[1..])
  }

  /** What a merge of old rows, new rows and their difference reports on top of `acc`. */
  ghost predicate Reports(r: Merge, base: seq<Row>, next: seq<Row>, delta: seq<Row>, acc: Merge) {
    && r.rows == acc.rows + delta
    && r.oldCount == acc.oldCount + |base| && r.oldBytes == acc.oldBytes + Sum(base)
    && r.newCount == acc.newCount + |next| && r.newBytes == acc.newBytes + Sum(next)
    && r.deltaCount == acc.deltaCount + |delta| && r.deltaBytes == acc.deltaBytes + Sum(delta)
    && r.largest == Max(acc.largest, Largest(delta)) && r.oversized == acc.oversized + Oversized(delta)
    && |next| == |base| + |delta| && Sum(next) == Sum(base) + Sum(delta)
  }

  lemma ReportsNothing(acc: Merge)
    requires acc.largest >= 0
    ensures Reports(acc, [], [], [], acc)
  {
    assert acc.rows + [] == acc.rows;
  }

  lemma ReportsKept(r: Merge, base: seq<Row>, next: seq<Row>, delta: seq<Row>, acc: Merge)
    requires base != [] && next != [] && base[0] == next[0]
    requires Reports(r, base[1..], next[1..], delta, Kept(acc, next[0]))
    ensures Reports(r, base, next, delta, acc)
  {
    hide Sum, Largest, Oversized;
    SumFirst(base);
    SumFirst(next);
  }

  lemma ReportsAdded(r: Merge, base: seq<Row>, next: seq<Row>, delta: seq<Row>, acc: Merge)
    requires next != [] && Reports(r, base, next[1..], delta, Added(acc, next[0]))
    ensures Reports(r, base, next, [next[0]] + delta, acc)
  {
    hide Sum;
    SumFirst(next);
    SumFirst([next[0]] + delta);
    assert ([next[0]] + delta)[1..] == delta;
    assert (acc.rows + [next[0]]) + delta == acc.rows + ([next[0]] + delta);
  }

  lemma {:induction false} MergeFromExact(base: seq<Row>, next: seq<Row>, acc: Merge)
    requires Increasing(base) && Increasing(next) && acc.largest >= 0
    ensures var r := MergeFrom(base, next, acc);
            && (r.Ok? <==> Contains(next, base))
            && (r.Ok? ==> Reports(r.value, base, next, Minus(next, base), acc))
    decreases |next|
  {
    hide Contains, Increasing, Sum, Reports;
    if next == [] {
      if base != [] {
        Lost(base, next);
      } else {
        Nothing();
        ReportsNothing(acc);
      }
    } else {
      var row := next[0];
      if base != [] && Before(base[0].cid, row.cid) {
        Lost(base, next);
      } else if base != [] && base[0].cid == row.cid {
        if base[0].size != row.size {
          Lost(base, next);
        } else {
          DropShared(base, next);
          MergeFromExact(base[1..], next[1..], Kept(acc, row));
          var r := MergeFrom(base[1..], next[1..], Kept(acc, row));
          if r.Ok? {
            ReportsKept(r.value, base, next, Minus(next, base), acc);
          }
        }
      } else {
        if base != [] {
          BeforeTotal(base[0].cid, row.cid);
        }
        DropNew(base, next);
        MergeFromExact(base, next[1..], Added(acc, row));
        var r := MergeFrom(base, next[1..], Added(acc, row));
        if r.Ok? {
          ReportsAdded(r.value, base, next, Minus(next[1..], base), acc);
        }
      }
    }
  }

  lemma Nothing()
    ensures Contains([], []) && Sum([]) == 0 && Minus([], []) == []
  {
  }

  /**
   The merge accepts two inventories exactly when the new one has every old (CID, size); the delta is
   then new minus old in order, rows and bytes satisfy new = old + delta, and the largest and the
   oversized rows are those of the delta.
   */
  lemma MergeExact(base: seq<Row>, next: seq<Row>)
    requires Increasing(base) && Increasing(next)
    ensures var r, delta := MergeInventories(base, next), Minus(next, base);
            && (r.Ok? <==> Contains(next, base))
            && (r.Ok? ==>
                  && r.value.rows == delta
                  && r.value.oldCount == |base| && r.value.oldBytes == Sum(base)
                  && r.value.newCount == |next| == |base| + |delta|
                  && r.value.newBytes == Sum(next) == Sum(base) + Sum(delta)
                  && r.value.deltaCount == |delta| && r.value.deltaBytes == Sum(delta)
                  && r.value.oversized == Oversized(delta)
                  && (forall row :: row in delta ==> row.size <= r.value.largest)
                  && (r.value.largest == 0 || exists row :: row in delta && row.size == r.value.largest))
  {
    hide Contains, Increasing, Sum, MergeFrom, Minus;
    MergeFromExact(base, next, NOTHING);
    assert [] + Minus(next, base) == Minus(next, base);
    LargestExact(Minus(next, base));
  }

  lemma {:induction false} LargestExact(rows: seq<Row>)
    ensures Largest(rows) >= 0 && forall row :: row in rows ==> row.size <= Largest(rows)
    ensures Largest(rows) == 0 || exists row :: row in rows && row.size == Largest(rows)
    decreases |rows|
  {
    if rows != [] {
      LargestExact(rows[1..]);
      assert rows == [rows[0]] + rows[1..];
      assert rows[0] in rows;
    }
  }

  // ----- the superset check of the capture

  /** drop-while: the rows from the first whose CID is not before `cid`. */
  function DropBelow(rows: seq<Row>, cid: string): (r: seq<Row>)
    ensures |r| <= |rows|
  {
    if rows != [] && Before(rows[0].cid, cid) then DropBelow(rows[1..], cid) else rows
  }

  predicate Superset(base: seq<Row>, next: seq<Row>)
    decreases |base|
  {
    if base == [] then true
    else
      var rest := DropBelow(next, base[0].cid);
      rest != [] && rest[0] == base[0] && Superset(base[1..], rest)
  }

  lemma {:induction false} DropBelowKeeps(base: seq<Row>, next: seq<Row>, cid: string)
    requires Increasing(base) && Increasing(next)
    requires base != [] ==> base[0].cid == cid || Before(cid, base[0].cid)
    ensures var rest := DropBelow(next, cid);
            && Increasing(rest)
            && (Contains(next, base) <==> Contains(rest, base))
            && (rest != [] ==> !Before(rest[0].cid, cid))
    decreases |next|
  {
    if next != [] && Before(next[0].cid, cid) {
      if base != [] && base[0].cid != cid {
        BeforeTransitive(next[0].cid, cid, base[0].cid);
      }
      DropNew(base, next);
      DropBelowKeeps(base, next[1..], cid);
    }
  }

  lemma {:induction false} SupersetExact(base: seq<Row>, next: seq<Row>)
    requires Increasing(base) && Increasing(next)
    ensures Superset(base, next) <==> Contains(next, base)
    decreases |base|
  {
    if base != [] {
      hide Contains, Increasing;
      var rest := DropBelow(next, base[0].cid);
      DropBelowKeeps(base, next, base[0].cid);
      if rest == [] || rest[0] != base[0] {
        if rest != [] {
          BeforeTotal(rest[0].cid, base[0].cid);
        }
        Lost(base, rest);
      } else {
        DropShared(base, rest);
        FirstIsLeast(base);
        SupersetExact(base[1..], rest);
        KeepFirst(base, rest);
      }
    }
  }

  lemma KeepFirst(base: seq<Row>, next: seq<Row>)
    requires Increasing(base) && Increasing(next) && base != [] && next != [] && base[0] == next[0]
    ensures Contains(next, base) <==> Contains(next, base[1..])
  {
    ContainsSplit(next, base);
  }

  /** The walk's superset check and the merge of the two walks accept the same pairs. */
  lemma SupersetAgreesWithMerge(base: seq<Row>, next: seq<Row>)
    requires Increasing(base) && Increasing(next)
    ensures Superset(base, next) <==> MergeInventories(base, next).Ok?
  {
    hide Contains, Increasing, Superset, MergeInventories;
    SupersetExact(base, next);
    MergeExact(base, next);
  }

  // ----- rows of a diff the log does not hold

  datatype DeltaRefusal = HeldWithOtherSize(cid: string) | Duplicated(cid: string)

  /** The log's rows as the map the delta reads them into: a later row replaces an earlier one. */
  function Held(log: seq<Row>): map<string, int> {
    if log == [] then map[] else Held(log[..|log| - 1])[log[|log| - 1].cid := log[|log| - 1].size]
  }

  /** The rows whose CID the log does not hold. */
  function NotHeld(diff: seq<Row>, held: map<string, int>): seq<Row> {
    if diff == [] then []
    else
      var n := |diff| - 1;
      NotHeld(diff[..n], held) + if diff[n].cid in held then [] else [diff[n]]
  }

  lemma {:induction false} NotHeldExact(diff: seq<Row>, held: map<string, int>)
    ensures forall row :: row in NotHeld(diff, held) <==> row in diff && row.cid !in held
    decreases |diff|
  {
    if diff != [] {
      var n := |diff| - 1;
      NotHeldExact(diff[..n], held);
      assert diff == diff[..n] + [diff[n]];
    }
  }

  /** The log holds no CID of the diff with another size, and no new CID occurs twice. */
  predicate DeltaAccepts(log: seq<Row>, diff: seq<Row>) {
    && (forall row :: row in diff && row.cid in Held(log) ==> Held(log)[row.cid] == row.size)
    && Distinct(NotHeld(diff, Held(log)))
  }

  method EpochDelta(log: seq<Row>, diff: seq<Row>) returns (r: Result<seq<Row>, DeltaRefusal>)
    ensures r.Ok? <==> DeltaAccepts(log, diff)
    ensures r.Ok? ==> r.value == NotHeld(diff, Held(log))
  {
    var held: map<string, int> := map[];
    for k := 0 to |log|
      invariant held == Held(log[..k])
    {
      assert log[..k + 1][..k] == log[..k];
      held := held[log[k].cid := log[k].size];
    }
    assert log[..|log|] == log;
    var seen: set<string> := {};
    var added: seq<Row> := [];
    for k := 0 to |diff|
      invariant added == NotHeld(diff[..k], held)
      invariant seen == CidsOf(added)
      invariant Distinct(added)
      invariant forall row :: row in diff[..k] && row.cid in held ==> held[row.cid] == row.size
    {
      var row := diff[k];
      assert diff[..k + 1][..k] == diff[..k];
      assert diff[..k + 1] == diff[..k] + [row];
      if row.cid in held {
        if held[row.cid] != row.size {
          assert row in diff;
          return Err(HeldWithOtherSize(row.cid));
        }
      } else if row.cid in seen {
        RepeatIsNotDistinct(diff, held, k, added);
        return Err(Duplicated(row.cid));
      } else {
        CidsAppend(added, row);
        seen := seen + {row.cid};
        added := added + [row];
      }
    }
    assert diff[..|diff|] == diff;
    return Ok(added);
  }

  lemma {:induction false} NotHeldPrefix(diff: seq<Row>, held: map<string, int>, k: nat)
    requires k <= |diff|
    ensures NotHeld(diff[..k], held) <= NotHeld(diff, held)
    decreases |diff|
  {
    if k < |diff| {
      var n := |diff| - 1;
      assert diff[..n][..k] == diff[..k];
      NotHeldPrefix(diff[..n], held, k);
    } else {
      assert diff[..k] == diff;
    }
  }

  lemma RepeatIsNotDistinct(diff: seq<Row>, held: map<string, int>, k: nat, added: seq<Row>)
    requires k < |diff| && added == NotHeld(diff[..k], held) && diff[k].cid !in held
    requires diff[k].cid in CidsOf(added)
    ensures !Distinct(NotHeld(diff, held))
  {
    var i :| 0 <= i < |added| && added[i].cid == diff[k].cid;
    assert diff[..k + 1][..k] == diff[..k];
    assert NotHeld(diff[..k + 1], held) == added + [diff[k]];
    NotHeldPrefix(diff, held, k + 1);
    var all := NotHeld(diff, held);
    assert all[i] == added[i] && all[|added|] == diff[k];
  }

  /** The map holds exactly the log's CIDs, and with no CID twice exactly its rows. */
  lemma {:induction false} HeldExact(log: seq<Row>)
    ensures forall cid :: cid in Held(log) <==> exists i :: 0 <= i < |log| && log[i].cid == cid
    ensures Distinct(log) ==> forall row: Row :: row in log <==> row.cid in Held(log) && Held(log)[row.cid] == row.size
    decreases |log|
  {
    if log != [] {
      var n := |log| - 1;
      HeldExact(log[..n]);
      assert log == log[..n] + [log[n]];
      forall cid
        ensures cid in Held(log) <==> exists i :: 0 <= i < |log| && log[i].cid == cid
      {
        if cid in Held(log[..n]) {
          var i :| 0 <= i < n && log[..n][i].cid == cid;
          assert log[i].cid == cid;
        }
        if i :| 0 <= i < |log| && log[i].cid == cid {
          if i < n {
            assert log[..n][i].cid == cid;
          }
        }
      }
      if Distinct(log) {
        forall row: Row
          ensures row in log <==> row.cid in Held(log) && Held(log)[row.cid] == row.size
        {
          if row in log[..n] {
            var i :| 0 <= i < n && log[..n][i] == row;
            assert log[i].cid != log[n].cid;
          }
        }
      }
    }
  }

  /**
   An accepted delta is disjoint from the log, and log and delta together hold every row of the diff;
   nothing else is added.
   */
  lemma DeltaCompletes(log: seq<Row>, diff: seq<Row>, delta: seq<Row>)
    requires Distinct(log) && DeltaAccepts(log, diff) && delta == NotHeld(diff, Held(log))
    ensures Distinct(log + delta)
    ensures Contains(log + delta, diff)
    ensures forall row :: row in log + delta <==> row in log || row in diff
  {
    hide Held, NotHeld;
    HeldExact(log);
    NotHeldExact(diff, Held(log));
    forall i, j | 0 <= i < j < |log + delta|
      ensures (log + delta)[i].cid != (log + delta)[j].cid
    {
      if i < |log| && j >= |log| {
        assert delta[j - |log|] in delta;
        assert log[i].cid in Held(log);
      }
    }
  }

  ghost predicate RepeatsHeld(diff: seq<Row>, held: map<string, int>) {
    forall i, j :: 0 <= i < j < |diff| && diff[i].cid == diff[j].cid ==> diff[i].cid in held
  }

  lemma RepeatsAppend(diff: seq<Row>, n: nat, held: map<string, int>)
    requires |diff| == n + 1
    ensures RepeatsHeld(diff, held) <==>
            RepeatsHeld(diff[..n], held) &&
            (diff[n].cid !in held ==> forall r :: r in NotHeld(diff[..n], held) ==> r.cid != diff[n].cid)
  {
    hide NotHeld;
    NotHeldExact(diff[..n], held);
    if RepeatsHeld(diff, held) && diff[n].cid !in held {
      forall r | r in NotHeld(diff[..n], held)
        ensures r.cid != diff[n].cid
      {
        var i :| 0 <= i < n && diff[..n][i] == r;
        assert diff[i] == r;
      }
    }
    forall i | 0 <= i < n
      ensures diff[..n][i] == diff[i] && diff[i] in diff[..n]
    {
      assert diff[..n][i] in diff[..n];
    }
  }

  /** What is not held has no CID twice exactly when only held ones are twice in the diff. */
  lemma {:induction false} NotHeldDistinct(diff: seq<Row>, held: map<string, int>)
    ensures Distinct(NotHeld(diff, held)) <==> RepeatsHeld(diff, held)
    decreases |diff|
  {
    if diff != [] {
      hide RepeatsHeld, Distinct;
      var n := |diff| - 1;
      NotHeldDistinct(diff[..n], held);
      RepeatsAppend(diff, n, held);
      var rest := NotHeld(diff[..n], held);
      DistinctAppend(rest, diff[n]);
      assert rest + [] == rest;
    }
  }

  lemma DistinctAppend(rows: seq<Row>, row: Row)
    ensures Distinct(rows + [row]) <==> Distinct(rows) && forall r :: r in rows ==> r.cid != row.cid
  {
    if Distinct(rows + [row]) {
      forall i, j | 0 <= i < j < |rows|
        ensures rows[i].cid != rows[j].cid
      {
        assert (rows + [row])[i] == rows[i] && (rows + [row])[j] == rows[j];
      }
      forall r | r in rows
        ensures r.cid != row.cid
      {
        var i :| 0 <= i < |rows| && rows[i] == r;
        assert (rows + [row])[i] == r && (rows + [row])[|rows|] == row;
      }
    }
  }
}

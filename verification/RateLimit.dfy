/** The per-address token bucket of the block entrance (limiter in deploy/block_ingest.cljk). */
module RateLimit {
  type Address = string

  datatype Bucket = Bucket(tokens: real, at: int)
  type Table = map<Address, Bucket>

  const MAX_BUCKETS: nat := 10000

  datatype Limits = Limits(rate: real, burst: real)

  function RMin(a: real, b: real): real {
    if a < b then a else b
  }

  /** Tokens `elapsed` milliseconds add at the configured rate. */
  function Refill(l: Limits, elapsed: int): real {
    l.rate * (elapsed as real / 1000.0)
  }

  /** The tokens an address has at `now`. */
  function Level(l: Limits, table: Table, addr: Address, now: int): real {
    var b := if addr in table then table[addr] else Bucket(l.burst, now);
    RMin(l.burst, b.tokens + Refill(l, now - b.at))
  }

  predicate Resets(table: Table) {
    |table| > MAX_BUCKETS
  }

  /** One request: the table after it, and whether it is admitted. */
  function Step(l: Limits, table: Table, addr: Address, now: int): (Table, bool) {
    var tokens := Level(l, table, addr, now);
    var ok := tokens >= 1.0;
    var kept := if Resets(table) then map[] else table;
    (kept[addr := Bucket(if ok then tokens - 1.0 else tokens, now)], ok)
  }

  datatype Request = Request(addr: Address, at: int)

  function Run(l: Limits, table: Table, trace: seq<Request>): Table
    decreases |trace|
  {
    if trace == [] then table
    else Run(l, Step(l, table, trace[0].addr, trace[0].at).0, trace[1..])
  }

  /** How many requests of `addr` the trace admits. */
  function Admitted(l: Limits, table: Table, trace: seq<Request>, addr: Address): nat
    decreases |trace|
  {
    if trace == [] then 0
    else
      var (next, ok) := Step(l, table, trace[0].addr, trace[0].at);
      (if ok && trace[0].addr == addr then 1 else 0) + Admitted(l, next, trace[1..], addr)
  }

  /** How often another address's request empties the table. */
  function ResetsByOthers(l: Limits, table: Table, trace: seq<Request>, addr: Address): nat
    decreases |trace|
  {
    if trace == [] then 0
    else
      (if Resets(table) && trace[0].addr != addr then 1 else 0) +
      ResetsByOthers(l, Step(l, table, trace[0].addr, trace[0].at).0, trace[1..], addr)
  }

  /** Times do not go back, and lie between `from` and `to`. */
  ghost predicate Within(trace: seq<Request>, from: int, to: int) {
    && (forall i :: 0 <= i < |trace| ==> from <= trace[i].at <= to)
    && (forall i, j :: 0 <= i < j < |trace| ==> trace[i].at <= trace[j].at)
  }

  ghost predicate Sane(l: Limits) {
    l.rate >= 0.0 && l.burst >= 0.0
  }

  /** Every bucket holds between nothing and a burst, and was touched no later than `now`. */
  ghost predicate Valid(l: Limits, table: Table, now: int) {
    forall a :: a in table ==> 0.0 <= table[a].tokens <= l.burst && table[a].at <= now
  }

  lemma RefillGrows(l: Limits, a: int, b: int)
    requires Sane(l) && a >= 0 && b >= 0
    ensures Refill(l, a) >= 0.0 && Refill(l, a + b) == Refill(l, a) + Refill(l, b)
  {
    var x, y := a as real / 1000.0, b as real / 1000.0;
    assert (a + b) as real / 1000.0 == x + y;
    assert l.rate * (x + y) == l.rate * x + l.rate * y;
    assert l.rate * x >= 0.0;
  }

  lemma LevelBounds(l: Limits, table: Table, addr: Address, from: int, now: int)
    requires Sane(l) && Valid(l, table, from) && from <= now
    ensures 0.0 <= Level(l, table, addr, from) <= l.burst
    ensures 0.0 <= Level(l, table, addr, now) <= Level(l, table, addr, from) + Refill(l, now - from)
  {
    RefillGrows(l, now - from, 0);
    RefillGrows(l, 0, 0);
    if addr in table {
      var b := table[addr];
      RefillGrows(l, from - b.at, now - from);
    }
  }

  lemma StepKeepsValid(l: Limits, table: Table, addr: Address, from: int, now: int)
    requires Sane(l) && Valid(l, table, from) && from <= now
    ensures Valid(l, Step(l, table, addr, now).0, now)
  {
    LevelBounds(l, table, addr, from, now);
  }

  lemma {:induction false} RunKeepsValid(l: Limits, table: Table, trace: seq<Request>, from: int, to: int)
    requires Sane(l) && Valid(l, table, from) && Within(trace, from, to) && from <= to
    ensures Valid(l, Run(l, table, trace), to)
    decreases |trace|
  {
    if trace != [] {
      var now := trace[0].at;
      StepKeepsValid(l, table, trace[0].addr, from, now);
      WithinTail(trace, from, to);
      RunKeepsValid(l, Step(l, table, trace[0].addr, now).0, trace[1..], now, to);
    }
  }

  /** One request moves the address's level by no more than the refill, its own token and a reset. */
  lemma StepLevel(l: Limits, table: Table, other: Address, addr: Address, from: int, now: int)
    requires Sane(l) && Valid(l, table, from) && from <= now
    ensures var (next, ok) := Step(l, table, other, now);
            (if ok && other == addr then 1.0 else 0.0) + Level(l, next, addr, now) <=
            Level(l, table, addr, from) + Refill(l, now - from) +
            (if Resets(table) && other != addr then l.burst else 0.0)
  {
    LevelBounds(l, table, addr, from, now);
    RefillGrows(l, 0, 0);
    if other != addr && Resets(table) {
      RefillGrows(l, now - from, 0);
    }
  }

  function Bursts(l: Limits, n: nat): real {
    n as real * l.burst
  }

  lemma BurstsAdd(l: Limits, n: nat)
    ensures Bursts(l, 0) == 0.0 && Bursts(l, n + 1) == Bursts(l, n) + l.burst
  {
    assert (n + 1) as real * l.burst == n as real * l.burst + l.burst;
  }

  lemma WithinTail(trace: seq<Request>, from: int, to: int)
    requires Within(trace, from, to) && trace != []
    ensures from <= trace[0].at <= to && Within(trace[1..], trace[0].at, to)
  {
    var now := trace[0].at;
    forall i | 0 <= i < |trace[1..]|
      ensures now <= trace[1..][i].at <= to
    {
      assert trace[1..][i] == trace[i + 1];
    }
  }

  lemma {:induction false} AdmittedBound(l: Limits, table: Table, trace: seq<Request>, addr: Address, from: int, to: int)
    requires Sane(l) && Valid(l, table, from) && Within(trace, from, to) && from <= to
    ensures Admitted(l, table, trace, addr) as real <=
            Level(l, table, addr, from) + Refill(l, to - from) + Bursts(l, ResetsByOthers(l, table, trace, addr))
    decreases |trace|
  {
    hide Step, Level, Refill, Bursts, Valid, Within;
    RefillGrows(l, to - from, 0);
    LevelBounds(l, table, addr, from, from);
    BurstsAdd(l, 0);
    if trace != [] {
      WithinTail(trace, from, to);
      var other, now := trace[0].addr, trace[0].at;
      var (next, ok) := Step(l, table, other, now);
      StepKeepsValid(l, table, other, from, now);
      AdmittedBound(l, next, trace[1..], addr, now, to);
      StepLevel(l, table, other, addr, from, now);
      RefillGrows(l, now - from, to - now);
      BurstsAdd(l, ResetsByOthers(l, next, trace[1..], addr));
    }
  }

  /**
   In any window of a run, one address is admitted at most burst + rate * elapsed / 1000 times, and one
   burst more for each time another address's request empties the table inside the window.
   */
  lemma WindowBound(l: Limits, before: seq<Request>, window: seq<Request>, addr: Address, start: int, from: int, to: int)
    requires Sane(l) && Within(before, start, from) && Within(window, from, to) && start <= from <= to
    ensures var table := Run(l, map[], before);
            Admitted(l, table, window, addr) as real <=
            l.burst + l.rate * ((to - from) as real / 1000.0) + ResetsByOthers(l, table, window, addr) as real * l.burst
  {
    hide Run, Admitted, ResetsByOthers, Level, Within;
    RunKeepsValid(l, map[], before, start, from);
    var table := Run(l, map[], before);
    AdmittedBound(l, table, window, addr, from, to);
    LevelBounds(l, table, addr, from, from);
  }

  // ----- which requests are admitted

  /** The table the k-th request of a run from the start finds. */
  function TableAt(l: Limits, trace: seq<Request>, k: nat): Table
    requires k <= |trace|
  {
    if k == 0 then map[] else Step(l, TableAt(l, trace, k - 1), trace[k - 1].addr, trace[k - 1].at).0
  }

  predicate Passed(l: Limits, trace: seq<Request>, k: nat)
    requires k < |trace|
  {
    Step(l, TableAt(l, trace, k), trace[k].addr, trace[k].at).1
  }

  /** How many of the requests `from` to `to` are of `addr` and admitted. */
  function PassedIn(l: Limits, trace: seq<Request>, addr: Address, from: nat, to: nat): nat
    requires from <= to <= |trace|
  {
    if from == to then 0
    else PassedIn(l, trace, addr, from, to - 1) + if trace[to - 1].addr == addr && Passed(l, trace, to - 1) then 1 else 0
  }

  /** Request `j` is of `addr`, and no other address's request after it found more than 10,000 buckets. */
  predicate Remembered(l: Limits, trace: seq<Request>, addr: Address, j: nat, k: nat)
    requires k <= |trace|
  {
    j < k && trace[j].addr == addr
    && forall i :: j < i < k && trace[i].addr != addr ==> |TableAt(l, trace, i)| <= 10_000
  }

  lemma RefillAdds(l: Limits, a: int, b: int)
    ensures Refill(l, 0) == 0.0 && Refill(l, a + b) == Refill(l, a) + Refill(l, b)
  {
    var x, y := a as real / 1000.0, b as real / 1000.0;
    assert (a + b) as real / 1000.0 == x + y;
    assert l.rate * (x + y) == l.rate * x + l.rate * y;
  }

  /** The window from request `j` to `now` leaves the address `x` tokens. */
  predicate Leaves(l: Limits, trace: seq<Request>, addr: Address, j: nat, k: nat, now: int, x: real)
    requires j < k <= |trace|
  {
    x + PassedIn(l, trace, addr, j, k) as real <= l.burst + Refill(l, now - trace[j].at)
  }

  ghost predicate AllLeave(l: Limits, trace: seq<Request>, addr: Address, k: nat, now: int, x: real)
    requires k <= |trace|
  {
    x <= l.burst && forall j: nat | j < k :: Remembered(l, trace, addr, j, k) ==> Leaves(l, trace, addr, j, k, now, x)
  }

  lemma OtherLeaves(l: Limits, trace: seq<Request>, addr: Address, k: nat, now: int, x: real)
    requires 0 < k <= |trace| && trace[k - 1].addr != addr
    ensures AllLeave(l, trace, addr, k, now, x) <==>
            if |TableAt(l, trace, k - 1)| <= 10_000 then AllLeave(l, trace, addr, k - 1, now, x) else x <= l.burst
  {
    hide TableAt, Refill, Passed, Remembered, Leaves;
    var m := k - 1;
    if |TableAt(l, trace, m)| <= 10_000 && AllLeave(l, trace, addr, k, now, x) {
      forall j: nat | j < m && Remembered(l, trace, addr, j, m)
        ensures Leaves(l, trace, addr, j, m, now, x)
      {
        OtherWindow(l, trace, addr, j, k, now, x);
      }
    }
    if (|TableAt(l, trace, k - 1)| <= 10_000 ==> AllLeave(l, trace, addr, k - 1, now, x)) && x <= l.burst {
      forall j: nat | j < k && Remembered(l, trace, addr, j, k)
        ensures Leaves(l, trace, addr, j, k, now, x)
      {
        OtherWindow(l, trace, addr, j, k, now, x);
      }
    }
  }

  lemma OtherWindow(l: Limits, trace: seq<Request>, addr: Address, j: nat, k: nat, now: int, x: real)
    requires j < k <= |trace| && trace[k - 1].addr != addr
    ensures Remembered(l, trace, addr, j, k) <==>
            |TableAt(l, trace, k - 1)| <= 10_000 && j < k - 1 && Remembered(l, trace, addr, j, k - 1)
    ensures j < k - 1 ==> (Leaves(l, trace, addr, j, k, now, x) <==> Leaves(l, trace, addr, j, k - 1, now, x))
  {
    hide TableAt, Refill, Passed;
  }

  /** The tokens the last request of the address found, to leave `x` now. */
  function Before(l: Limits, trace: seq<Request>, k: nat, now: int, x: real): real
    requires 0 < k <= |trace|
  {
    x + (if Passed(l, trace, k - 1) then 1.0 else 0.0) - Refill(l, now - trace[k - 1].at)
  }

  lemma OwnLeaves(l: Limits, trace: seq<Request>, addr: Address, k: nat, now: int, x: real)
    requires 0 < k <= |trace| && trace[k - 1].addr == addr
    ensures AllLeave(l, trace, addr, k, now, x) <==>
            x <= l.burst && AllLeave(l, trace, addr, k - 1, trace[k - 1].at, Before(l, trace, k, now, x))
  {
    hide TableAt, Refill, Passed, Remembered, Leaves;
    var m, at, y := k - 1, trace[k - 1].at, Before(l, trace, k, now, x);
    if AllLeave(l, trace, addr, k, now, x) {
      OwnWindow(l, trace, addr, k - 1, k, now, x);
      forall j: nat | j < m && Remembered(l, trace, addr, j, m)
        ensures Leaves(l, trace, addr, j, m, at, y)
      {
        OwnWindow(l, trace, addr, j, k, now, x);
      }
    }
    if x <= l.burst && AllLeave(l, trace, addr, k - 1, at, y) {
      forall j: nat | j < k && Remembered(l, trace, addr, j, k)
        ensures Leaves(l, trace, addr, j, k, now, x)
      {
        OwnWindow(l, trace, addr, j, k, now, x);
      }
    }
  }

  lemma OwnWindow(l: Limits, trace: seq<Request>, addr: Address, j: nat, k: nat, now: int, x: real)
    requires j < k <= |trace| && trace[k - 1].addr == addr
    ensures Remembered(l, trace, addr, j, k) <==> j == k - 1 || Remembered(l, trace, addr, j, k - 1)
    ensures Leaves(l, trace, addr, j, k, now, x) <==>
            var y := Before(l, trace, k, now, x);
            if j == k - 1 then y <= l.burst else Leaves(l, trace, addr, j, k - 1, trace[k - 1].at, y)
  {
    hide TableAt, Refill, Passed;
    var used := if Passed(l, trace, k - 1) then 1 else 0;
    RefillAdds(l, now - trace[k - 1].at, trace[k - 1].at - trace[j].at);
    assert PassedIn(l, trace, addr, k - 1, k - 1) == 0;
    assert PassedIn(l, trace, addr, j, k) == PassedIn(l, trace, addr, j, k - 1) + used;
    assert used as real == if Passed(l, trace, k - 1) then 1.0 else 0.0;
  }

  lemma LevelStep(l: Limits, table: Table, r: Request, addr: Address, now: int, x: real)
    ensures var (next, ok) := Step(l, table, r.addr, r.at);
            x <= Level(l, next, addr, now) <==>
            if r.addr == addr then
              x <= l.burst && x + (if ok then 1.0 else 0.0) - Refill(l, now - r.at) <= Level(l, table, addr, r.at)
            else if Resets(table) then x <= l.burst
            else x <= Level(l, table, addr, now)
  {
    RefillAdds(l, 0, 0);
  }

  /** The address has `x` tokens exactly when every window of its own that is remembered leaves it as many. */
  lemma {:induction false} LevelExact(l: Limits, trace: seq<Request>, addr: Address, k: nat, now: int, x: real)
    requires k <= |trace|
    ensures x <= Level(l, TableAt(l, trace, k), addr, now) <==> AllLeave(l, trace, addr, k, now, x)
    decreases k
  {
    hide Step, Level, AllLeave, Refill;
    if k == 0 {
      EmptyLevel(l, trace, addr, now, x);
    } else {
      var r := trace[k - 1];
      LevelStep(l, TableAt(l, trace, k - 1), r, addr, now, x);
      if r.addr == addr {
        OwnLeaves(l, trace, addr, k, now, x);
        LevelExact(l, trace, addr, k - 1, r.at, Before(l, trace, k, now, x));
      } else {
        OtherLeaves(l, trace, addr, k, now, x);
        LevelExact(l, trace, addr, k - 1, now, x);
      }
    }
  }

  lemma EmptyLevel(l: Limits, trace: seq<Request>, addr: Address, now: int, x: real)
    ensures x <= Level(l, map[], addr, now) <==> AllLeave(l, trace, addr, 0, now, x)
  {
    RefillAdds(l, 0, 0);
  }

  /**
   A request is admitted exactly when no window that ends with it would then hold more admitted requests
   than a burst and what its length refills. The windows begin at this request, or at an earlier one of
   the same address that has not been forgotten since.
   */
  lemma AdmittedExact(l: Limits, trace: seq<Request>, k: nat)
    requires k < |trace|
    ensures var r := trace[k];
            Passed(l, trace, k) <==>
            && 1.0 <= l.burst
            && forall j: nat | j < k :: Remembered(l, trace, r.addr, j, k) ==>
                                          PassedIn(l, trace, r.addr, j, k) as real + 1.0 <=
                                          l.burst + l.rate * ((r.at - trace[j].at) as real / 1000.0)
  {
    hide Level, TableAt, Remembered, PassedIn;
    LevelExact(l, trace, trace[k].addr, k, trace[k].at, 1.0);
  }

  /** The table never holds more than 10,001 addresses. */
  lemma {:induction false} TableBounded(l: Limits, trace: seq<Request>, k: nat)
    requires k <= |trace|
    ensures |TableAt(l, trace, k)| <= 10_001
    ensures k > 0 ==> trace[k - 1].addr in TableAt(l, trace, k)
  {
    if k > 0 {
      hide Level;
      TableBounded(l, trace, k - 1);
      StepSize(l, TableAt(l, trace, k - 1), trace[k - 1].addr, trace[k - 1].at);
    }
  }

  lemma StepSize(l: Limits, table: Table, addr: Address, now: int)
    ensures var next := Step(l, table, addr, now).0;
            addr in next && |next| <= if |table| > 10_000 then 1 else |table| + 1
  {
    hide Level;
    var kept: Table := if Resets(table) then map[] else table;
    var next := Step(l, table, addr, now).0;
    assert next.Keys == kept.Keys + {addr};
    assert |next.Keys| == |next| && |kept.Keys| == |kept|;
  }

  /** The run of the limiter from the start goes through these tables. */
  lemma {:induction false} RunIsTableAt(l: Limits, trace: seq<Request>, k: nat, addr: Address)
    requires k <= |trace|
    ensures Run(l, map[], trace) == Run(l, TableAt(l, trace, k), trace[k..])
    ensures Admitted(l, map[], trace, addr) == PassedIn(l, trace, addr, 0, k) + Admitted(l, TableAt(l, trace, k), trace[k..], addr)
  {
    hide Step;
    if k == 0 {
      assert trace[0..] == trace;
    } else {
      RunIsTableAt(l, trace, k - 1, addr);
      assert trace[k - 1..][1..] == trace[k..];
    }
  }

  // ----- the limiter

  class Limiter {
    const limits: Limits
    var buckets: Table
    ghost var last: int

    /** No bucket holds more than a burst or was touched after the last request. */
    ghost predicate Sound() reads this {
      Sane(limits) && Valid(limits, buckets, last)
    }

    constructor (limits: Limits, ghost start: int)
      ensures this.limits == limits && buckets == map[] && last == start
      ensures Sane(limits) ==> Sound()
    {
      this.limits, buckets, last := limits, map[], start;
    }

    method Admit(addr: Address, now: int) returns (ok: bool)
      modifies this
      ensures (buckets, ok) == Step(limits, old(buckets), addr, now) && last == now
      ensures old(Sound()) && old(last) <= now ==> Sound()
    {
      if Sound() && last <= now {
        StepKeepsValid(limits, buckets, addr, last, now);
      }
      var b := if addr in buckets then buckets[addr] else Bucket(limits.burst, now);
      var tokens := RMin(limits.burst, b.tokens + Refill(limits, now - b.at));
      ok := tokens >= 1.0;
      if |buckets| > MAX_BUCKETS {
        buckets := map[];
      }
      buckets := buckets[addr := Bucket(if ok then tokens - 1.0 else tokens, now)];
      last := now;
    }

    /** The requests up to time `to`; of those of `addr` no more are admitted than the bound allows. */
    method Serve(trace: seq<Request>, addr: Address, ghost to: int) returns (admitted: nat)
      modifies this
      ensures buckets == Run(limits, old(buckets), trace)
      ensures admitted == Admitted(limits, old(buckets), trace, addr)
      ensures old(buckets) == map[] ==> admitted == PassedIn(limits, trace, addr, 0, |trace|)
      ensures old(Sound()) && old(last) <= to && Within(trace, old(last), to) ==>
                && Valid(limits, buckets, to)
                && admitted as real <= limits.burst + limits.rate * ((to - old(last)) as real / 1000.0) +
                                       ResetsByOthers(limits, old(buckets), trace, addr) as real * limits.burst
    {
      hide Step, Level, Within, Valid, ResetsByOthers;
      admitted := 0;
      assert trace[0..] == trace;
      for i := 0 to |trace|
        invariant Run(limits, old(buckets), trace) == Run(limits, buckets, trace[i..])
        invariant Admitted(limits, old(buckets), trace, addr) == admitted + Admitted(limits, buckets, trace[i..], addr)
      {
        assert trace[i..][1..] == trace[i + 1..];
        var ok := Admit(trace[i].addr, trace[i].at);
        if ok && trace[i].addr == addr {
          admitted := admitted + 1;
        }
      }
      RunIsTableAt(limits, trace, |trace|, addr);
      if old(Sound()) && old(last) <= to && Within(trace, old(last), to) {
        RunKeepsValid(limits, old(buckets), trace, old(last), to);
        AdmittedBound(limits, old(buckets), trace, addr, old(last), to);
        LevelBounds(limits, old(buckets), addr, old(last), old(last));
      }
    }
  }
}

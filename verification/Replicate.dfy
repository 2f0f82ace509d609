/** The resumable pull of a local inventory into Kubo (deploy/replicate_lake.py). */
module Replicate {
  import opened Bytes
  import opened Inventory

  datatype ReplicationError =
    | LegacyCursor | IdentityDiffers | InvalidInventory | Omits(cid: string)
    | BadListing | TooLarge(cid: string) | SizeDiffers(cid: string) | NoStorage | Unavailable | OverMemory(cid: string)
    | BackupDiffers | Interrupted

  /** checkpoint.json; `source` stands for the inventory whose digest the listing source names. */
  datatype State = State(
    cursor: Option<nat>, cycles: nat, pagesTotal: nat, newBlocksTotal: nat, newBytesTotal: int,
    source: Option<seq<Row>>)

  /** A calm call is not interrupted, and the source and Kubo answer it. */
  datatype Args = Args(
    inventory: seq<Row>, previous: Option<seq<Row>>,
    maxPages: nat, maxNewBytes: nat, maxBlockBytes: int, workers: nat, maxPrefetch: int,
    rpc: bool, repoSize: int, storageMax: int, calm: bool)

  // ----- the bounded ordered window

  /** The fetches in flight are the items just before `taken`, and `bytes` their claimed size. */
  ghost predicate Window(items: seq<Row>, taken: nat, pending: seq<Row>, bytes: int) {
    && |pending| <= taken <= |items| && pending == items[taken - |pending|..taken] && bytes == Sum(pending)
  }

  ghost predicate Sizes(items: seq<Row>) {
    forall i :: 0 <= i < |items| ==> items[i].size >= 0
  }

  lemma WindowNone(items: seq<Row>)
    ensures Window(items, 0, [], 0)
  {
  }

  lemma WindowTake(items: seq<Row>, taken: nat, pending: seq<Row>, bytes: int)
    requires Window(items, taken, pending, bytes) && taken < |items|
    ensures Window(items, taken + 1, pending + [items[taken]], bytes + items[taken].size)
    ensures pending == [] ==> bytes == 0
  {
    SumAppend(pending, items[taken]);
  }

  lemma WindowPop(items: seq<Row>, taken: nat, pending: seq<Row>, bytes: int)
    requires Window(items, taken, pending, bytes) && pending != [] && Sizes(items)
    ensures Window(items, taken, pending[1..], bytes - pending[0].size)
    ensures |pending| <= taken <= |items| && pending[0] == items[taken - |pending|] && pending[0].size >= 0
  {
    SumFirst(pending);
  }

  lemma WindowBounds(items: seq<Row>, taken: nat, pending: seq<Row>, bytes: int)
    requires Window(items, taken, pending, bytes)
    ensures |pending| <= taken <= |items|
  {
  }

  /** prefetch_ordered: at most `workers` fetches and `budget` bytes in flight, yielded in order. */
  class Prefetch {
    const items: seq<Row>
    const workers: nat
    const budget: int
    var taken: nat
    var pending: seq<Row>
    var pendingBytes: int

    /** How many items were yielded. */
    ghost function Yielded(): int
      reads this
    {
      taken - |pending|
    }

    ghost predicate Valid()
      reads this
    {
      && workers >= 1 && Sizes(items) && Window(items, taken, pending, pendingBytes)
      && |pending| <= workers && (pending != [] ==> pendingBytes <= budget)
    }

    constructor (items: seq<Row>, workers: nat, budget: int)
      requires workers >= 1 && Sizes(items)
      ensures this.items == items && this.workers == workers && this.budget == budget
      ensures Valid() && Yielded() == 0
    {
      this.items := items;
      this.workers := workers;
      this.budget := budget;
      taken := 0;
      pending := [];
      pendingBytes := 0;
      WindowNone(items);
    }

    /** Runs to the next yield: the next item in order, the end, or an item no budget can hold. */
    method Next() returns (r: Result<Option<Row>, ReplicationError>)
      requires Valid()
      modifies this
      ensures Valid()
      ensures r.Ok? && r.value.Some? ==>
              0 <= old(Yielded()) < |items| && r.value.value == items[old(Yielded())] && Yielded() == old(Yielded()) + 1
      ensures r.Ok? && r.value.Some? && taken < |items| ==>
              |pending| + 1 >= workers || pendingBytes + r.value.value.size + items[taken].size > budget
      ensures r == Ok(None) ==> old(Yielded()) == |items|
      ensures r.Err? ==> taken < |items| && items[taken].size > budget && r.error == OverMemory(items[taken].cid)
    {
      hide Window, Sizes;
      WindowBounds(items, taken, pending, pendingBytes);
      while taken < |items|
        invariant Valid() && Yielded() == old(Yielded()) && taken <= |items|
        decreases |items| - taken
      {
        var item := items[taken];
        if item.size > budget {
          return Err(OverMemory(item.cid));
        }
        if pending != [] && (|pending| >= workers || pendingBytes + item.size > budget) {
          WindowPop(items, taken, pending, pendingBytes);
          var oldest := pending[0];
          pending := pending[1..];
          pendingBytes := pendingBytes - oldest.size;
          return Ok(Some(oldest));
        }
        WindowTake(items, taken, pending, pendingBytes);
        pending := pending + [item];
        taken := taken + 1;
        pendingBytes := pendingBytes + item.size;
      }
      if pending == [] {
        return Ok(None);
      }
      WindowPop(items, taken, pending, pendingBytes);
      var oldest := pending[0];
      pending := pending[1..];
      pendingBytes := pendingBytes - oldest.size;
      return Ok(Some(oldest));
    }
  }
}

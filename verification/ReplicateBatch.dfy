/** run_batch and prepare_listing_state of deploy/replicate_lake.py. */
module ReplicateBatch {
  import opened Bytes
  import opened Inventory
  import opened Replicate
  import MergeDelta
  import Paging

  /**
   Every CID a pin or the raw store keeps, with its size; nobody removes any. The RPC path does not see blocks
   that are kept only through a recursive root.
   */
  class Store {
    var durable: map<string, int>
    var indirect: set<string>
    /** Bytes of the blocks this store received. */
    ghost var received: int

    function Visible(rpc: bool): set<string>
      reads this
    {
      VisibleIn(durable, indirect, rpc)
    }

    constructor (durable: map<string, int>, indirect: set<string>)
      ensures this.durable == durable && this.indirect == indirect && received == 0
    {
      this.durable, this.indirect, received := durable, indirect, 0;
    }

    /** durable_pin_type on the RPC path: a failed query finds nothing. */
    method HasDurablePin(cid: string, calm: bool) returns (found: bool)
      ensures found ==> cid in Visible(true)
      ensures calm ==> (found <==> cid in Visible(true))
    {
      var answered := *;
      found := (calm || answered) && cid in durable && cid !in indirect;
    }

    /**
     put_verified: the bytes hash to the CID, so a block that is there already has the same size. It may
     stop before or after the block is durable.
     */
    method PutVerified(cid: string, size: int, calm: bool) returns (ok: bool)
      requires size >= 0
      modifies this
      ensures Grows(old(durable), durable) && durable.Keys <= old(durable).Keys + {cid}
      ensures old(indirect) - {cid} <= indirect <= old(indirect)
      ensures ok ==> cid in durable && durable[cid] == size && cid !in indirect
      ensures received == old(received) || received == old(received) + size
      ensures ok || durable != old(durable) ==> received == old(received) + size
      ensures calm && (cid in old(durable) ==> old(durable)[cid] == size) ==> ok
    {
      var stored, finished := *, *;
      if (!calm && !stored) || (cid in durable && durable[cid] != size) {
        return false;
      }
      durable, indirect := durable[cid := size], indirect - {cid};
      received := received + size;
      return calm || finished;
    }
  }

  function VisibleIn(durable: map<string, int>, indirect: set<string>, rpc: bool): set<string> {
    if rpc then durable.Keys - indirect else durable.Keys
  }

  predicate Grows(before: map<string, int>, after: map<string, int>) {
    forall cid :: cid in before ==> cid in after && after[cid] == before[cid]
  }

  predicate Stored(durable: map<string, int>, row: Row) {
    row.cid in durable && durable[row.cid] == row.size
  }

  predicate AllStored(durable: map<string, int>, rows: seq<Row>) {
    forall i :: 0 <= i < |rows| ==> Stored(durable, rows[i])
  }

  function Position(state: State): nat {
    if state.cursor.None? then 0 else state.cursor.value
  }

  /** Every row before the saved cursor is durably stored with its listed size. */
  ghost predicate Sound(state: State, durable: map<string, int>) {
    state.source.Some? ==>
      Position(state) <= |state.source.value| && AllStored(durable, state.source.value[..Position(state)])
  }

  // ----- which inventory the checkpoint is for

  predicate ValidRow(row: Row) {
    ValidCid(row.cid) && row.size > 0
  }

  /** inventory_sizes reads a complete snapshot. */
  predicate ReadableInventory(rows: seq<Row>) {
    rows != [] && Distinct(rows) && forall row :: row in rows ==> ValidRow(row)
  }

  method InventorySizes(rows: seq<Row>) returns (r: Result<map<string, int>, ReplicationError>)
    ensures r.Ok? <==> ReadableInventory(rows)
    ensures r.Ok? ==> rows != [] && forall i :: 0 <= i < |rows| ==> ValidCid(rows[i].cid) && rows[i].size >= 1
    ensures rows != [] && Distinct(rows) && (forall i :: 0 <= i < |rows| ==> ValidCid(rows[i].cid) && rows[i].size >= 1) ==> r.Ok?
    ensures r.Ok? ==> r.value == MergeDelta.Held(rows)
  {
    ReadableExact(rows);
    hide ValidRow, ValidCid, Distinct, MergeDelta.Held;
    var sizes: map<string, int> := map[];
    NoSizes();
    for k := 0 to |rows|
      invariant sizes == MergeDelta.Held(rows[..k])
      invariant Distinct(rows[..k]) && forall i :: 0 <= i < k ==> ValidRow(rows[i])
    {
      SizesStep(rows, k);
      if !ValidRow(rows[k]) {
        assert rows[k] in rows;
        return Err(InvalidInventory);
      }
      if rows[k].cid in sizes {
        return Err(InvalidInventory);
      }
      sizes := sizes[rows[k].cid := rows[k].size];
    }
    assert rows[..|rows|] == rows;
    if rows == [] {
      return Err(InvalidInventory);
    }
    return Ok(sizes);
  }

  lemma ReadableExact(rows: seq<Row>)
    ensures ReadableInventory(rows) <==>
            rows != [] && Distinct(rows) && forall i :: 0 <= i < |rows| ==> ValidCid(rows[i].cid) && rows[i].size >= 1
  {
    hide Distinct, ValidCid;
    if ReadableInventory(rows) {
      forall i | 0 <= i < |rows|
        ensures ValidRow(rows[i])
      {
        assert rows[i] in rows;
      }
    }
  }

  lemma NoSizes()
    ensures MergeDelta.Held([]) == map[] && Distinct([])
  {
  }

  lemma SizesStep(rows: seq<Row>, k: nat)
    requires k < |rows| && Distinct(rows[..k])
    ensures var held := MergeDelta.Held(rows[..k]);
            && MergeDelta.Held(rows[..k + 1]) == held[rows[k].cid := rows[k].size]
            && (if rows[k].cid in held then !Distinct(rows) else Distinct(rows[..k + 1]))
  {
    assert rows[..k + 1][..k] == rows[..k];
    HeldRepeats(rows, k);
  }

  lemma HeldRepeats(rows: seq<Row>, k: nat)
    requires k < |rows| && Distinct(rows[..k])
    ensures if rows[k].cid in MergeDelta.Held(rows[..k]) then !Distinct(rows) else Distinct(rows[..k + 1])
  {
    hide MergeDelta.Held;
    MergeDelta.HeldExact(rows[..k]);
    if rows[k].cid in MergeDelta.Held(rows[..k]) {
      var i :| 0 <= i < k && rows[..k][i].cid == rows[k].cid;
      assert rows[i].cid == rows[k].cid;
    } else {
      forall i | 0 <= i < k
        ensures rows[i].cid != rows[k].cid
      {
        assert rows[..k][i].cid == rows[i].cid;
      }
    }
  }

  /**
   What preparing may do to the checkpoint: nothing, name the inventory of a fresh one, or roll over to
   an inventory that contains the previous one, starting again at row 0.
   */
  ghost predicate Prepared(args: Args, before: State, after: State) {
    || after == before
    || (before.source.None? && after == before.(source := Some(args.inventory)) && before.cursor.None?)
    || (before.source.Some? && after == before.(cursor := Some(0), source := Some(args.inventory)) &&
        Contains(args.inventory, before.source.value))
  }

  /** The checkpoint can be continued with this inventory. */
  predicate Continuable(args: Args, before: State, served: bool, backup: bool) {
    match before.source
    case None => before.cursor.None? && backup
    case Some(previous) =>
      previous == args.inventory ||
      (args.previous == before.source && ReadableInventory(previous) && ReadableInventory(args.inventory) &&
       Contains(args.inventory, previous) && served && backup)
  }

  /** The checkpoint of the same walk, of a first one, or of the next inventory from its row 0. */
  function Continued(args: Args, before: State): State {
    if before.source == Some(args.inventory) then before
    else if before.source.None? then before.(source := Some(args.inventory))
    else before.(cursor := Some(0), source := Some(args.inventory))
  }

  lemma ContinuedIsPrepared(args: Args, before: State, served: bool, backup: bool)
    requires Continuable(args, before, served, backup)
    ensures Prepared(args, before, Continued(args, before))
  {
    hide ReadableInventory, Contains;
  }

  /** The two size maps agree on a previous row exactly when the new inventory has that row. */
  lemma HeldAgree(rows: seq<Row>, previous: seq<Row>, k: nat)
    requires ReadableInventory(rows) && ReadableInventory(previous) && k < |previous|
    ensures var cid, after, before := previous[k].cid, MergeDelta.Held(rows), MergeDelta.Held(previous);
            && cid in before
            && (cid in after && after[cid] == before[cid] <==> previous[k] in rows)
            && (previous[k] !in rows ==> !Contains(rows, previous))
  {
    hide ValidRow, MergeDelta.Held;
    MergeDelta.HeldExact(rows);
    MergeDelta.HeldExact(previous);
    assert previous[k] in previous;
  }

  lemma AllContained(rows: seq<Row>, previous: seq<Row>)
    requires forall i :: 0 <= i < |previous| ==> previous[i] in rows
    ensures Contains(rows, previous)
  {
  }

  class Replicator {
    const store: Store
    var saved: State

    constructor (store: Store)
      ensures this.store == store && saved == State(None, 0, 0, 0, 0, None)
    {
      this.store := store;
      saved := State(None, 0, 0, 0, 0, None);
    }

    /**
     `served`: the listing serves the new inventory; `backup`: the old checkpoint is saved aside. The call
     is refused exactly when the checkpoint cannot be continued, and then changes nothing.
     */
    method PrepareListingState(args: Args, served: bool, backup: bool) returns (r: Result<(), ReplicationError>)
      modifies this
      ensures r.Ok? <==> Continuable(args, old(saved), served, backup)
      ensures saved == if r.Ok? then Continued(args, old(saved)) else old(saved)
      ensures r.Err? && r.error.Omits? ==> saved.source.Some? && !Contains(args.inventory, saved.source.value)
    {
      hide ReadableInventory, Contains, MergeDelta.Held;
      if saved.source.None? {
        if saved.cursor.Some? {
          return Err(LegacyCursor);
        }
        if !backup {
          return Err(BackupDiffers);
        }
        saved := saved.(source := Some(args.inventory));
        return Ok(());
      }
      if saved.source.value == args.inventory {
        return Ok(());
      }
      if args.previous != saved.source {
        return Err(IdentityDiffers);
      }
      var previous := args.previous.value;
      var before := InventorySizes(previous);
      var after := InventorySizes(args.inventory);
      if before.Err? || after.Err? {
        return Err(InvalidInventory);
      }
      for k := 0 to |previous|
        invariant saved == old(saved) && forall i :: 0 <= i < k ==> previous[i] in args.inventory
      {
        HeldAgree(args.inventory, previous, k);
        if !(previous[k].cid in after.value && after.value[previous[k].cid] == before.value[previous[k].cid]) {
          return Err(Omits(previous[k].cid));
        }
      }
      AllContained(args.inventory, previous);
      if !served {
        return Err(IdentityDiffers);
      }
      if !backup {
        return Err(BackupDiffers);
      }
      saved := saved.(cursor := Some(0), source := Some(args.inventory));
      return Ok(());
    }

    /**
     The pages' rows to fetch, until the byte budget of this call is spent. A calm call selects exactly the
     rows it does not see stored, and stops exactly when they do not fit in the budget.
     */
    method SelectPage(args: Args, blocks: seq<Row>, pins0: set<string>, newBytes: nat)
      returns (r: Result<Plan, ReplicationError>, pins: set<string>)
      requires pins0 <= store.Visible(args.rpc) && newBytes <= args.maxNewBytes
      ensures pins0 <= pins <= store.Visible(args.rpc)
      ensures r.Ok? ==> Plans(args, blocks, store.durable, newBytes, r.value)
      ensures r.Ok? ==> WithinLimits(args, blocks, newBytes, r.value.selected, r.value.checked + |r.value.selected|)
      ensures r.Err? && r.error.TooLarge? ==> exists row :: row in blocks && row.size > args.maxBlockBytes
      ensures r.Err? && r.error.BadListing? ==> exists row :: row in blocks && !ValidRow(row)
      ensures Calm(args, blocks, store.durable) && (args.rpc || pins0 == store.Visible(false)) ==>
                && r.Ok?
                && (r.value.stop <==> newBytes + Need(blocks, store.Visible(args.rpc)) > args.maxNewBytes)
                && (!r.value.stop ==> r.value.selected == Unseen(blocks, store.Visible(args.rpc)))
                && (exists k :: 0 <= k <= |blocks| && r.value.selected == Unseen(blocks[..k], store.Visible(args.rpc)))
    {
      hide Sum, Stored, Sizes, Calm, Unseen;
      pins := pins0;
      var selected: seq<Row> := [];
      var planned, checked := 0, 0;
      NothingPlanned();
      ghost var seen := store.Visible(args.rpc);
      ghost var calm := Calm(args, blocks, store.durable) && (args.rpc || pins0 == store.Visible(false));
      UnseenNone(blocks, seen);
      for k := 0 to |blocks|
        invariant pins0 <= pins <= seen
        invariant planned == Sum(selected) && 0 <= planned && newBytes + planned <= args.maxNewBytes
        invariant Sizes(selected)
        invariant forall row :: row in selected ==> row in blocks
        invariant PlannedTo(store.durable, blocks, k, Plan(selected, checked, false))
        invariant WithinLimits(args, blocks, newBytes, selected, k)
        invariant calm ==> selected == Unseen(blocks[..k], seen)
      {
        var row := blocks[k];
        var answered, reserve := *, *;
        if calm {
          CalmRow(args, blocks, store.durable, row);
        }
        UnseenStep(blocks, k, seen);
        if !ValidRow(row) {
          return Err(BadListing), pins;
        }
        if row.size > args.maxBlockBytes {
          return Err(TooLarge(row.cid)), pins;
        }
        if row.cid !in pins && args.rpc {
          var found := store.HasDurablePin(row.cid, args.calm);
          if found {
            pins := pins + {row.cid};
          }
        }
        if row.cid in pins {
          if !(args.calm || answered) || store.durable[row.cid] != row.size {
            return Err(SizeDiffers(row.cid)), pins;
          }
          StoredIs(store.durable, row);
          checked := checked + 1;
        } else {
          SelectedAppend(selected, row);
          if newBytes + planned + row.size > args.maxNewBytes {
            assert PlannedTo(store.durable, blocks, k, Plan(selected, checked, true));
            if calm {
              NeedPrefix(args, blocks, store.durable, k + 1, seen);
            }
            return Ok(Plan(selected, checked, true)), pins;
          }
          if args.repoSize + 2 * (newBytes + planned + row.size) >= args.storageMax || !(args.calm || reserve) {
            return Err(NoStorage), pins;
          }
          selected := selected + [row];
          planned := planned + row.size;
        }
      }
      assert blocks[..|blocks|] == blocks;
      return Ok(Plan(selected, checked, false)), pins;
    }

    /** Fetches the selected rows in order and stores each before the next is counted. A calm call stores them all. */
    method Pull(args: Args, selected: seq<Row>) returns (ok: bool)
      requires args.workers >= 1 && Sizes(selected)
      modifies this, store
      ensures SameWalk(old(saved), saved)
      ensures Grows(old(store.durable), store.durable)
      ensures Added(old(store.durable), old(store.indirect), store.durable, store.indirect, CidsOf(selected), ok)
      ensures old(store.received) <= store.received <= old(store.received) + Sum(selected)
      ensures ok ==> AllStored(store.durable, selected)
      ensures ok ==> saved.newBlocksTotal == old(saved).newBlocksTotal + |selected|
      ensures ok ==> saved.newBytesTotal == old(saved).newBytesTotal + Sum(selected)
      ensures old(saved).newBytesTotal <= saved.newBytesTotal <= old(saved).newBytesTotal + Sum(selected)
      ensures Calm(args, selected, old(store.durable)) && Distinct(selected) ==> ok
    {
      hide Sum, Stored, Sizes, AllStored, Grows, ValidRow, Added, Calm, Distinct, Window, CidsOf;
      var window := new Prefetch(selected, args.workers, args.maxPrefetch);
      ghost var y := 0;
      ghost var calm := Calm(args, selected, store.durable) && Distinct(selected);
      NothingPlanned();
      NoneStored(store.durable, selected);
      GrowsItself(store.durable);
      AddedNone(store.durable, store.indirect, selected);
      assert selected[..0] == [];
      while true
        invariant window.Valid() && window.items == selected && window.Yielded() == y && 0 <= y <= |selected|
        invariant window.budget == args.maxPrefetch
        invariant fresh(window)
        invariant SameWalk(old(saved), saved)
        invariant saved.newBlocksTotal == old(saved).newBlocksTotal + y
        invariant saved.newBytesTotal == old(saved).newBytesTotal + Sum(selected[..y])
        invariant Grows(old(store.durable), store.durable)
        invariant Added(old(store.durable), old(store.indirect), store.durable, store.indirect, CidsOf(selected[..y]), true)
        invariant AllStored(store.durable, selected[..y])
        invariant old(store.received) <= store.received <= old(store.received) + Sum(selected[..y])
        decreases |selected| - y
      {
        SumPrefix(selected, y);
        AddedMore(old(store.durable), old(store.indirect), store.durable, store.indirect, selected, y);
        var next := window.Next();
        if next.Err? {
          if calm {
            CalmRow(args, selected, old(store.durable), selected[window.taken]);
          }
          return false;
        }
        if next.value.None? {
          assert selected[..y] == selected;
          return true;
        }
        var row := next.value.value;
        SumStep(selected, y);
        var fetched := *;
        if !(args.calm || fetched) {
          if calm {
            CalmRow(args, selected, old(store.durable), row);
          }
          return false;
        }
        ghost var before, hidden := store.durable, store.indirect;
        if calm {
          CalmRow(args, selected, old(store.durable), row);
          NextIsFree(old(store.durable), old(store.indirect), before, hidden, selected, y);
        }
        var stored := store.PutVerified(row.cid, row.size, args.calm);
        GrowsOn(old(store.durable), before, store.durable);
        StoredGrows(before, store.durable, selected[..y]);
        AddedStep(old(store.durable), old(store.indirect), before, hidden, store.durable, store.indirect, selected, y, stored);
        if !stored {
          return false;
        }
        StoredIs(store.durable, row);
        StoredAppend(store.durable, selected, y);
        saved := saved.(newBlocksTotal := saved.newBlocksTotal + 1, newBytesTotal := saved.newBytesTotal + row.size);
        y := y + 1;
      }
    }

    /**
     The missing blocks of one page. A calm call stores all of them exactly when they fit in the byte budget, and
     `selected` are the rows it stored.
     */
    method FetchPage(args: Args, blocks: seq<Row>, pins: set<string>, newBytes: nat)
      returns (e: PageEnd, ghost selected: seq<Row>)
      requires args.workers >= 1 && pins <= store.Visible(args.rpc) && newBytes <= args.maxNewBytes
      modifies this, store
      ensures SameWalk(old(saved), saved) && Grows(old(store.durable), store.durable)
      ensures old(store.received) <= store.received <= old(store.received) + args.maxNewBytes - newBytes
      ensures old(saved).newBytesTotal <= saved.newBytesTotal <= old(saved).newBytesTotal + args.maxNewBytes - newBytes
      ensures e.Went? ==>
                && AllStored(store.durable, blocks)
                && e.pins <= store.Visible(args.rpc) && newBytes <= e.newBytes <= args.maxNewBytes
                && store.received <= old(store.received) + e.newBytes - newBytes
                && saved.newBytesTotal == old(saved).newBytesTotal + e.newBytes - newBytes
      ensures !e.Done?
      ensures !e.Failed? ==>
                && store.Visible(args.rpc) == old(store.Visible(args.rpc)) + CidsOf(selected)
                && store.durable.Keys <= old(store.durable).Keys + CidsOf(selected)
                && AllStored(store.durable, selected) && forall row :: row in selected ==> row in blocks
      ensures Calm(args, blocks, old(store.durable)) && Distinct(blocks) && (args.rpc || pins == old(store.Visible(args.rpc))) ==>
                && !e.Failed?
                && (e.Full? <==> newBytes + Need(blocks, old(store.Visible(args.rpc))) > args.maxNewBytes)
                && (e.Went? ==>
                      && e.newBytes == newBytes + Need(blocks, old(store.Visible(args.rpc)))
                      && (args.rpc || e.pins == store.Visible(args.rpc)))
    {
      hide Sum, Stored, AllStored, Plans, PlannedBytes, PlannedTo, Sizes, Grows, Unseen, Added, Calm, VisibleIn, CidsOf,
           Distinct;
      ghost var before, hidden, seen := store.durable, store.indirect, store.Visible(args.rpc);
      ghost var calm := Calm(args, blocks, before) && Distinct(blocks) && (args.rpc || pins == seen);
      GrowsItself(before);
      selected := [];
      var plan, known := SelectPage(args, blocks, pins, newBytes);
      if plan.Err? {
        return Failed(plan.error), selected;
      }
      PlansBound(args, blocks, before, newBytes, plan.value);
      if calm {
        SelectedCalm(args, blocks, before, seen, plan.value.selected);
      }
      selected := plan.value.selected;
      var ok := Pull(args, plan.value.selected);
      if !ok {
        return Failed(Unavailable), selected;
      }
      VisibleAdded(before, hidden, store.durable, store.indirect, CidsOf(selected), args.rpc);
      if plan.value.stop {
        return Full, selected;
      }
      PageStored(args, blocks, before, store.durable, newBytes, plan.value);
      return Went(known + CidsOf(plan.value.selected), newBytes + PlannedBytes(plan.value)), selected;
    }

    /**
     One page: its missing blocks are stored and then the cursor moves behind it. The call may stop between any
     two effects. A calm call ends as the missing bytes and the end of the inventory say.
     */
    method OnePage(args: Args, pins: set<string>, newBytes: nat) returns (e: PageEnd)
      requires args.workers >= 1 && Sound(saved, store.durable) && saved.source == Some(args.inventory)
      requires pins <= store.Visible(args.rpc) && newBytes <= args.maxNewBytes
      modifies this, store
      ensures Sound(saved, store.durable) && saved.source == Some(args.inventory)
      ensures Grows(old(store.durable), store.durable)
      ensures old(store.received) <= store.received <= old(store.received) + args.maxNewBytes - newBytes
      ensures old(saved).newBytesTotal <= saved.newBytesTotal <= old(saved).newBytesTotal + args.maxNewBytes - newBytes
      ensures e.Went? ==>
                && e.pins <= store.Visible(args.rpc) && newBytes <= e.newBytes <= args.maxNewBytes
                && store.received <= old(store.received) + e.newBytes - newBytes
                && saved.newBytesTotal == old(saved).newBytesTotal + e.newBytes - newBytes
      ensures saved.cycles == old(saved).cycles ||
              (saved.cycles == old(saved).cycles + 1 && AllStored(store.durable, args.inventory))
      ensures e.Done? ==> saved.cycles == old(saved).cycles + 1
      ensures e.Went? || e.Full? ==> saved.cycles == old(saved).cycles
      ensures Smooth(args, old(saved), old(store.durable), old(store.Visible(args.rpc)), pins) ==>
                Turned(args, old(saved), old(store.Visible(args.rpc)), newBytes, e, saved, store.durable, store.Visible(args.rpc))
    {
      hide Stored, Contains, AllStored, Paging.PageAt, Grows, Sound, Smooth, Turned, Need, Calm, VisibleIn, CidsOf, Distinct,
           Unaffected;
      var listing := Paging.PageAt(args.inventory, Position(saved));
      ghost var start, before, seen := saved, store.durable, store.Visible(args.rpc);
      ghost var smooth := Smooth(args, saved, before, seen, pins);
      GrowsItself(before);
      var stopped, same := *, *;
      if smooth {
        SmoothPage(args, saved, before, seen, pins);
      }
      if !args.calm && stopped {
        return Failed(Interrupted);
      }
      if !args.calm && !same {
        return Failed(IdentityDiffers);
      }
      if listing.Err? {
        return Failed(BadListing);
      }
      var f, selected := FetchPage(args, listing.value.blocks, pins, newBytes);
      SoundGrows(start, saved, before, store.durable);
      if smooth && !f.Failed? {
        SmoothAfter(args, start, before, seen, pins, store.durable, store.Visible(args.rpc), selected);
      }
      if !f.Went? {
        if smooth {
          TurnedFull(args, start, seen, newBytes, saved, store.durable, store.Visible(args.rpc));
        }
        return f;
      }
      PositionSound(args, saved, store.durable);
      PageExtends(args.inventory, Position(saved), store.durable);
      var lost, cut := *, *;
      if !args.calm && lost {
        return Failed(Interrupted);
      }
      if listing.value.cursor.Some? {
        saved := saved.(pagesTotal := saved.pagesTotal + 1, cursor := listing.value.cursor);
        e := f;
      } else {
        saved := saved.(pagesTotal := saved.pagesTotal + 1, cursor := None, cycles := saved.cycles + 1);
        NoneStored(store.durable, args.inventory);
        e := if !args.calm && cut then Failed(Interrupted) else Done;
      }
      SoundAt(args, saved, store.durable);
      if smooth {
        TurnedPage(args, start, seen, newBytes, e, saved, store.durable, store.Visible(args.rpc));
      }
    }

    /**
     One call: at most `maxPages` pages, one cycle, and `maxNewBytes` bytes. A calm call from row p ends behind
     `maxPages` pages or at the end of the inventory, unless the blocks missing on the way are too many bytes.
     */
    method RunBatch(args: Args) returns (r: Result<Outcome, ReplicationError>)
      requires args.workers >= 1 && Sound(saved, store.durable)
      modifies this, store
      ensures Sound(saved, store.durable)
      ensures Moves(args, old(saved), old(store.durable), saved, store.durable)
      ensures store.received <= old(store.received) + args.maxNewBytes
      ensures old(saved).newBytesTotal <= saved.newBytesTotal <= old(saved).newBytesTotal + args.maxNewBytes
      ensures r == Ok(CycleComplete) ==> AllStored(store.durable, args.inventory) && saved.cycles == old(saved).cycles + 1
      ensures r.Ok? && r != Ok(CycleComplete) ==> saved.cycles == old(saved).cycles
      ensures r.Ok? ==> saved.source == Some(args.inventory)
      ensures args.storageMax <= args.repoSize ==> r.Err? && store.durable == old(store.durable)
      ensures Undisturbed(args, old(saved), old(store.durable)) ==>
                && Calm(args, args.inventory, store.durable)
                && Progress(args, Continued(args, old(saved)), old(store.Visible(args.rpc)), r, saved)
    {
      hide Sum, Stored, Contains, AllStored, Prepared, Grows, Sound, Smooth, Turned, Need, Calm, VisibleIn, Undisturbed,
           Continuable, Continued, ReadableInventory, Progress, Unaffected;
      var served, backup := *, *;
      ghost var found, durable, seen := saved, store.durable, store.Visible(args.rpc);
      ghost var smooth := Undisturbed(args, saved, durable);
      PreparedIsSound(args, found, durable);
      if smooth {
        UndisturbedStart(args, found, durable, seen);
      }
      var ready := PrepareListingState(args, args.calm || served, args.calm || backup);
      if ready.Err? {
        return Err(ready.error);
      }
      ContinuedIsPrepared(args, found, args.calm || served, args.calm || backup);
      ContinuedSource(args, found);
      if args.storageMax <= args.repoSize {
        return Err(NoStorage);
      }
      var pins := store.Visible(args.rpc);
      var newBytes := 0;
      ghost var started := saved;
      GrowsItself(durable);
      for page := 0 to args.maxPages
        invariant pins <= store.Visible(args.rpc) && 0 <= newBytes <= args.maxNewBytes
        invariant saved.source == Some(args.inventory) && saved.cycles == old(saved).cycles
        invariant Sound(saved, store.durable)
        invariant Grows(durable, store.durable)
        invariant store.received <= old(store.received) + newBytes
        invariant saved.newBytesTotal == old(saved).newBytesTotal + newBytes
        invariant smooth ==> Smooth(args, saved, store.durable, store.Visible(args.rpc), pins)
        invariant smooth ==> Onward(args, started, seen, page, newBytes, saved, store.Visible(args.rpc))
      {
        ghost var now, held, view := saved, store.durable, store.Visible(args.rpc);
        var e := OnePage(args, pins, newBytes);
        GrowsOn(durable, held, store.durable);
        if smooth {
          OnwardStep(args, started, seen, page, newBytes, now, view, e, saved, store.durable, store.Visible(args.rpc));
        }
        match e {
          case Went(more, bytes) => pins, newBytes := more, bytes;
          case Full => return Ok(ByteBudget);
          case Done => return Ok(CycleComplete);
          case Failed(error) => return Err(error);
        }
      }
      if smooth {
        OnwardEnd(args, started, seen, newBytes, saved, store.durable, store.Visible(args.rpc), pins);
      }
      return Ok(PageLimit);
    }

    /**
     Any sequence of calls, each ending in any way. The saved cursor stays sound throughout, and when a cycle
     was counted some call's whole inventory was stored, still is, and is part of the one named now. Enough
     calm calls with room for the inventory's bytes count a cycle.
     */
    method RunAll(runs: seq<Args>) returns (ghost states: seq<Snapshot>)
      requires Sound(saved, store.durable) && forall i :: 0 <= i < |runs| ==> runs[i].workers >= 1
      modifies this, store
      ensures History(runs, states) && forall i :: 0 <= i < |states| ==> Sound(states[i].saved, states[i].durable)
      ensures states[0] == Snapshot(old(saved), old(store.durable)) && states[|runs|] == Snapshot(saved, store.durable)
      ensures Sound(saved, store.durable) && Grows(old(store.durable), store.durable)
      ensures saved.cycles > old(saved).cycles ==>
                exists k :: 0 <= k < |runs| && AllStored(store.durable, runs[k].inventory) &&
                            saved.source.Some? && Contains(saved.source.value, runs[k].inventory)
      ensures runs != [] && Steady(runs, old(saved), old(store.durable)) &&
              |runs| * Paging.PAGE_SIZE >= |runs[0].inventory| ==>
                saved.cycles > old(saved).cycles
    {
      hide Sound, Moves, AllStored, Contains, Grows, Calm, Undisturbed, Progress, Steady, Paced, VisibleIn, Continued;
      states := [Snapshot(saved, store.durable)];
      ghost var steady := runs != [] && Steady(runs, saved, store.durable);
      if steady {
        PacedStart(runs, saved, store.durable);
      }
      for k := 0 to |runs|
        invariant Sound(saved, store.durable)
        invariant History(runs[..k], states) && forall i :: 0 <= i < |states| ==> Sound(states[i].saved, states[i].durable)
        invariant states[0] == Snapshot(old(saved), old(store.durable)) && states[k] == Snapshot(saved, store.durable)
        invariant steady ==> Paced(runs, old(saved), k, saved, store.durable)
      {
        ghost var before, durable, seen := saved, store.durable, store.Visible(runs[k].rpc);
        var r := RunBatch(runs[k]);
        HistoryAppend(runs, states, k, Snapshot(saved, store.durable));
        MovesCycles(runs[k], before, durable, saved, store.durable);
        states := states + [Snapshot(saved, store.durable)];
        if steady {
          PacedStep(runs, old(saved), old(store.durable), k, before, durable, seen, r, saved, store.durable);
        }
      }
      assert runs[..|runs|] == runs;
      HistoryGrows(runs, states, 0, |runs|);
      if saved.cycles > old(saved).cycles {
        ghost var k := CyclesAreComplete(runs, states, 0, |runs|);
      }
      if steady && |runs| * Paging.PAGE_SIZE >= |runs[0].inventory| {
        PacedEnd(runs, old(saved), saved, store.durable);
      }
    }
  }

  /** How a page ends: the call goes on, its bytes are used up, the cycle is complete, or it is refused or stops. */
  datatype PageEnd = Went(pins: set<string>, newBytes: nat) | Full | Done | Failed(error: ReplicationError)

  /** Where a page from here ends. */
  function PageStop(args: Args, at: nat): nat {
    Min(at + Paging.PAGE_SIZE, |args.inventory|)
  }

  /** A calm call inside a distinct inventory; without RPC the known pins are all there are. */
  ghost predicate Smooth(args: Args, saved: State, durable: map<string, int>, seen: set<string>, pins: set<string>) {
    && saved.source == Some(args.inventory) && Position(saved) < |args.inventory| && Distinct(args.inventory)
    && Calm(args, args.inventory, durable) && pins <= seen && (args.rpc || pins == seen)
  }

  /** Rows from `at` on are seen as before. */
  ghost predicate Unaffected(rows: seq<Row>, at: nat, before: set<string>, after: set<string>) {
    forall i :: at <= i < |rows| ==> (rows[i].cid in after <==> rows[i].cid in before)
  }

  /** What a calm page leaves: bytes used up, the cycle complete at the last row, or the cursor behind the page. */
  ghost predicate Turned(args: Args, start: State, seen: set<string>, newBytes: nat, e: PageEnd,
                         saved: State, durable: map<string, int>, sees: set<string>)
  {
    var at := Position(start);
    at < |args.inventory| &&
    var end := PageStop(args, at);
    var need := Need(args.inventory[at..end], seen);
    && Unaffected(args.inventory, end, seen, sees) && Calm(args, args.inventory, durable) && need >= 0
    && if newBytes + need > args.maxNewBytes then e.Full? && SameWalk(start, saved)
       else
         && saved.pagesTotal == start.pagesTotal + 1
         && if end < |args.inventory|
            then e.Went? && e.newBytes == newBytes + need && saved.cursor == Some(end) && Smooth(args, saved, durable, sees, e.pins)
            else e.Done? && saved.cursor.None?
  }

  lemma SmoothPage(args: Args, saved: State, durable: map<string, int>, seen: set<string>, pins: set<string>)
    requires Smooth(args, saved, durable, seen, pins)
    ensures var at := Position(saved);
            var end := PageStop(args, at);
            var page := Paging.PageAt(args.inventory, at);
            && args.calm && page.Ok? && page.value.blocks == args.inventory[at..end]
            && page.value.cursor == (if end < |args.inventory| then Some(end) else None)
            && Calm(args, page.value.blocks, durable) && Distinct(page.value.blocks)
            && (args.rpc || pins == seen) && at < |args.inventory| && Distinct(args.inventory)
  {
    hide ValidRow;
    var at := Position(saved);
    var blocks := args.inventory[at..PageStop(args, at)];
    forall i, j | 0 <= i < j < |blocks|
      ensures blocks[i].cid != blocks[j].cid
    {
      assert args.inventory[at + i] == blocks[i] && args.inventory[at + j] == blocks[j];
    }
    assert forall row :: row in blocks ==> row in args.inventory;
  }

  lemma {:induction false} UnseenExact(rows: seq<Row>, seen: set<string>)
    ensures forall row :: row in Unseen(rows, seen) <==> row in rows && row.cid !in seen
    ensures Distinct(rows) ==> Distinct(Unseen(rows, seen))
    decreases |rows|
  {
    if rows != [] {
      var n := |rows| - 1;
      UnseenExact(rows[..n], seen);
      assert rows == rows[..n] + [rows[n]];
      MergeDelta.DistinctAppend(rows[..n], rows[n]);
      MergeDelta.DistinctAppend(Unseen(rows[..n], seen), rows[n]);
      assert Unseen(rows[..n], seen) + [] == Unseen(rows[..n], seen);
    }
  }

  lemma DistinctSlice(rows: seq<Row>, i: nat, j: nat)
    requires Distinct(rows) && i <= j <= |rows|
    ensures Distinct(rows[i..j])
  {
    assert forall k :: 0 <= k < j - i ==> rows[i..j][k] == rows[i + k];
  }

  lemma SelectedCalm(args: Args, blocks: seq<Row>, durable: map<string, int>, seen: set<string>, selected: seq<Row>)
    requires Calm(args, blocks, durable) && Distinct(blocks)
    requires exists k :: 0 <= k <= |blocks| && selected == Unseen(blocks[..k], seen)
    ensures Calm(args, selected, durable) && Distinct(selected)
  {
    hide ValidRow, Distinct, Unseen;
    var k :| 0 <= k <= |blocks| && selected == Unseen(blocks[..k], seen);
    DistinctSlice(blocks, 0, k);
    assert blocks[0..k] == blocks[..k];
    UnseenExact(blocks[..k], seen);
    assert forall row :: row in blocks[..k] ==> row in blocks;
  }

  lemma VisibleAdded(before: map<string, int>, hidden: set<string>, after: map<string, int>, hides: set<string>,
                     cids: set<string>, rpc: bool)
    requires Added(before, hidden, after, hides, cids, true)
    ensures VisibleIn(after, hides, rpc) == VisibleIn(before, hidden, rpc) + cids
    ensures after.Keys <= before.Keys + cids
  {
  }

  /** Stored rows of the page neither disagree with the inventory nor change what is seen of later rows. */
  lemma SmoothAfter(args: Args, start: State, before: map<string, int>, seen: set<string>, pins: set<string>,
                    after: map<string, int>, sees: set<string>, selected: seq<Row>)
    requires Smooth(args, start, before, seen, pins) && Grows(before, after) && AllStored(after, selected)
    requires after.Keys <= before.Keys + CidsOf(selected) && sees == seen + CidsOf(selected)
    requires forall row :: row in selected ==> row in args.inventory[Position(start)..PageStop(args, Position(start))]
    ensures Calm(args, args.inventory, after)
    ensures Unaffected(args.inventory, PageStop(args, Position(start)), seen, sees)
  {
    hide ValidRow;
    var rows, at, end := args.inventory, Position(start), PageStop(args, Position(start));
    forall row | row in rows && row.cid in after
      ensures after[row.cid] == row.size
    {
      if row.cid !in before {
        var i :| 0 <= i < |selected| && selected[i].cid == row.cid;
        assert Stored(after, selected[i]) && selected[i] in selected;
        SameRow(rows, selected[i], row, at, end);
      }
    }
    forall i | end <= i < |rows|
      ensures rows[i].cid in sees <==> rows[i].cid in seen
    {
      if rows[i].cid in CidsOf(selected) {
        var j :| 0 <= j < |selected| && selected[j].cid == rows[i].cid;
        assert selected[j] in selected;
        LaterRow(rows, selected[j], at, end, i);
      }
    }
  }

  lemma SameRow(rows: seq<Row>, a: Row, b: Row, at: nat, end: nat)
    requires Distinct(rows) && at <= end <= |rows| && a in rows[at..end] && b in rows && a.cid == b.cid
    ensures a == b
  {
    var i :| 0 <= i < end - at && rows[at..end][i] == a;
    assert rows[at + i] == a;
    var j :| 0 <= j < |rows| && rows[j] == b;
  }

  lemma LaterRow(rows: seq<Row>, a: Row, at: nat, end: nat, i: nat)
    requires Distinct(rows) && at <= end <= i < |rows| && a in rows[at..end]
    ensures rows[i].cid != a.cid
  {
    var j :| 0 <= j < end - at && rows[at..end][j] == a;
    assert rows[at + j] == a;
  }

  lemma NeedLast(rows: seq<Row>, i: nat, j: nat, seen: set<string>)
    requires i < j <= |rows|
    ensures Need(rows[i..j], seen) == Need(rows[i..j - 1], seen) + if rows[j - 1].cid in seen then 0 else rows[j - 1].size
  {
    hide Need;
    var part := rows[i..j];
    UnseenStep(part, |part| - 1, seen);
    assert part[..|part|] == part;
    assert part[..|part| - 1] == rows[i..j - 1];
  }

  lemma {:induction false} NeedSplit(rows: seq<Row>, i: nat, j: nat, k: nat, seen: set<string>)
    requires i <= j <= k <= |rows|
    ensures Need(rows[i..k], seen) == Need(rows[i..j], seen) + Need(rows[j..k], seen)
    decreases k - j
  {
    hide Need;
    if j == k {
      UnseenNone(rows[j..k], seen);
      assert rows[j..k][..0] == rows[j..k];
    } else {
      NeedSplit(rows, i, j, k - 1, seen);
      NeedLast(rows, i, k, seen);
      NeedLast(rows, j, k, seen);
    }
  }

  lemma {:induction false} NeedSame(rows: seq<Row>, i: nat, j: nat, before: set<string>, after: set<string>)
    requires i <= j <= |rows| && Unaffected(rows, i, before, after)
    ensures Need(rows[i..j], after) == Need(rows[i..j], before)
    decreases j - i
  {
    hide Need;
    if i == j {
      UnseenNone(rows[i..j], before);
      UnseenNone(rows[i..j], after);
      assert rows[i..j][..0] == rows[i..j];
    } else {
      NeedSame(rows, i, j - 1, before, after);
      NeedLast(rows, i, j, before);
      NeedLast(rows, i, j, after);
    }
  }

  lemma NeedSlice(args: Args, durable: map<string, int>, i: nat, j: nat, k: nat, seen: set<string>)
    requires Calm(args, args.inventory, durable) && i <= j <= k <= |args.inventory|
    ensures 0 <= Need(args.inventory[i..j], seen) <= Need(args.inventory[i..k], seen)
  {
    hide Need, ValidRow;
    var rows := args.inventory[i..k];
    assert forall row :: row in rows ==> row in args.inventory;
    NeedPrefix(args, rows, durable, j - i, seen);
    assert rows[..j - i] == args.inventory[i..j];
  }

  lemma TurnedFull(args: Args, start: State, seen: set<string>, newBytes: nat, saved: State, durable: map<string, int>,
                   sees: set<string>)
    requires Position(start) < |args.inventory| && SameWalk(start, saved)
    requires Unaffected(args.inventory, PageStop(args, Position(start)), seen, sees) && Calm(args, args.inventory, durable)
    requires newBytes + Need(args.inventory[Position(start)..PageStop(args, Position(start))], seen) > args.maxNewBytes
    ensures Turned(args, start, seen, newBytes, Full, saved, durable, sees)
  {
    hide Need, Calm, Unaffected;
    var at := Position(start);
    NeedSlice(args, durable, at, PageStop(args, at), PageStop(args, at), seen);
  }

  lemma TurnedPage(args: Args, start: State, seen: set<string>, newBytes: nat, e: PageEnd, saved: State,
                   durable: map<string, int>, sees: set<string>)
    requires Position(start) < |args.inventory| && Distinct(args.inventory) && saved.source == Some(args.inventory)
    requires Unaffected(args.inventory, PageStop(args, Position(start)), seen, sees) && Calm(args, args.inventory, durable)
    requires saved.pagesTotal == start.pagesTotal + 1
    requires var end := PageStop(args, Position(start));
             var need := Need(args.inventory[Position(start)..end], seen);
             && newBytes + need <= args.maxNewBytes
             && if end < |args.inventory|
                then e.Went? && e.newBytes == newBytes + need && saved.cursor == Some(end) &&
                     e.pins <= sees && (args.rpc || e.pins == sees)
                else e.Done? && saved.cursor.None?
    ensures Turned(args, start, seen, newBytes, e, saved, durable, sees)
  {
    hide Need, Calm, Unaffected, Distinct;
    var at := Position(start);
    NeedSlice(args, durable, at, PageStop(args, at), PageStop(args, at), seen);
  }

  lemma PositionSound(args: Args, saved: State, durable: map<string, int>)
    requires Sound(saved, durable) && saved.source == Some(args.inventory)
    ensures Position(saved) <= |args.inventory| && AllStored(durable, args.inventory[..Position(saved)])
  {
  }

  lemma SoundAt(args: Args, saved: State, durable: map<string, int>)
    requires saved.source == Some(args.inventory)
    requires Position(saved) <= |args.inventory| && AllStored(durable, args.inventory[..Position(saved)])
    ensures Sound(saved, durable)
  {
  }

  // ----- calm calls

  /** A calm call that can go on somewhere inside a distinct inventory. */
  ghost predicate Undisturbed(args: Args, saved: State, durable: map<string, int>) {
    && Continuable(args, saved, true, true) && Position(Continued(args, saved)) < |args.inventory|
    && Distinct(args.inventory) && Calm(args, args.inventory, durable)
  }

  function PagesIn(rows: nat): nat {
    (rows + Paging.PAGE_SIZE - 1) / Paging.PAGE_SIZE
  }

  /**
   What a calm call from `start` ends with: the bytes are used up exactly when the blocks missing on its way
   are more than allowed; otherwise the cycle is complete exactly when the way reaches the end.
   */
  ghost predicate Progress(args: Args, start: State, seen: set<string>, r: Result<Outcome, ReplicationError>, saved: State) {
    var p, n := Position(start), |args.inventory|;
    p < n &&
    var q := Min(p + Paging.PAGE_SIZE * args.maxPages, n);
    if Need(args.inventory[p..q], seen) > args.maxNewBytes then r == Ok(ByteBudget)
    else if q == n then r == Ok(CycleComplete) && saved.cursor.None? && saved.pagesTotal == start.pagesTotal + PagesIn(n - p)
    else r == Ok(PageLimit) && Position(saved) == q && saved.pagesTotal == start.pagesTotal + args.maxPages
  }

  /** A calm call that has passed `page` pages. */
  ghost predicate Onward(args: Args, start: State, seen: set<string>, page: nat, newBytes: nat, saved: State, sees: set<string>) {
    var p, at := Position(start), Position(saved);
    && p <= at == p + Paging.PAGE_SIZE * page < |args.inventory|
    && newBytes == Need(args.inventory[p..at], seen) && saved.pagesTotal == start.pagesTotal + page
    && Unaffected(args.inventory, at, seen, sees)
  }

  lemma UndisturbedStart(args: Args, saved: State, durable: map<string, int>, seen: set<string>)
    requires Undisturbed(args, saved, durable)
    ensures args.calm && args.storageMax > args.repoSize && Continuable(args, saved, true, true)
    ensures Smooth(args, Continued(args, saved), durable, seen, seen)
    ensures Onward(args, Continued(args, saved), seen, 0, 0, Continued(args, saved), seen)
  {
    hide Continuable, ValidRow, Distinct;
    var start := Continued(args, saved);
    var p := Position(start);
    assert args.inventory[p..p] == args.inventory[..0];
    UnseenNone(args.inventory, seen);
  }

  lemma OnwardStep(args: Args, start: State, seen: set<string>, page: nat, newBytes: nat, now: State, view: set<string>,
                   e: PageEnd, saved: State, durable: map<string, int>, sees: set<string>)
    requires Onward(args, start, seen, page, newBytes, now, view) && page < args.maxPages
    requires Turned(args, now, view, newBytes, e, saved, durable, sees)
    ensures !e.Failed? && Calm(args, args.inventory, durable)
    ensures e.Went? ==>
              && Smooth(args, saved, durable, sees, e.pins)
              && Onward(args, start, seen, page + 1, e.newBytes, saved, sees)
    ensures e.Full? ==> Progress(args, start, seen, Ok(ByteBudget), saved)
    ensures e.Done? ==> Progress(args, start, seen, Ok(CycleComplete), saved)
  {
    hide Need, Calm, Smooth;
    var rows, p, at := args.inventory, Position(start), Position(now);
    var end := PageStop(args, at);
    var q := Min(p + Paging.PAGE_SIZE * args.maxPages, |rows|);
    assert end <= q;
    NeedSame(rows, at, end, seen, view);
    NeedSplit(rows, p, at, end, seen);
    NeedSlice(args, durable, p, end, q, seen);
  }

  lemma OnwardEnd(args: Args, start: State, seen: set<string>, newBytes: nat, saved: State, durable: map<string, int>,
                  sees: set<string>, pins: set<string>)
    requires Smooth(args, saved, durable, sees, pins)
    requires Onward(args, start, seen, args.maxPages, newBytes, saved, sees) && newBytes <= args.maxNewBytes
    ensures Progress(args, start, seen, Ok(PageLimit), saved) && Calm(args, args.inventory, durable)
  {
    hide Need, Unaffected, Calm;
  }

  // ----- enough calm calls

  /** Calm calls on one inventory, each with at least a page and room for all its bytes. */
  ghost predicate Steady(runs: seq<Args>, saved: State, durable: map<string, int>) {
    && runs != [] && Undisturbed(runs[0], saved, durable)
    && forall i :: 0 <= i < |runs| ==>
         && runs[i].inventory == runs[0].inventory && runs[i].maxPages >= 1
         && Sum(runs[i].inventory) <= runs[i].maxNewBytes && Calm(runs[i], runs[0].inventory, durable)
  }

  /** After `k` calls a cycle was counted, or the cursor is `k` pages further on at least. */
  ghost predicate Paced(runs: seq<Args>, start: State, k: nat, saved: State, durable: map<string, int>) {
    && k <= |runs| && runs != []
    && (saved.cycles > start.cycles ||
        (&& saved.cycles == start.cycles
         && (forall i :: 0 <= i < |runs| ==> Calm(runs[i], runs[0].inventory, durable))
         && if k == 0 then saved == start
            else saved.source == Some(runs[0].inventory) && k * Paging.PAGE_SIZE <= Position(saved) < |runs[0].inventory|))
  }

  lemma PacedStart(runs: seq<Args>, saved: State, durable: map<string, int>)
    requires Steady(runs, saved, durable)
    ensures Paced(runs, saved, 0, saved, durable)
  {
    hide Calm, Undisturbed;
  }

  lemma PacedGoesOn(runs: seq<Args>, start: State, first: map<string, int>, k: nat, saved: State, durable: map<string, int>)
    requires Steady(runs, start, first) && Paced(runs, start, k, saved, durable) && k < |runs|
    ensures saved.cycles == start.cycles ==> Undisturbed(runs[k], saved, durable)
  {
    hide Calm, Distinct, ReadableInventory, Contains;
  }

  lemma {:induction false} NeedAtMost(rows: seq<Row>, seen: set<string>)
    requires Sizes(rows)
    ensures 0 <= Need(rows, seen) <= Sum(rows)
    decreases |rows|
  {
    if rows == [] {
    } else {
      var n := |rows| - 1;
      NeedAtMost(rows[..n], seen);
      UnseenStep(rows, n, seen);
      assert rows[..n + 1] == rows;
    }
  }

  lemma CalmSizes(args: Args, rows: seq<Row>, durable: map<string, int>)
    requires Calm(args, rows, durable)
    ensures Sizes(rows)
  {
    forall i | 0 <= i < |rows|
      ensures rows[i].size >= 0
    {
      CalmRow(args, rows, durable, rows[i]);
    }
  }

  /** What a calm call with room for everything leaves. */
  lemma RoomForAll(args: Args, start: State, durable: map<string, int>, seen: set<string>, r: Result<Outcome, ReplicationError>,
                   saved: State)
    requires Progress(args, start, seen, r, saved) && Calm(args, args.inventory, durable)
    requires Sum(args.inventory) <= args.maxNewBytes && args.maxPages >= 1
    ensures r == Ok(CycleComplete) ||
            (r == Ok(PageLimit) && Position(start) + Paging.PAGE_SIZE <= Position(saved) < |args.inventory|)
  {
    hide Need, Calm, Sum;
    var p, n := Position(start), |args.inventory|;
    var q := Min(p + Paging.PAGE_SIZE * args.maxPages, n);
    CalmSizes(args, args.inventory, durable);
    NeedAtMost(args.inventory, seen);
    NeedSlice(args, durable, 0, q, n, seen);
    NeedSlice(args, durable, 0, p, n, seen);
    NeedSplit(args.inventory, 0, p, q, seen);
    assert args.inventory[0..n] == args.inventory;
    assert Paging.PAGE_SIZE * args.maxPages >= Paging.PAGE_SIZE;
  }

  lemma PacedStep(runs: seq<Args>, start: State, first: map<string, int>, k: nat, before: State, held: map<string, int>,
                  seen: set<string>, r: Result<Outcome, ReplicationError>, saved: State, durable: map<string, int>)
    requires Steady(runs, start, first) && Paced(runs, start, k, before, held) && k < |runs|
    requires before.cycles <= saved.cycles && (r == Ok(CycleComplete) ==> saved.cycles == before.cycles + 1)
    requires r.Ok? ==> saved.source == Some(runs[k].inventory)
    requires Undisturbed(runs[k], before, held) ==>
               && Calm(runs[k], runs[k].inventory, durable)
               && Progress(runs[k], Continued(runs[k], before), seen, r, saved)
    ensures Paced(runs, start, k + 1, saved, durable)
  {
    hide Calm, Distinct, ReadableInventory, Contains, Progress, Undisturbed;
    if saved.cycles == start.cycles {
      PacedGoesOn(runs, start, first, k, before, held);
      RoomForAll(runs[k], Continued(runs[k], before), durable, seen, r, saved);
      forall i | 0 <= i < |runs|
        ensures Calm(runs[i], runs[0].inventory, durable)
      {
        CalmAlike(runs[k], runs[i], runs[0].inventory, held, durable);
      }
    }
  }

  lemma MovesCycles(args: Args, before: State, held: map<string, int>, after: State, holds: map<string, int>)
    requires Moves(args, before, held, after, holds)
    ensures before.cycles <= after.cycles
  {
  }

  lemma CalmAlike(a: Args, b: Args, rows: seq<Row>, held: map<string, int>, durable: map<string, int>)
    requires Calm(a, rows, durable) && Calm(b, rows, held)
    ensures Calm(b, rows, durable)
  {
  }

  lemma PacedEnd(runs: seq<Args>, start: State, saved: State, durable: map<string, int>)
    requires Paced(runs, start, |runs|, saved, durable) && |runs| * Paging.PAGE_SIZE >= |runs[0].inventory|
    ensures saved.cycles > start.cycles
  {
    hide Calm;
  }

  /** Only these CIDs were added to the store or became visible, and all of them when `all` holds. */
  ghost predicate Added(before: map<string, int>, hidden: set<string>, after: map<string, int>, hides: set<string>,
                        cids: set<string>, all: bool) {
    && before.Keys <= after.Keys <= before.Keys + cids && hidden - cids <= hides <= hidden
    && (all ==> cids <= after.Keys && hides !! cids)
  }

  lemma AddedNone(durable: map<string, int>, hidden: set<string>, rows: seq<Row>)
    ensures Added(durable, hidden, durable, hidden, CidsOf(rows[..0]), true)
  {
    assert CidsOf(rows[..0]) == {};
  }

  /** What was added of the first rows was added of all. */
  lemma AddedMore(before: map<string, int>, hidden: set<string>, after: map<string, int>, hides: set<string>,
                  rows: seq<Row>, y: nat)
    requires y <= |rows| && Added(before, hidden, after, hides, CidsOf(rows[..y]), true)
    ensures Added(before, hidden, after, hides, CidsOf(rows), false)
    ensures y == |rows| ==> Added(before, hidden, after, hides, CidsOf(rows), true)
  {
    assert y == |rows| ==> rows[..y] == rows;
    forall cid | cid in CidsOf(rows[..y])
      ensures cid in CidsOf(rows)
    {
      var i :| 0 <= i < y && rows[..y][i].cid == cid;
      assert rows[i].cid == cid;
    }
  }

  lemma AddedStep(before: map<string, int>, hidden: set<string>, now: map<string, int>, hides: set<string>,
                  after: map<string, int>, left: set<string>, rows: seq<Row>, y: nat, stored: bool)
    requires y < |rows| && Added(before, hidden, now, hides, CidsOf(rows[..y]), true)
    requires now.Keys <= after.Keys <= now.Keys + {rows[y].cid} && hides - {rows[y].cid} <= left <= hides
    requires stored ==> rows[y].cid in after && rows[y].cid !in left
    ensures Added(before, hidden, after, left, CidsOf(rows[..y + 1]), stored)
    ensures !stored ==> Added(before, hidden, after, left, CidsOf(rows), false)
  {
    assert rows[..y + 1] == rows[..y] + [rows[y]];
    CidsAppend(rows[..y], rows[y]);
    forall cid | cid in CidsOf(rows[..y + 1])
      ensures cid in CidsOf(rows)
    {
      var i :| 0 <= i < y + 1 && rows[..y + 1][i].cid == cid;
      assert rows[i].cid == cid;
    }
  }

  /** A row none of the rows before it stored is in the store only if it was there at the start. */
  lemma NextIsFree(before: map<string, int>, hidden: set<string>, now: map<string, int>, hides: set<string>,
                   rows: seq<Row>, y: nat)
    requires y < |rows| && Distinct(rows) && Grows(before, now)
    requires Added(before, hidden, now, hides, CidsOf(rows[..y]), true)
    requires rows[y].cid in before ==> before[rows[y].cid] == rows[y].size
    ensures rows[y].cid in now ==> now[rows[y].cid] == rows[y].size
  {
    assert forall i :: 0 <= i < y ==> rows[..y][i].cid == rows[i].cid != rows[y].cid;
  }

  // ----- what a calm call fetches

  /** The rows whose CID is not seen, in order. */
  function Unseen(rows: seq<Row>, seen: set<string>): seq<Row> {
    if rows == [] then []
    else
      var n := |rows| - 1;
      Unseen(rows[..n], seen) + if rows[n].cid in seen then [] else [rows[n]]
  }

  /** The bytes of the rows not seen. */
  function Need(rows: seq<Row>, seen: set<string>): int {
    Sum(Unseen(rows, seen))
  }

  /** A call nothing interrupts, on valid rows of any allowed size whose stored blocks agree, with room to spare. */
  ghost predicate Calm(args: Args, rows: seq<Row>, durable: map<string, int>) {
    && args.calm && args.repoSize + 2 * args.maxNewBytes < args.storageMax
    && forall row :: row in rows ==>
         && ValidRow(row) && row.size <= args.maxBlockBytes && row.size <= args.maxPrefetch
         && (row.cid in durable ==> durable[row.cid] == row.size)
  }

  lemma CalmRow(args: Args, rows: seq<Row>, durable: map<string, int>, row: Row)
    requires Calm(args, rows, durable) && row in rows
    ensures args.calm && args.repoSize + 2 * args.maxNewBytes < args.storageMax
    ensures ValidRow(row) && row.size > 0 && row.size <= args.maxBlockBytes && row.size <= args.maxPrefetch
    ensures row.cid in durable ==> durable[row.cid] == row.size
  {
  }

  lemma UnseenNone(rows: seq<Row>, seen: set<string>)
    ensures Unseen(rows[..0], seen) == [] && Need(rows[..0], seen) == 0
  {
  }

  lemma UnseenStep(rows: seq<Row>, k: nat, seen: set<string>)
    requires k < |rows|
    ensures Unseen(rows[..k + 1], seen) == Unseen(rows[..k], seen) + if rows[k].cid in seen then [] else [rows[k]]
    ensures Need(rows[..k + 1], seen) == Need(rows[..k], seen) + if rows[k].cid in seen then 0 else rows[k].size
  {
    assert rows[..k + 1][..k] == rows[..k];
    SumAppend(Unseen(rows[..k], seen), rows[k]);
    assert Unseen(rows[..k], seen) + [] == Unseen(rows[..k], seen);
  }

  lemma {:induction false} NeedPrefix(args: Args, rows: seq<Row>, durable: map<string, int>, k: nat, seen: set<string>)
    requires Calm(args, rows, durable) && k <= |rows|
    ensures 0 <= Need(rows[..k], seen) <= Need(rows, seen)
    decreases |rows| - k
  {
    hide Calm, Need;
    if k < |rows| {
      NeedPrefix(args, rows, durable, k + 1, seen);
      CalmRow(args, rows, durable, rows[k]);
      UnseenStep(rows, k, seen);
      NeedPositive(args, rows, durable, k, seen);
    } else {
      assert rows[..k] == rows;
      NeedPositive(args, rows, durable, k, seen);
    }
  }

  lemma {:induction false} NeedPositive(args: Args, rows: seq<Row>, durable: map<string, int>, k: nat, seen: set<string>)
    requires Calm(args, rows, durable) && k <= |rows|
    ensures 0 <= Need(rows[..k], seen)
    decreases k
  {
    hide Calm, Need;
    if k == 0 {
      UnseenNone(rows, seen);
    } else {
      NeedPositive(args, rows, durable, k - 1, seen);
      CalmRow(args, rows, durable, rows[k - 1]);
      UnseenStep(rows, k - 1, seen);
    }
  }

  datatype Outcome = ByteBudget | CycleComplete | PageLimit

  /** A page's rows to fetch; `stop` when the byte budget ends the call after them. */
  datatype Plan = Plan(selected: seq<Row>, checked: nat, stop: bool)

  ghost predicate Plans(args: Args, blocks: seq<Row>, durable: map<string, int>, newBytes: nat, plan: Plan) {
    && Sizes(plan.selected) && 0 <= Sum(plan.selected) && newBytes + Sum(plan.selected) <= args.maxNewBytes
    && (forall row :: row in plan.selected ==> row in blocks)
    && (if plan.stop
        then exists k :: 0 <= k < |blocks| && PlannedTo(durable, blocks, k, plan) &&
                         newBytes + Sum(plan.selected) + blocks[k].size > args.maxNewBytes
        else PlannedTo(durable, blocks, |blocks|, plan))
  }

  /** The first `k` rows are valid and not too large, and storing the selected ones keeps below the storage limit. */
  ghost predicate WithinLimits(args: Args, blocks: seq<Row>, newBytes: nat, selected: seq<Row>, k: nat) {
    && k <= |blocks| && (forall i :: 0 <= i < k ==> ValidRow(blocks[i]) && blocks[i].size <= args.maxBlockBytes)
    && (selected != [] ==> args.repoSize + 2 * (newBytes + Sum(selected)) < args.storageMax)
  }

  /** The first `k` rows of the page are stored already or selected, each counted once. */
  ghost predicate PlannedTo(durable: map<string, int>, blocks: seq<Row>, k: nat, plan: Plan) {
    && k <= |blocks| && plan.checked + |plan.selected| == k
    && forall i :: 0 <= i < k ==> Stored(durable, blocks[i]) || blocks[i] in plan.selected
  }

  function PlannedBytes(plan: Plan): int {
    Sum(plan.selected)
  }

  /** Nothing of the walk itself changed, only the totals of new blocks. */
  predicate SameWalk(before: State, after: State) {
    after == before.(newBlocksTotal := after.newBlocksTotal, newBytesTotal := after.newBytesTotal)
  }

  /**
   How one call moves the checkpoint and the store, wherever it stops: stored blocks stay, the inventory
   changes only to one that contains it, and a cycle is counted only with every row stored.
   */
  ghost predicate Moves(args: Args, before: State, held: map<string, int>, after: State, holds: map<string, int>) {
    && Grows(held, holds)
    && (before.source == after.source || after.source == Some(args.inventory))
    && (before.source.Some? ==> after.source.Some? && Contains(after.source.value, before.source.value))
    && before.cycles <= after.cycles <= before.cycles + 1
    && (after.cycles > before.cycles ==> after.source == Some(args.inventory) && AllStored(holds, args.inventory))
  }

  lemma NothingPlanned()
    ensures Sum([]) == 0 && Sizes([])
  {
  }

  lemma SelectedAppend(selected: seq<Row>, row: Row)
    requires Sizes(selected) && row.size >= 0
    ensures Sizes(selected + [row]) && Sum(selected + [row]) == Sum(selected) + row.size
  {
    SumAppend(selected, row);
  }

  lemma StoredIs(durable: map<string, int>, row: Row)
    ensures Stored(durable, row) <==> row.cid in durable && durable[row.cid] == row.size
  {
  }

  lemma {:induction false} SumPrefix(rows: seq<Row>, k: nat)
    requires Sizes(rows) && k <= |rows|
    ensures 0 <= Sum(rows[..k]) <= Sum(rows)
    decreases |rows|
  {
    if k < |rows| {
      var n := |rows| - 1;
      assert rows[..n][..k] == rows[..k];
      SumPrefix(rows[..n], k);
    } else {
      assert rows[..k] == rows;
      if k > 0 {
        SumPrefix(rows[..k - 1], k - 1);
      }
    }
  }

  lemma SumStep(rows: seq<Row>, k: nat)
    requires Sizes(rows) && k < |rows|
    ensures Sum(rows[..k + 1]) == Sum(rows[..k]) + rows[k].size && rows[k].size >= 0
    ensures Sum(rows[..k + 1]) <= Sum(rows)
  {
    assert rows[..k + 1] == rows[..k] + [rows[k]];
    SumAppend(rows[..k], rows[k]);
    SumPrefix(rows, k + 1);
  }

  lemma StoredGrows(before: map<string, int>, after: map<string, int>, rows: seq<Row>)
    requires Grows(before, after) && AllStored(before, rows)
    ensures AllStored(after, rows)
  {
  }

  lemma StoredAppend(durable: map<string, int>, rows: seq<Row>, k: nat)
    requires k < |rows| && AllStored(durable, rows[..k]) && Stored(durable, rows[k])
    ensures AllStored(durable, rows[..k + 1])
  {
    assert rows[..k + 1] == rows[..k] + [rows[k]];
  }

  lemma PlansBound(args: Args, blocks: seq<Row>, durable: map<string, int>, newBytes: nat, plan: Plan)
    requires Plans(args, blocks, durable, newBytes, plan)
    ensures Sizes(plan.selected) && 0 <= PlannedBytes(plan) && newBytes + PlannedBytes(plan) <= args.maxNewBytes
    ensures PlannedBytes(plan) == Sum(plan.selected)
    ensures forall row :: row in plan.selected ==> row in blocks
  {
  }

  lemma SoundGrows(before: State, after: State, held: map<string, int>, holds: map<string, int>)
    requires SameWalk(before, after) && Grows(held, holds) && Sound(before, held)
    ensures Sound(after, holds)
  {
    if before.source.Some? {
      StoredGrows(held, holds, before.source.value[..Position(before)]);
    }
  }

  lemma GrowsItself(durable: map<string, int>)
    ensures Grows(durable, durable)
  {
  }

  lemma GrowsOn(first: map<string, int>, before: map<string, int>, after: map<string, int>)
    requires Grows(first, before) && Grows(before, after)
    ensures Grows(first, after) && before.Keys <= after.Keys
  {
  }

  lemma PageStored(args: Args, blocks: seq<Row>, before: map<string, int>, after: map<string, int>, newBytes: nat, plan: Plan)
    requires Plans(args, blocks, before, newBytes, plan) && !plan.stop
    requires Grows(before, after) && AllStored(after, plan.selected)
    ensures AllStored(after, blocks)
  {
    forall i | 0 <= i < |blocks|
      ensures Stored(after, blocks[i])
    {
      if blocks[i] in plan.selected {
        var k :| 0 <= k < |plan.selected| && plan.selected[k] == blocks[i];
      }
    }
  }

  /** With a page stored behind the rows before it, the rows up to its end are stored. */
  lemma PageExtends(rows: seq<Row>, position: nat, durable: map<string, int>)
    requires position <= |rows| && AllStored(durable, rows[..position])
    requires var page := Paging.PageAt(rows, position); page.Ok? && AllStored(durable, page.value.blocks)
    ensures var page := Paging.PageAt(rows, position).value;
            if page.cursor.Some?
            then page.cursor.value <= |rows| && AllStored(durable, rows[..page.cursor.value])
            else AllStored(durable, rows)
  {
    var blocks := Paging.PageAt(rows, position).value.blocks;
    var end := position + |blocks|;
    forall i | 0 <= i < end
      ensures Stored(durable, rows[i])
    {
      if i < position {
        assert rows[..position][i] == rows[i];
      } else {
        assert blocks[i - position] == rows[i];
      }
    }
  }

  lemma PreparedIsSound(args: Args, before: State, durable: map<string, int>)
    requires Sound(before, durable)
    ensures forall after :: Prepared(args, before, after) ==>
              Sound(after, durable) && Moves(args, before, durable, after, durable) && after.cycles == before.cycles
    ensures Moves(args, before, durable, before, durable)
  {
  }

  lemma ContinuedSource(args: Args, before: State)
    ensures var after := Continued(args, before);
            after.source == Some(args.inventory) && after.newBytesTotal == before.newBytesTotal
  {
  }

  lemma NoneStored(durable: map<string, int>, rows: seq<Row>)
    ensures AllStored(durable, rows[..0])
  {
  }

  // ----- any sequence of calls

  /** The durable state between two calls. */
  datatype Snapshot = Snapshot(saved: State, durable: map<string, int>)

  /** `runs[i]` leads from `states[i]` to `states[i + 1]`. */
  ghost predicate History(runs: seq<Args>, states: seq<Snapshot>) {
    && |states| == |runs| + 1
    && forall i :: 0 <= i < |runs| ==>
         Moves(runs[i], states[i].saved, states[i].durable, states[i + 1].saved, states[i + 1].durable)
  }

  lemma HistoryAppend(runs: seq<Args>, states: seq<Snapshot>, k: nat, next: Snapshot)
    requires k < |runs| && History(runs[..k], states)
    requires Moves(runs[k], states[k].saved, states[k].durable, next.saved, next.durable)
    ensures History(runs[..k + 1], states + [next])
  {
    hide Moves;
  }

  lemma ContainsTransitive(a: seq<Row>, b: seq<Row>, c: seq<Row>)
    requires Contains(a, b) && Contains(b, c)
    ensures Contains(a, c)
  {
  }

  /** Across a whole history stored blocks stay and a later inventory contains an earlier one. */
  lemma {:induction false} HistoryGrows(runs: seq<Args>, states: seq<Snapshot>, i: nat, j: nat)
    requires History(runs, states) && i <= j < |states|
    ensures Grows(states[i].durable, states[j].durable) && states[i].saved.cycles <= states[j].saved.cycles
    ensures states[i].saved.source.Some? ==>
              states[j].saved.source.Some? && Contains(states[j].saved.source.value, states[i].saved.source.value)
    decreases j
  {
    hide AllStored, Contains;
    if i < j {
      HistoryGrows(runs, states, i, j - 1);
      assert Moves(runs[j - 1], states[j - 1].saved, states[j - 1].durable, states[j].saved, states[j].durable);
      if states[i].saved.source.Some? {
        ContainsTransitive(states[j].saved.source.value, states[j - 1].saved.source.value, states[i].saved.source.value);
      }
    } else {
      ContainsItself(states[i]);
    }
  }

  lemma ContainsItself(s: Snapshot)
    ensures s.saved.source.Some? ==> Contains(s.saved.source.value, s.saved.source.value)
  {
  }

  /**
   Over any sequence of calls that succeed, refuse or stop part-way: whenever the cycle count grew, one
   of the calls ended with every row of its inventory stored, those rows still are, and the inventory the
   checkpoint names now contains them.
   */
  lemma {:induction false} CyclesAreComplete(runs: seq<Args>, states: seq<Snapshot>, i: nat, j: nat) returns (k: nat)
    requires History(runs, states) && i <= j < |states|
    requires states[j].saved.cycles > states[i].saved.cycles
    ensures i <= k < j
    ensures AllStored(states[j].durable, runs[k].inventory)
    ensures states[j].saved.source.Some? && Contains(states[j].saved.source.value, runs[k].inventory)
    decreases j
  {
    hide AllStored, Contains, Grows;
    assert i < j;
    if states[j - 1].saved.cycles > states[i].saved.cycles {
      k := CyclesAreComplete(runs, states, i, j - 1);
    } else {
      k := j - 1;
      assert Moves(runs[k], states[k].saved, states[k].durable, states[j].saved, states[j].durable);
    }
    assert Moves(runs[j - 1], states[j - 1].saved, states[j - 1].durable, states[j].saved, states[j].durable);
    if k < j - 1 {
      StoredGrows(states[j - 1].durable, states[j].durable, runs[k].inventory);
      ContainsTransitive(states[j].saved.source.value, states[j - 1].saved.source.value, runs[k].inventory);
    } else {
      ContainsItself(states[j]);
    }
  }
}

/** Which epoch lists a CID: the maps of EpochInventory and EpochBlocks in deploy/serve_lake.py. */
module EpochMaps {
  import opened Bytes
  import opened Inventory
  import opened Paging

  /** EpochInventory as its constructor leaves it. */
  datatype Lake = Lake(parts: seq<seq<Row>>, sizes: map<string, int>, owner: map<string, nat>)

  /** The CIDs of the first `n` epochs. */
  function AllCids(parts: seq<seq<Row>>, n: nat): set<string>
    requires n <= |parts|
  {
    if n == 0 then {} else AllCids(parts, n - 1) + CidsOf(parts[n - 1])
  }

  /** The maps list exactly the first `n` epochs, every CID with its epoch and size. */
  ghost predicate Owned(lake: Lake, n: nat) {
    && n <= |lake.parts| && lake.owner.Keys == lake.sizes.Keys == AllCids(lake.parts, n)
    && forall i, k :: 0 <= i < n && 0 <= k < |lake.parts[i]| ==>
         var row := lake.parts[i][k];
         && row.cid in lake.owner && lake.owner[row.cid] == i
         && row.cid in lake.sizes && lake.sizes[row.cid] == row.size
  }

  /** No CID is listed in two of the first `n` epochs. */
  ghost predicate Apart(parts: seq<seq<Row>>, n: nat) {
    n <= |parts| && forall i, j :: 0 <= i < j < n ==> CidsOf(parts[i]) !! CidsOf(parts[j])
  }

  /** One epoch's rows, of which the first `k` are in the maps. */
  ghost predicate OwnedPart(lake: Lake, n: nat, k: nat, before: Lake) {
    && n < |lake.parts| && k <= |lake.parts[n]| && lake.parts == before.parts
    && lake.owner.Keys == lake.sizes.Keys == before.owner.Keys + CidsOf(lake.parts[n][..k])
    && before.owner.Keys == before.sizes.Keys
    && (forall cid :: cid in before.owner ==> lake.owner[cid] == before.owner[cid] && lake.sizes[cid] == before.sizes[cid])
    && (forall i :: 0 <= i < k ==>
          var row := lake.parts[n][i];
          && row.cid !in before.owner
          && row.cid in lake.owner && lake.owner[row.cid] == n
          && row.cid in lake.sizes && lake.sizes[row.cid] == row.size)
  }

  method LoadEpochs(parts: seq<seq<Row>>, digestMatches: bool, count: nat) returns (r: Result<Lake, ReadError>)
    requires forall i :: 0 <= i < |parts| ==> Distinct(parts[i])
    ensures r.Ok? <==> parts != [] && digestMatches && Total(parts) == count && Apart(parts, |parts|)
    ensures r.Ok? ==> r.value.parts == parts && Owned(r.value, |parts|)
  {
    hide Owned, Apart, Distinct, Total, OwnedPart;
    if parts == [] || !digestMatches || Total(parts) != count {
      return Err(WrongSnapshot);
    }
    var lake := Lake(parts, map[], map[]);
    OwnedNone(parts);
    for n := 0 to |parts|
      invariant lake.parts == parts && Owned(lake, n) && Apart(parts, n)
    {
      ghost var before := lake;
      OwnedStart(lake, n);
      for k := 0 to |parts[n]|
        invariant lake.parts == parts && OwnedPart(lake, n, k, before)
      {
        var row := parts[n][k];
        if row.cid in lake.sizes {
          TwiceListed(lake, n, k, before);
          return Err(TwoEpochs(row.cid));
        }
        OwnedRow(lake, n, k, before);
        lake := Lake(parts, lake.sizes[row.cid := row.size], lake.owner[row.cid := n]);
      }
      OwnedEpoch(lake, n, before);
    }
    return Ok(lake);
  }

  lemma OwnedNone(parts: seq<seq<Row>>)
    ensures Owned(Lake(parts, map[], map[]), 0) && Apart(parts, 0)
  {
  }

  lemma OwnedStart(lake: Lake, n: nat)
    requires Owned(lake, n) && n < |lake.parts|
    ensures OwnedPart(lake, n, 0, lake)
  {
    assert CidsOf(lake.parts[n][..0]) == {};
  }

  lemma {:induction false} InAllCids(parts: seq<seq<Row>>, n: nat, cid: string)
    requires n <= |parts|
    ensures cid in AllCids(parts, n) <==> exists i :: 0 <= i < n && cid in CidsOf(parts[i])
  {
    if n > 0 {
      InAllCids(parts, n - 1, cid);
    }
  }

  lemma TwiceListed(lake: Lake, n: nat, k: nat, before: Lake)
    requires Owned(before, n) && OwnedPart(lake, n, k, before) && k < |lake.parts[n]| && Distinct(lake.parts[n])
    requires lake.parts[n][k].cid in lake.sizes
    ensures !Apart(lake.parts, |lake.parts|)
  {
    var cid := lake.parts[n][k].cid;
    assert cid !in CidsOf(lake.parts[n][..k]);
    InAllCids(lake.parts, n, cid);
    var i :| 0 <= i < n && cid in CidsOf(lake.parts[i]);
    assert cid in CidsOf(lake.parts[n]);
  }

  lemma OwnedRow(lake: Lake, n: nat, k: nat, before: Lake)
    requires OwnedPart(lake, n, k, before) && k < |lake.parts[n]| && lake.parts[n][k].cid !in lake.sizes
    ensures var row := lake.parts[n][k];
            OwnedPart(Lake(lake.parts, lake.sizes[row.cid := row.size], lake.owner[row.cid := n]), n, k + 1, before)
  {
    hide CidsOf;
    var row := lake.parts[n][k];
    assert lake.parts[n][..k + 1] == lake.parts[n][..k] + [row];
    CidsAppend(lake.parts[n][..k], row);
  }

  lemma OwnedEpoch(lake: Lake, n: nat, before: Lake)
    requires n < |lake.parts|
    requires Owned(before, n) && Apart(lake.parts, n) && OwnedPart(lake, n, |lake.parts[n]|, before)
    ensures Owned(lake, n + 1) && Apart(lake.parts, n + 1)
  {
    assert lake.parts[n][..|lake.parts[n]|] == lake.parts[n];
    assert Owned(lake, n + 1) by {
      hide CidsOf;
    }
    forall i | 0 <= i < n
      ensures CidsOf(lake.parts[i]) !! CidsOf(lake.parts[n])
    {
      forall cid | cid in CidsOf(lake.parts[i])
        ensures cid !in CidsOf(lake.parts[n])
      {
        InAllCids(lake.parts, n, cid);
      }
    }
  }

  /** A CID is read through the one epoch that lists it. */
  lemma OwnerIsLister(lake: Lake, cid: string, i: nat)
    requires Owned(lake, |lake.parts|) && i < |lake.parts|
    ensures cid in lake.owner && lake.owner[cid] == i <==> cid in CidsOf(lake.parts[i])
  {
    InAllCids(lake.parts, |lake.parts|, cid);
    if cid in lake.owner {
      var j :| 0 <= j < |lake.parts| && cid in CidsOf(lake.parts[j]);
      var k :| 0 <= k < |lake.parts[j]| && lake.parts[j][k].cid == cid;
    }
    if cid in CidsOf(lake.parts[i]) {
      var k :| 0 <= k < |lake.parts[i]| && lake.parts[i][k].cid == cid;
    }
  }
}

/** Inventory rows: one CID and one size per block, in strictly increasing CID order. */
module Inventory {
  import opened Bytes
  import opened Cids

  datatype Row = Row(cid: string, size: int)

  /** One line of an inventory file; None when it is not a JSON row with a string CID and integer size. */
  type Line = Option<Row>

  predicate ValidCid(text: string) {
    IsCidV0(text) || IsCidV1(text)
  }

  predicate Alphanumeric(text: string) {
    forall i :: 0 <= i < |text| ==> '0' <= text[i] <= '9' || 'A' <= text[i] <= 'Z' || 'a' <= text[i] <= 'z'
  }

  /** What the reader takes for a CID: any 46 to 100 letters and digits. */
  predicate ReaderCid(text: string) {
    46 <= |text| <= 100 && Alphanumeric(text)
  }

  /** Of the CIDs every other tool accepts the reader accepts exactly those of 46 to 100 characters. */
  lemma ReaderCidExact(text: string)
    requires ValidCid(text)
    ensures ReaderCid(text) <==> 46 <= |text| <= 100
  {
    if IsCidV1(text) {
      forall i | 0 < i < |text|
        ensures Index32(text[i]) >= 0
      {
        assert text[1..][i - 1] == text[i];
      }
    }
  }

  const SHORT_CID := "baaaaaaaaaaaaaaaaaaaa"

  /** A CID of 21 characters every other tool accepts and the reader refuses. */
  lemma ShortCid()
    ensures ValidCid(SHORT_CID) && !ReaderCid(SHORT_CID)
  {
    assert forall i :: 0 <= i < 20 ==> SHORT_CID[1..][i] == 'a';
  }

  /** Total size of the blocks. */
  function Sum(rows: seq<Row>): int {
    if rows == [] then 0 else Sum(rows[..|rows| - 1]) + rows[|rows| - 1].size
  }

  lemma SumAppend(rows: seq<Row>, row: Row)
    ensures Sum(rows + [row]) == Sum(rows) + row.size
  {
    assert (rows + [row])[..|rows|] == rows;
  }

  lemma {:induction false} SumConcat(a: seq<Row>, b: seq<Row>)
    ensures Sum(a + b) == Sum(a) + Sum(b)
    decreases |b|
  {
    if b == [] {
      assert a + b == a;
    } else {
      var n := |b| - 1;
      assert b == b[..n] + [b[n]];
      assert a + b == (a + b[..n]) + [b[n]];
      SumAppend(a + b[..n], b[n]);
      SumConcat(a, b[..n]);
    }
  }

  lemma SumFirst(rows: seq<Row>)
    requires rows != []
    ensures Sum(rows) == rows[0].size + Sum(rows[1..])
  {
    assert rows == [rows[0]] + rows[1..];
    SumConcat([rows[0]], rows[1..]);
    SumAppend([], rows[0]);
    assert [] + [rows[0]] == [rows[0]];
  }

  /** The order `compare` gives CID texts, which are ASCII. */
  predicate Before(a: string, b: string) {
    b != "" && (a == "" || a[0] < b[0] || (a[0] == b[0] && Before(a[1..], b[1..])))
  }

  /** A proper beginning of the other, or a smaller character where they first differ. */
  ghost predicate Lower(a: string, b: string, k: nat) {
    k <= |a| && k < |b| && a[..k] == b[..k] && (k == |a| || a[k] < b[k])
  }

  lemma {:induction false} BeforeExact(a: string, b: string)
    ensures Before(a, b) <==> exists k: nat :: Lower(a, b, k)
  {
    if b == "" {
    } else if a == "" {
      assert Lower(a, b, 0);
    } else {
      BeforeExact(a[1..], b[1..]);
      if a[0] < b[0] {
        assert Lower(a, b, 0);
      }
      if k: nat :| a[0] == b[0] && Lower(a[1..], b[1..], k) {
        assert a[..k + 1] == [a[0]] + a[1..][..k] && b[..k + 1] == [b[0]] + b[1..][..k];
        assert Lower(a, b, k + 1);
      }
      if k: nat :| Lower(a, b, k) && k > 0 {
        assert a[..k][0] == b[..k][0];
        assert a[1..][..k - 1] == a[..k][1..] && b[1..][..k - 1] == b[..k][1..];
        assert Lower(a[1..], b[1..], k - 1);
      }
    }
  }

  lemma {:induction false} BeforeTransitive(a: string, b: string, c: string)
    requires Before(a, b) && Before(b, c)
    ensures Before(a, c)
  {
    if a != "" && a[0] == b[0] && b[0] == c[0] {
      BeforeTransitive(a[1..], b[1..], c[1..]);
    }
  }

  lemma {:induction false} BeforeTotal(a: string, b: string)
    ensures Before(a, b) || a == b || Before(b, a)
    ensures Before(a, b) ==> a != b && !Before(b, a)
  {
    if a != "" && b != "" {
      BeforeTotal(a[1..], b[1..]);
      assert a == [a[0]] + a[1..] && b == [b[0]] + b[1..];
    }
  }

  /** Strictly increasing: what inventory-rows demands of every line against the one before. */
  predicate Increasing(rows: seq<Row>) {
    forall i :: 0 < i < |rows| ==> Before(rows[i - 1].cid, rows[i].cid)
  }

  lemma {:induction false} IncreasingPairs(rows: seq<Row>, i: nat, j: nat)
    requires Increasing(rows) && i < j < |rows|
    ensures Before(rows[i].cid, rows[j].cid)
    decreases j
  {
    if i + 1 < j {
      IncreasingPairs(rows, i, j - 1);
      BeforeTransitive(rows[i].cid, rows[j - 1].cid, rows[j].cid);
    }
  }

  /** The first row comes before every other, so its CID does not occur again. */
  lemma FirstIsLeast(rows: seq<Row>)
    requires Increasing(rows) && rows != []
    ensures Increasing(rows[1..])
    ensures forall i :: 0 < i < |rows| ==> Before(rows[0].cid, rows[i].cid) && rows[i].cid != rows[0].cid
  {
    forall i | 0 < i < |rows|
      ensures Before(rows[0].cid, rows[i].cid) && rows[i].cid != rows[0].cid
    {
      IncreasingPairs(rows, 0, i);
      BeforeTotal(rows[0].cid, rows[i].cid);
    }
  }

  /** No CID occurs twice. */
  predicate Distinct(rows: seq<Row>) {
    forall i, j :: 0 <= i < j < |rows| ==> rows[i].cid != rows[j].cid
  }

  lemma IncreasingIsDistinct(rows: seq<Row>)
    requires Increasing(rows)
    ensures Distinct(rows)
  {
    forall i, j | 0 <= i < j < |rows|
      ensures rows[i].cid != rows[j].cid
    {
      IncreasingPairs(rows, i, j);
      BeforeTotal(rows[i].cid, rows[j].cid);
    }
  }

  function CidsOf(rows: seq<Row>): set<string> {
    set i | 0 <= i < |rows| :: rows[i].cid
  }

  lemma CidsAppend(rows: seq<Row>, row: Row)
    ensures CidsOf(rows + [row]) == CidsOf(rows) + {row.cid}
  {
    var all := rows + [row];
    forall cid | cid in CidsOf(rows) + {row.cid}
      ensures cid in CidsOf(all)
    {
      if cid == row.cid {
        assert all[|rows|].cid == cid;
      } else {
        var i :| 0 <= i < |rows| && rows[i].cid == cid;
        assert all[i].cid == cid;
      }
    }
  }

  /** `big` has every (CID, size) of `small`. */
  predicate Contains(big: seq<Row>, small: seq<Row>) {
    forall row :: row in small ==> row in big
  }
}

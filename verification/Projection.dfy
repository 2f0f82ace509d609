/** The pages projected from the log (build in deploy/project_lake_log.cljk) and the pages the reader serves. */
module Projection {
  import opened Bytes
  import opened Inventory
  import opened Bisect
  import opened Paging

  /** partition-all */
  function PartitionAll(n: nat, rows: seq<Row>): seq<seq<Row>>
    requires n > 0
    decreases |rows|
  {
    if rows == [] then []
    else if |rows| <= n then [rows]
    else [rows[..n]] + PartitionAll(n, rows[n..])
  }

  /** All pages of the epochs, in order. */
  function LogPages(parts: seq<seq<Row>>): seq<seq<Row>> {
    if parts == [] then [] else PartitionAll(PAGE_SIZE, parts[0]) + LogPages(parts[1..])
  }

  function Flatten(pages: seq<seq<Row>>): seq<Row> {
    if pages == [] then [] else pages[0] + Flatten(pages[1..])
  }

  lemma {:induction false} FlattenConcat(a: seq<seq<Row>>, b: seq<seq<Row>>)
    ensures Flatten(a + b) == Flatten(a) + Flatten(b)
    decreases |a|
  {
    if a == [] {
      assert a + b == b;
    } else {
      assert (a + b)[1..] == a[1..] + b;
      FlattenConcat(a[1..], b);
    }
  }

  lemma {:induction false} PartitionFlattens(n: nat, rows: seq<Row>)
    requires n > 0
    ensures Flatten(PartitionAll(n, rows)) == rows
    ensures forall page :: page in PartitionAll(n, rows) ==> 1 <= |page| <= n
    decreases |rows|
  {
    if |rows| > n {
      PartitionFlattens(n, rows[n..]);
      var rest := PartitionAll(n, rows[n..]);
      assert ([rows[..n]] + rest)[1..] == rest;
      assert rows[..n] + rows[n..] == rows;
    } else if rows != [] {
      assert [rows][1..] == [];
      assert rows + [] == rows;
    }
  }

  lemma {:induction false} LogPagesFlatten(parts: seq<seq<Row>>)
    ensures Flatten(LogPages(parts)) == Flatten(parts)
    ensures forall page :: page in LogPages(parts) ==> 1 <= |page| <= PAGE_SIZE
    decreases |parts|
  {
    if parts != [] {
      LogPagesFlatten(parts[1..]);
      PartitionFlattens(PAGE_SIZE, parts[0]);
      FlattenConcat(PartitionAll(PAGE_SIZE, parts[0]), LogPages(parts[1..]));
    }
  }

  // ----- both ways to page agree

  lemma {:induction false} OffsetOfLater(parts: seq<seq<Row>>, i: nat)
    requires i <= |parts| && Offset(parts, i) == Total(parts)
    ensures LogPages(parts[i..]) == []
    decreases |parts| - i
  {
    if i < |parts| {
      OffsetGrows(parts, i + 1, |parts|);
      assert parts[i] == [];
      assert parts[i..][1..] == parts[i + 1..];
      OffsetOfLater(parts, i + 1);
    }
  }

  /** Empty epochs contribute no page. */
  lemma {:induction false} NextPart(parts: seq<seq<Row>>, i: nat) returns (j: nat)
    requires i <= |parts| && Offset(parts, i) < Total(parts)
    ensures i <= j < |parts| && parts[j] != [] && Offset(parts, j) == Offset(parts, i)
    ensures LogPages(parts[i..]) == LogPages(parts[j..])
    decreases |parts| - i
  {
    j := i;
    if parts[i] == [] {
      j := NextPart(parts, i + 1);
      assert parts[i..][1..] == parts[i + 1..];
      assert [] + LogPages(parts[i + 1..]) == LogPages(parts[i + 1..]);
    }
  }

  /** The bisection finds the epoch a row is in, empty epochs or not. */
  lemma LocatedIs(parts: seq<seq<Row>>, i: nat, local: nat)
    requires i < |parts| && local < |parts[i]|
    ensures BisectRight(Starts(parts), Offset(parts, i) + local) - 1 == i
    ensures Offset(parts, i) + local < Total(parts)
  {
    OffsetStep(parts, i);
    var offset := Offset(parts, i) + local;
    var starts := Starts(parts);
    assert starts[i] <= offset;
    assert i + 1 < |parts| ==> offset < starts[i + 1];
  }

  /** A page ends with its epoch at the latest. */
  lemma PageIs(parts: seq<seq<Row>>, i: nat, local: nat)
    requires i < |parts| && local < |parts[i]|
    ensures Offset(parts, i) + local < Total(parts)
    ensures var end := Min(local + PAGE_SIZE, |parts[i]|);
            var next := Offset(parts, i) + end;
            EpochPage(parts, Offset(parts, i) + local)
            == Ok(Page(parts[i][local..end], if next < Total(parts) then Some(next) else None))
  {
    hide Offset;
    LocatedIs(parts, i, local);
  }

  lemma PartitionStep(rows: seq<Row>, local: nat)
    requires local < |rows|
    ensures var end := Min(local + PAGE_SIZE, |rows|);
            PartitionAll(PAGE_SIZE, rows[local..]) == [rows[local..end]] + PartitionAll(PAGE_SIZE, rows[end..])
  {
    var end := Min(local + PAGE_SIZE, |rows|);
    if end < |rows| {
      assert rows[local..][PAGE_SIZE..] == rows[end..];
      assert rows[local..][..PAGE_SIZE] == rows[local..end];
    } else {
      assert rows[end..] == [];
      assert rows[local..] == rows[local..end];
    }
  }

  lemma FollowStep(parts: seq<seq<Row>>, offset: nat)
    requires offset < Total(parts)
    ensures var page := EpochPage(parts, offset).value;
            Follow(parts, offset) == [page.blocks] + if page.cursor.None? then [] else Follow(parts, page.cursor.value)
  {
  }

  lemma {:induction false} FollowFrom(parts: seq<seq<Row>>, i: nat, local: nat)
    requires i < |parts| && local < |parts[i]|
    ensures Offset(parts, i) + local < Total(parts)
    ensures Follow(parts, Offset(parts, i) + local) ==
            PartitionAll(PAGE_SIZE, parts[i][local..]) + LogPages(parts[i + 1..])
    decreases Total(parts) - Offset(parts, i) - local
  {
    hide LogPages, Offset, Starts, EpochPage, PartitionAll, Follow, Total;
    PageIs(parts, i, local);
    OffsetStep(parts, i);
    var offset := Offset(parts, i) + local;
    FollowStep(parts, offset);
    PartitionStep(parts[i], local);
    var end := Min(local + PAGE_SIZE, |parts[i]|);
    var page, tail := parts[i][local..end], LogPages(parts[i + 1..]);
    if end < |parts[i]| {
      FollowFrom(parts, i, end);
      assert [page] + (PartitionAll(PAGE_SIZE, parts[i][end..]) + tail) == ([page] + PartitionAll(PAGE_SIZE, parts[i][end..])) + tail;
    } else {
      PartitionNone(parts[i]);
      if Offset(parts, i) + end < Total(parts) {
        var j := NextPart(parts, i + 1);
        FollowFrom(parts, j, 0);
        LogPagesStep(parts, j);
      } else {
        OffsetOfLater(parts, i + 1);
      }
    }
  }

  lemma PartitionNone(rows: seq<Row>)
    ensures PartitionAll(PAGE_SIZE, rows[|rows|..]) == []
  {
  }

  lemma OffsetStep(parts: seq<seq<Row>>, i: nat)
    requires i < |parts|
    ensures Offset(parts, i + 1) == Offset(parts, i) + |parts[i]| <= Total(parts)
  {
    OffsetGrows(parts, i + 1, |parts|);
  }

  lemma LogPagesStep(parts: seq<seq<Row>>, j: nat)
    requires j < |parts|
    ensures parts[j][0..] == parts[j]
    ensures LogPages(parts[j..]) == PartitionAll(PAGE_SIZE, parts[j]) + LogPages(parts[j + 1..])
  {
    assert parts[j..][1..] == parts[j + 1..];
  }

  /**
   Following the cursor from 0 is refused exactly when the lake has no row; otherwise it gives the very
   pages the projection writes: 1 to 200 rows each, together every row of every epoch once and in order.
   */
  lemma FollowIsProjection(parts: seq<seq<Row>>)
    ensures EpochPage(parts, 0).Err? <==> Flatten(parts) == []
    ensures Total(parts) > 0 ==>
            && Follow(parts, 0) == LogPages(parts)
            && Flatten(Follow(parts, 0)) == Flatten(parts)
            && forall page :: page in Follow(parts, 0) ==> 1 <= |page| <= PAGE_SIZE
  {
    hide LogPages, Follow, Flatten, EpochRowsAt;
    assert parts[0..] == parts;
    FlattenSize(parts, 0);
    if Total(parts) > 0 {
      var j := NextPart(parts, 0);
      FollowFrom(parts, j, 0);
      LogPagesStep(parts, j);
      LogPagesFlatten(parts);
    }
  }

  lemma {:induction false} FlattenSize(parts: seq<seq<Row>>, i: nat)
    requires i <= |parts|
    ensures |Flatten(parts[i..])| == Total(parts) - Offset(parts, i)
    decreases |parts| - i
  {
    if i < |parts| {
      assert parts[i..][1..] == parts[i + 1..];
      FlattenSize(parts, i + 1);
    }
  }

  // ----- build

  /** One --epoch argument with the file it names. */
  datatype EpochSpec = EpochSpec(epoch: int, inventory: string, sha256: string, digestMatches: bool, rows: nat, file: seq<Row>)

  /** One epoch in the head; its pages are under lake-log/pages/<sha256>/. */
  datatype Listed = Listed(epoch: int, inventory: string, sha256: string, rows: nat, pageRows: nat)

  /** An object to write: page `n` of the inventory with that digest, or the head. */
  datatype Object = PageObject(sha256: string, n: nat, rows: seq<Row>) | HeadObject(head: int, count: nat, epochs: seq<Listed>)

  datatype BuildError = DigestDiffers(epoch: int) | CountDiffers(epoch: int) | NotInOrder | HeadDiffers

  datatype Built = Built(objects: seq<Object>, listed: seq<Listed>, total: nat)

  function Numbered(sha256: string, pages: seq<seq<Row>>): seq<Object> {
    seq(|pages|, n requires 0 <= n < |pages| => PageObject(sha256, n, pages[n]))
  }

  function AddEpochs(epochs: seq<EpochSpec>): Result<Built, BuildError> {
    if epochs == [] then Ok(Built([], [], 0))
    else
      var acc :- AddEpochs(epochs[..|epochs| - 1]);
      var e := epochs[|epochs| - 1];
      if !e.digestMatches then Err(DigestDiffers(e.epoch))
      else if |e.file| != e.rows then Err(CountDiffers(e.epoch))
      else Ok(Built(acc.objects + Numbered(e.sha256, PartitionAll(PAGE_SIZE, e.file)),
                    acc.listed + [Listed(e.epoch, e.inventory, e.sha256, e.rows, PAGE_SIZE)],
                    acc.total + e.rows))
  }

  function Build(epochs: seq<EpochSpec>, head: int): Result<seq<Object>, BuildError> {
    var built :- AddEpochs(epochs);
    if exists i :: 0 <= i < |built.listed| && built.listed[i].epoch != i then Err(NotInOrder)
    else if head != |built.listed| - 1 then Err(HeadDiffers)
    else Ok(built.objects + [HeadObject(head, built.total, built.listed)])
  }

  function Files(epochs: seq<EpochSpec>): (r: seq<seq<Row>>)
    ensures |r| == |epochs|
  {
    seq(|epochs|, i requires 0 <= i < |epochs| => epochs[i].file)
  }

  /** The rows of the page objects, in order. */
  function PageRows(objects: seq<Object>): seq<seq<Row>> {
    if objects == [] then []
    else
      var n := |objects| - 1;
      PageRows(objects[..n]) + if objects[n].PageObject? then [objects[n].rows] else []
  }

  lemma {:induction false} PageRowsConcat(a: seq<Object>, b: seq<Object>)
    ensures PageRows(a + b) == PageRows(a) + PageRows(b)
    decreases |b|
  {
    if b == [] {
      assert a + b == a;
    } else {
      var n := |b| - 1;
      assert (a + b)[..|a| + n] == a + b[..n];
      PageRowsConcat(a, b[..n]);
    }
  }

  lemma {:induction false} PageRowsNumbered(sha256: string, pages: seq<seq<Row>>)
    ensures PageRows(Numbered(sha256, pages)) == pages
    decreases |pages|
  {
    if pages != [] {
      var n := |pages| - 1;
      assert Numbered(sha256, pages)[..n] == Numbered(sha256, pages[..n]);
      PageRowsNumbered(sha256, pages[..n]);
      assert pages == pages[..n] + [pages[n]];
    }
  }

  lemma {:induction false} LogPagesAppend(parts: seq<seq<Row>>, part: seq<Row>)
    ensures LogPages(parts + [part]) == LogPages(parts) + PartitionAll(PAGE_SIZE, part)
    decreases |parts|
  {
    if parts == [] {
      assert [part][1..] == [];
      assert (parts + [part])[0] == part && (parts + [part])[1..] == [];
    } else {
      assert (parts + [part])[1..] == parts[1..] + [part];
      LogPagesAppend(parts[1..], part);
    }
  }

  predicate Consistent(e: EpochSpec) {
    e.digestMatches && |e.file| == e.rows
  }

  lemma {:induction false} AddEpochsExact(epochs: seq<EpochSpec>)
    ensures AddEpochs(epochs).Ok? <==> forall i :: 0 <= i < |epochs| ==> Consistent(epochs[i])
    ensures AddEpochs(epochs).Ok? ==>
            var built := AddEpochs(epochs).value;
            && PageRows(built.objects) == LogPages(Files(epochs)) && built.total == Total(Files(epochs))
            && (forall o :: o in built.objects ==> o.PageObject?)
            && |built.listed| == |epochs| && forall i :: 0 <= i < |epochs| ==> built.listed[i].epoch == epochs[i].epoch
    decreases |epochs|
  {
    hide LogPages, PartitionAll, Total, Files, Numbered, PageRows, Consistent;
    if epochs == [] {
      NoPages();
    } else {
      var n := |epochs| - 1;
      AddEpochsExact(epochs[..n]);
      assert epochs == epochs[..n] + [epochs[n]];
      ConsistentIs(epochs[n]);
      if AddEpochs(epochs).Ok? {
        var acc := AddEpochs(epochs[..n]).value;
        PagesAppend(epochs[..n], epochs[n], acc.objects);
      }
    }
  }

  lemma ConsistentIs(e: EpochSpec)
    ensures Consistent(e) <==> e.digestMatches && |e.file| == e.rows
  {
  }

  lemma PagesAppend(epochs: seq<EpochSpec>, e: EpochSpec, objects: seq<Object>)
    requires PageRows(objects) == LogPages(Files(epochs))
    ensures var added := Numbered(e.sha256, PartitionAll(PAGE_SIZE, e.file));
            && PageRows(objects + added) == LogPages(Files(epochs + [e]))
            && forall o :: o in added ==> o.PageObject?
    ensures Total(Files(epochs + [e])) == Total(Files(epochs)) + |e.file|
  {
    hide LogPages, PartitionAll, PageRows;
    var parts, added := Files(epochs), Numbered(e.sha256, PartitionAll(PAGE_SIZE, e.file));
    assert Files(epochs + [e]) == parts + [e.file];
    PageRowsConcat(objects, added);
    PageRowsNumbered(e.sha256, PartitionAll(PAGE_SIZE, e.file));
    LogPagesAppend(parts, e.file);
    OffsetAppend(parts, e.file, |parts|);
    OffsetStep(parts + [e.file], |parts|);
  }

  lemma NoPages()
    ensures LogPages(Files([])) == [] && Total(Files([])) == 0 && PageRows([]) == []
  {
  }

  lemma {:induction false} OffsetAppend(parts: seq<seq<Row>>, part: seq<Row>, i: nat)
    requires i <= |parts|
    ensures Offset(parts + [part], i) == Offset(parts, i)
  {
    if i > 0 {
      OffsetAppend(parts, part, i - 1);
    }
  }

  /**
   The projection is accepted exactly for the epochs 0, 1, … of a log with that head, each file as its
   manifest says; it then writes the very pages the reader serves for these epochs, and the head last.
   */
  lemma BuildExact(epochs: seq<EpochSpec>, head: int)
    ensures Build(epochs, head).Ok? <==>
            && head == |epochs| - 1
            && forall i :: 0 <= i < |epochs| ==> Consistent(epochs[i]) && epochs[i].epoch == i
    ensures Build(epochs, head).Ok? ==>
            var objects, parts := Build(epochs, head).value, Files(epochs);
            && objects != [] && objects[|objects| - 1].HeadObject?
            && objects[|objects| - 1].count == Total(parts)
            && (forall i :: 0 <= i < |objects| - 1 ==> objects[i].PageObject?)
            && PageRows(objects) == (if Total(parts) == 0 then [] else Follow(parts, 0))
            && Flatten(PageRows(objects)) == Flatten(parts)
  {
    hide LogPages, Follow, Flatten, Total, Consistent, Files, PageRows, AddEpochs;
    AddEpochsExact(epochs);
    var parts := Files(epochs);
    FollowIsProjection(parts);
    LogPagesFlatten(parts);
    if Total(parts) == 0 {
      NoRows(parts);
    }
    if Build(epochs, head).Ok? {
      var built := AddEpochs(epochs).value;
      HeadHasNoPage(built.objects, HeadObject(head, built.total, built.listed));
    }
  }

  lemma HeadHasNoPage(objects: seq<Object>, head: Object)
    requires head.HeadObject?
    ensures PageRows(objects + [head]) == PageRows(objects)
  {
    assert (objects + [head])[..|objects|] == objects;
  }

  lemma NoRows(parts: seq<seq<Row>>)
    requires Total(parts) == 0
    ensures LogPages(parts) == []
  {
    assert parts[0..] == parts;
    OffsetOfLater(parts, 0);
  }

  // ----- reading the written objects

  type Key = (string, nat)

  /** What is under each page key after the objects are written, in order. */
  function Stored(objects: seq<Object>): map<Key, seq<Row>> {
    if objects == [] then map[]
    else
      var before, o := Stored(objects[..|objects| - 1]), objects[|objects| - 1];
      if o.PageObject? then before[(o.sha256, o.n) := o.rows] else before
  }

  lemma {:induction false} StoredIs(objects: seq<Object>, key: Key)
    ensures key in Stored(objects) ==> PageObject(key.0, key.1, Stored(objects)[key]) in objects
    ensures forall rows :: PageObject(key.0, key.1, rows) in objects ==> key in Stored(objects)
    decreases |objects|
  {
    if objects != [] {
      var n := |objects| - 1;
      StoredIs(objects[..n], key);
      assert objects == objects[..n] + [objects[n]];
    }
  }

  /** Page `n` of a file holds its rows 200 n to 200 n + 199. */
  function Slice(rows: seq<Row>, n: nat): seq<Row>
    requires 200 * n < |rows|
  {
    rows[200 * n..Min(200 * n + 200, |rows|)]
  }

  lemma SliceOfTail(rows: seq<Row>, a: nat, b: nat)
    requires a <= b && PAGE_SIZE + b <= |rows|
    ensures rows[PAGE_SIZE..][a..b] == rows[PAGE_SIZE + a..PAGE_SIZE + b]
  {
  }

  lemma {:induction false} PartitionAt(rows: seq<Row>, n: nat)
    ensures var pages := PartitionAll(PAGE_SIZE, rows);
            (n < |pages| <==> 200 * n < |rows|) && (n < |pages| ==> pages[n] == Slice(rows, n))
    decreases |rows|
  {
    if |rows| > PAGE_SIZE && n > 0 {
      var rest := rows[PAGE_SIZE..];
      PartitionAt(rest, n - 1);
      if 200 * n < |rows| {
        SliceOfTail(rows, 200 * n - 200, Min(200 * n, |rows| - 200));
      }
    }
  }

  lemma NumberedAt(e: EpochSpec, o: Object)
    ensures o in Numbered(e.sha256, PartitionAll(PAGE_SIZE, e.file)) <==>
            o.PageObject? && o.sha256 == e.sha256 && 200 * o.n < |e.file| && o.rows == Slice(e.file, o.n)
  {
    var pages := PartitionAll(PAGE_SIZE, e.file);
    var objects := Numbered(e.sha256, pages);
    if o.PageObject? {
      PartitionAt(e.file, o.n);
      if 200 * o.n < |e.file| {
        assert objects[o.n] == PageObject(e.sha256, o.n, pages[o.n]);
      }
    }
    if o in objects {
      var n :| 0 <= n < |objects| && objects[n] == o;
      PartitionAt(e.file, n);
    }
  }

  /** The page objects and the listed epochs, by epoch. */
  lemma {:induction false} AddedIs(epochs: seq<EpochSpec>, o: Object)
    requires AddEpochs(epochs).Ok?
    ensures var built := AddEpochs(epochs).value;
            && (o in built.objects <==>
                exists i :: 0 <= i < |epochs| && o in Numbered(epochs[i].sha256, PartitionAll(PAGE_SIZE, epochs[i].file)))
            && |built.listed| == |epochs|
            && forall i :: 0 <= i < |epochs| ==>
                 built.listed[i] == Listed(epochs[i].epoch, epochs[i].inventory, epochs[i].sha256, |epochs[i].file|, 200)
    decreases |epochs|
  {
    hide PartitionAll, Numbered;
    if epochs != [] {
      var n := |epochs| - 1;
      AddedIs(epochs[..n], o);
      var added := Numbered(epochs[n].sha256, PartitionAll(PAGE_SIZE, epochs[n].file));
      var built, before := AddEpochs(epochs).value, AddEpochs(epochs[..n]).value;
      assert built.objects == before.objects + added;
      if o in before.objects {
        var i :| 0 <= i < n && o in Numbered(epochs[..n][i].sha256, PartitionAll(PAGE_SIZE, epochs[..n][i].file));
        assert epochs[..n][i] == epochs[i];
      }
      if exists i :: 0 <= i < |epochs| && o in Numbered(epochs[i].sha256, PartitionAll(PAGE_SIZE, epochs[i].file)) {
        var i :| 0 <= i < |epochs| && o in Numbered(epochs[i].sha256, PartitionAll(PAGE_SIZE, epochs[i].file));
        assert i < n ==> epochs[..n][i] == epochs[i];
      }
    }
  }

  /** Two given files with one digest are the same file. */
  ghost predicate DigestsBind(epochs: seq<EpochSpec>) {
    forall i, j :: 0 <= i < |epochs| && 0 <= j < |epochs| && epochs[i].sha256 == epochs[j].sha256 ==> epochs[i].file == epochs[j].file
  }

  /** The listed epoch `i` and its page `n`. */
  ghost predicate HasPage(epochs: seq<EpochSpec>, i: int, key: Key) {
    0 <= i < |epochs| && epochs[i].sha256 == key.0 && 200 * key.1 < |epochs[i].file|
  }

  /**
   The head lists every epoch with its inventory, digest and row count, 200 rows a page. Under the digest of
   an epoch, row `k` of its file is row k % 200 of page k / 200, and nothing else is under any page key.
   */
  lemma ProjectedRows(epochs: seq<EpochSpec>, head: int)
    requires Build(epochs, head).Ok? && DigestsBind(epochs)
    ensures var objects := Build(epochs, head).value;
            var stored := Stored(objects);
            && objects[|objects| - 1].HeadObject? && objects[|objects| - 1].head == head
            && var listed := objects[|objects| - 1].epochs;
               && |listed| == |epochs|
               && (forall i :: 0 <= i < |epochs| ==>
                     listed[i] == Listed(i, epochs[i].inventory, epochs[i].sha256, |epochs[i].file|, 200))
               && (forall key :: key in stored <==> exists i :: HasPage(epochs, i, key))
               && forall i, k :: 0 <= i < |epochs| && 0 <= k < |epochs[i].file| ==>
                                   && (epochs[i].sha256, k / 200) in stored
                                   && k % 200 < |stored[(epochs[i].sha256, k / 200)]|
                                   && stored[(epochs[i].sha256, k / 200)][k % 200] == epochs[i].file[k]
  {
    hide AddEpochs, Stored, HasPage, DigestsBind, PartitionAll, Numbered;
    var objects := Build(epochs, head).value;
    AddedIs(epochs, objects[|objects| - 1]);
    forall key
      ensures key in Stored(objects) <==> exists i :: HasPage(epochs, i, key)
    {
      KeyIsPage(epochs, head, key);
    }
    forall i, k | 0 <= i < |epochs| && 0 <= k < |epochs[i].file|
      ensures var stored := Stored(objects);
              && (epochs[i].sha256, k / 200) in stored
              && k % 200 < |stored[(epochs[i].sha256, k / 200)]|
              && stored[(epochs[i].sha256, k / 200)][k % 200] == epochs[i].file[k]
    {
      RowIsThere(epochs, head, i, k);
    }
  }

  lemma KeyIsPage(epochs: seq<EpochSpec>, head: int, key: Key)
    requires Build(epochs, head).Ok? && DigestsBind(epochs)
    ensures var stored := Stored(Build(epochs, head).value);
            && (key in stored <==> exists i :: HasPage(epochs, i, key))
            && forall i :: HasPage(epochs, i, key) ==> key in stored && stored[key] == Slice(epochs[i].file, key.1)
  {
    hide AddEpochs, Stored, PartitionAll, Numbered;
    var objects := Build(epochs, head).value;
    StoredIs(objects, key);
    forall i | HasPage(epochs, i, key)
      ensures key in Stored(objects)
    {
      var o := PageObject(key.0, key.1, Slice(epochs[i].file, key.1));
      NumberedAt(epochs[i], o);
      AddedIs(epochs, o);
    }
    if key in Stored(objects) {
      var o := PageObject(key.0, key.1, Stored(objects)[key]);
      AddedIs(epochs, o);
      var j :| 0 <= j < |epochs| && o in Numbered(epochs[j].sha256, PartitionAll(PAGE_SIZE, epochs[j].file));
      NumberedAt(epochs[j], o);
      assert HasPage(epochs, j, key);
      assert forall i :: HasPage(epochs, i, key) ==> epochs[i].file == epochs[j].file;
    }
  }

  lemma RowIsThere(epochs: seq<EpochSpec>, head: int, i: nat, k: nat)
    requires Build(epochs, head).Ok? && DigestsBind(epochs) && i < |epochs| && k < |epochs[i].file|
    ensures var stored, key := Stored(Build(epochs, head).value), (epochs[i].sha256, k / 200);
            key in stored && k % 200 < |stored[key]| && stored[key][k % 200] == epochs[i].file[k]
  {
    hide Build, Stored, DigestsBind;
    var key := (epochs[i].sha256, k / 200);
    assert 200 * (k / 200) <= k < 200 * (k / 200) + 200;
    assert HasPage(epochs, i, key);
    KeyIsPage(epochs, head, key);
  }
}

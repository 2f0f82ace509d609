/** The resumable CAR shipment (ship_once of deploy/ship_lake_car.py). */
module Ship {
  import opened Bytes
  import opened Inventory
  import opened Selection

  /** The fixed arguments of a shipment: rows `startRow` to `stop` of the inventory `lines`. */
  datatype Config = Config(
    lines: seq<Line>, startRow: nat, stop: nat, maxBlocks: nat, maxBytes: int, raw: set<string>)

  ghost predicate WellFormed(c: Config) {
    c.startRow < c.stop <= |c.lines| && 1 <= c.maxBlocks <= 1000 && 1 <= c.maxBytes <= 536_870_912
  }

  /** An accepted import of the rows up to `end`, or one skipped row. */
  datatype Tile = Import(start: nat, end: nat) | Skipped(choice: Choice)

  function Start(t: Tile): nat {
    match t
    case Import(start, _) => start
    case Skipped(choice) => if choice.Skip? then choice.row else 0
  }

  function End(t: Tile): nat {
    match t
    case Import(_, end) => end
    case Skipped(choice) => if choice.Skip? then choice.row + 1 else 0
  }

  /** How far one call may look. */
  function Limit(c: Config, at: nat): nat
    requires at <= c.stop
  {
    Min(c.maxBlocks, c.stop - at)
  }

  /** The rows a call at `at` selects. */
  ghost predicate Selects(c: Config, at: nat, rows: seq<Row>) {
    && at < c.stop && rows != []
    && Selected(c.lines, at, WindowEnd(|c.lines|, at, Limit(c, at)), rows, c.maxBytes, c.raw)
    && Shippable(c.lines, at, WindowEnd(|c.lines|, at, Limit(c, at)))
  }

  /** What a successful call at `at` does is fixed by the arguments. */
  ghost predicate NextTile(c: Config, at: nat, t: Tile) {
    && at < c.stop
    && match t
       case Import(start, end) => start == at && exists rows :: Selects(c, at, rows) && end == at + |rows|
       case Skipped(choice) => choice.Skip? && choice.row == at && FirstChoice(c.lines, at, c.maxBytes, c.raw) == Ok(Some(choice))
  }

  /** `tiles` lead from `startRow` to `to`, each one what a call at its start does. */
  ghost predicate Tiled(c: Config, to: nat, tiles: seq<Tile>)
    decreases |tiles|
  {
    if tiles == [] then to == c.startRow
    else
      var last := tiles[|tiles| - 1];
      Tiled(c, Start(last), tiles[..|tiles| - 1]) && NextTile(c, Start(last), last) && End(last) == to
  }

  // ----- one tile

  lemma NextTileMoves(c: Config, at: nat, t: Tile)
    requires NextTile(c, at, t) && c.stop <= |c.lines|
    ensures Start(t) == at < End(t) <= c.stop
  {
    hide Shippable, FirstChoice;
    if t.Import? {
      var rows :| Selects(c, at, rows) && t.end == at + |rows|;
      SelectedWithin(c.lines, at, WindowEnd(|c.lines|, at, Limit(c, at)), rows, c.maxBytes, c.raw);
    }
  }

  lemma SelectsUnique(c: Config, at: nat, a: seq<Row>, b: seq<Row>)
    requires Selects(c, at, a) && Selects(c, at, b)
    ensures a == b
  {
    hide Selected, Shippable;
    var end := WindowEnd(|c.lines|, at, Limit(c, at));
    if |a| <= |b| {
      SelectedUnique(c.lines, at, end, a, b, c.maxBytes, c.raw);
    } else {
      SelectedUnique(c.lines, at, end, b, a, c.maxBytes, c.raw);
    }
  }

  /** Rows are selected only where the first row is not skipped. */
  lemma SelectsOrSkips(c: Config, at: nat, rows: seq<Row>)
    requires Selects(c, at, rows) && c.stop <= |c.lines|
    ensures FirstChoice(c.lines, at, c.maxBytes, c.raw) == Ok(None)
  {
    hide Fits;
    SelectedWithin(c.lines, at, WindowEnd(|c.lines|, at, Limit(c, at)), rows, c.maxBytes, c.raw);
  }

  lemma NextTileUnique(c: Config, at: nat, a: Tile, b: Tile)
    requires NextTile(c, at, a) && NextTile(c, at, b) && c.stop <= |c.lines|
    ensures a == b
  {
    hide Selects, FirstChoice;
    if a.Import? {
      var rows :| Selects(c, at, rows) && a.end == at + |rows|;
      SelectsOrSkips(c, at, rows);
      if b.Import? {
        var others :| Selects(c, at, others) && b.end == at + |others|;
        SelectsUnique(c, at, rows, others);
      }
    } else if b.Import? {
      var rows :| Selects(c, at, rows) && b.end == at + |rows|;
      SelectsOrSkips(c, at, rows);
    }
  }

  // ----- tilings

  lemma {:induction false} TiledBounds(c: Config, to: nat, tiles: seq<Tile>)
    requires Tiled(c, to, tiles) && WellFormed(c)
    ensures c.startRow <= to <= c.stop && c.startRow + |tiles| <= to
    decreases |tiles|
  {
    if tiles != [] {
      var n := |tiles| - 1;
      TiledBounds(c, Start(tiles[n]), tiles[..n]);
      NextTileMoves(c, Start(tiles[n]), tiles[n]);
    }
  }

  /** Every row before `to` is in exactly one tile. */
  lemma {:induction false} TilesCover(c: Config, to: nat, tiles: seq<Tile>, row: nat) returns (i: nat)
    requires Tiled(c, to, tiles) && WellFormed(c) && c.startRow <= row < to
    ensures i < |tiles| && Start(tiles[i]) <= row < End(tiles[i])
    ensures forall j :: 0 <= j < |tiles| && Start(tiles[j]) <= row < End(tiles[j]) ==> j == i
    decreases |tiles|
  {
    hide NextTile, WellFormed;
    var n := |tiles| - 1;
    var last := tiles[n];
    NextTileMoves(c, Start(last), last) by { Bounds(c); }
    if row < Start(last) {
      i := TilesCover(c, Start(last), tiles[..n], row);
      forall j | 0 <= j < |tiles| && Start(tiles[j]) <= row < End(tiles[j])
        ensures j == i
      {
        assert j < n ==> tiles[..n][j] == tiles[j];
      }
    } else {
      i := n;
      forall j | 0 <= j < n
        ensures End(tiles[j]) <= row
      {
        TileBefore(c, Start(last), tiles[..n], j);
        assert tiles[..n][j] == tiles[j];
      }
    }
  }

  lemma Bounds(c: Config)
    requires WellFormed(c)
    ensures c.stop <= |c.lines|
  {
  }

  lemma {:induction false} TileBefore(c: Config, to: nat, tiles: seq<Tile>, j: nat)
    requires Tiled(c, to, tiles) && WellFormed(c) && j < |tiles|
    ensures End(tiles[j]) <= to
    decreases |tiles|
  {
    hide NextTile;
    var n := |tiles| - 1;
    NextTileMoves(c, Start(tiles[n]), tiles[n]);
    if j < n {
      TileBefore(c, Start(tiles[n]), tiles[..n], j);
      assert tiles[..n][j] == tiles[j];
    }
  }

  lemma {:induction false} TiledPrefix(c: Config, to: nat, tiles: seq<Tile>, k: nat)
    requires Tiled(c, to, tiles) && k <= |tiles|
    ensures Tiled(c, if k == |tiles| then to else Start(tiles[k]), tiles[..k])
    decreases |tiles|
  {
    if k == |tiles| {
      assert tiles[..k] == tiles;
    } else {
      var n := |tiles| - 1;
      assert tiles[..n][..k] == tiles[..k];
      TiledPrefix(c, Start(tiles[n]), tiles[..n], k);
    }
  }

  lemma TiledEnd(c: Config, to: nat, further: nat, tiles: seq<Tile>)
    requires Tiled(c, to, tiles) && Tiled(c, further, tiles)
    ensures to == further
  {
  }

  /** The first tiles of any two tilings agree: how far a shipment got is all there is to know. */
  lemma {:induction false} TilesAgree(c: Config, to: nat, a: seq<Tile>, further: nat, b: seq<Tile>)
    requires Tiled(c, to, a) && Tiled(c, further, b) && WellFormed(c) && |a| <= |b|
    ensures a == b[..|a|]
    decreases |a|
  {
    hide NextTile, WellFormed;
    if a != [] {
      var n := |a| - 1;
      TiledPrefix(c, further, b, n);
      TiledPrefix(c, further, b, n + 1);
      assert b[..n + 1][..n] == b[..n];
      TilesAgree(c, Start(a[n]), a[..n], Start(b[n]), b[..n]);
      assert b[..n][..n] == b[..n];
      TiledEnd(c, Start(a[n]), Start(b[n]), a[..n]);
      Bounds(c);
      NextTileUnique(c, Start(a[n]), a[n], b[n]);
      assert a == a[..n] + [a[n]] && b[..n + 1] == b[..n] + [b[n]];
    }
  }

  /** The tiling up to a row is a function of the arguments. */
  lemma TilingUnique(c: Config, to: nat, a: seq<Tile>, b: seq<Tile>)
    requires Tiled(c, to, a) && Tiled(c, to, b) && WellFormed(c)
    ensures a == b
  {
    if |a| <= |b| {
      TilesAgree(c, to, a, to, b);
      NoLonger(c, to, a, b);
    } else {
      TilesAgree(c, to, b, to, a);
      NoLonger(c, to, b, a);
    }
  }

  lemma NoLonger(c: Config, to: nat, a: seq<Tile>, b: seq<Tile>)
    requires Tiled(c, to, a) && Tiled(c, to, b) && WellFormed(c) && |a| <= |b| && a == b[..|a|]
    ensures a == b
  {
    hide NextTile, WellFormed;
    var n := |a|;
    if n < |b| {
      TiledPrefix(c, to, b, n);
      TiledEnd(c, to, Start(b[n]), a);
      TiledPrefix(c, to, b, n + 1);
      TileBefore(c, to, b, n);
      LastTile(c, if n + 1 == |b| then to else Start(b[n + 1]), b[..n + 1]);
    } else {
      assert b[..n] == b;
    }
  }

  lemma LastTile(c: Config, to: nat, tiles: seq<Tile>)
    requires Tiled(c, to, tiles) && tiles != [] && WellFormed(c)
    ensures var last := tiles[|tiles| - 1]; Start(last) < End(last)
  {
    NextTileMoves(c, Start(tiles[|tiles| - 1]), tiles[|tiles| - 1]);
  }

  // ----- which rows can be shipped

  predicate Names(identity: Identity, lines: seq<Line>) {
    identity.digestMatches && identity.count == |lines|
  }

  /** The row is skipped, or fits alone into a CAR of the byte budget that the source can export. */
  predicate Acceptable(c: Config, source: Identity, row: nat) {
    && row < |c.lines| && c.lines[row].Some?
    && var line := c.lines[row].value;
       && ValidCid(line.cid) && line.size >= 1
       && (line.cid in c.raw || line.size > 8_000_000 || (line.size + 1024 <= c.maxBytes && Names(source, c.lines)))
  }

  ghost predicate AllAcceptable(c: Config, source: Identity, from: nat, to: nat) {
    forall row: nat | from <= row < to :: Acceptable(c, source, row)
  }

  /** Both selections, at the shipper and at the source, accept the window at `at`. */
  ghost predicate Accepts(c: Config, identity: Identity, source: Identity, at: nat)
    requires at <= c.stop
  {
    && Names(identity, c.lines)
    && Shippable(c.lines, at, WindowEnd(|c.lines|, at, Limit(c, at)))
    && var first := FirstChoice(c.lines, at, c.maxBytes, c.raw);
       first.Ok? && (first.value.None? ==> Names(source, c.lines))
  }

  lemma AcceptableAhead(c: Config, identity: Identity, source: Identity, at: nat)
    requires WellFormed(c) && at < c.stop && Names(identity, c.lines) && AllAcceptable(c, source, at, c.stop)
    ensures Accepts(c, identity, source, at)
  {
    hide ValidCid, Sum;
    var end := WindowEnd(|c.lines|, at, Limit(c, at));
    forall row: nat | at <= row < end
      ensures c.lines[row].Some? && ValidCid(c.lines[row].value.cid) && c.lines[row].value.size >= 1
    {
      assert Acceptable(c, source, row);
    }
    assert Acceptable(c, source, at);
    FitsSize([], c.lines[at].value.size, c.maxBytes);
    NoSum();
  }

  lemma NoSum()
    ensures Sum([]) == 0
  {
  }

  lemma FitsAlone(rows: seq<Row>, size: int, maxBytes: int)
    requires Fits(rows, size, maxBytes) && forall row :: row in rows ==> row.size >= 1
    ensures 1 <= size && size + 1024 <= maxBytes
  {
    SumNatural(rows);
  }

  lemma {:induction false} SumNatural(rows: seq<Row>)
    requires forall row :: row in rows ==> row.size >= 1
    ensures Sum(rows) >= 0
    decreases |rows|
  {
    if rows != [] {
      var n := |rows| - 1;
      assert forall row :: row in rows[..n] ==> row in rows;
      SumNatural(rows[..n]);
      assert rows[..n] + [rows[n]] == rows;
      SumAppend(rows[..n], rows[n]);
    }
  }

  lemma ChosenFit(c: Config, source: Identity, at: nat, rows: seq<Row>, i: nat)
    requires WellFormed(c) && Selects(c, at, rows) && Names(source, c.lines) && i < |rows|
    ensures Acceptable(c, source, at + i)
  {
    hide ValidCid, Sum, Fits;
    var end := WindowEnd(|c.lines|, at, Limit(c, at));
    assert Chosen(c.lines, at, rows, c.maxBytes, c.raw);
    assert at + |rows| <= end;
    assert c.lines[at + i] == Some(rows[i]) && Fits(rows[..i], rows[i].size, c.maxBytes);
    forall row | row in rows[..i]
      ensures row.size >= 1
    {
      var k :| 0 <= k < i && rows[k] == row;
      assert c.lines[at + k] == Some(rows[k]);
      assert c.lines[at + k].value.size >= 1;
    }
    FitsAlone(rows[..i], rows[i].size, c.maxBytes);
  }

  /** The rows of the tile at an accepted place are acceptable. */
  lemma TileAcceptable(c: Config, identity: Identity, source: Identity, at: nat, t: Tile)
    requires WellFormed(c) && at < c.stop && Accepts(c, identity, source, at) && NextTile(c, at, t)
    ensures AllAcceptable(c, source, at, End(t))
  {
    hide Selects, Blocks, ValidCid;
    if t.Import? {
      var rows :| Selects(c, at, rows) && t.end == at + |rows|;
      SelectsOrSkips(c, at, rows);
      forall row: nat | at <= row < t.end
        ensures Acceptable(c, source, row)
      {
        ChosenFit(c, source, at, rows, row - at);
      }
    } else {
      assert at < WindowEnd(|c.lines|, at, Limit(c, at));
      assert c.lines[at].Some? && ValidCid(c.lines[at].value.cid) && c.lines[at].value.size >= 1;
    }
  }

  lemma PassMore(c: Config, identity: Identity, source: Identity, from: nat, at: nat, t: Tile)
    requires WellFormed(c) && from <= at < c.stop && AllAcceptable(c, source, from, at)
    requires Accepts(c, identity, source, at) && NextTile(c, at, t)
    ensures Names(identity, c.lines) && AllAcceptable(c, source, from, End(t))
  {
    hide NextTile, Acceptable;
    TileAcceptable(c, identity, source, at, t);
  }

  lemma PassNone(c: Config, identity: Identity, source: Identity, from: nat, at: nat)
    requires WellFormed(c) && from <= at < c.stop && !Accepts(c, identity, source, at)
    ensures !(Names(identity, c.lines) && AllAcceptable(c, source, from, c.stop))
  {
    hide Acceptable, Accepts;
    if Names(identity, c.lines) && AllAcceptable(c, source, from, c.stop) {
      AcceptableAhead(c, identity, source, at);
    }
  }

  /** Rows are shipped only where the first row allows them. */
  lemma NoneIsRows(c: Config, at: nat)
    ensures var first := FirstChoice(c.lines, at, c.maxBytes, c.raw);
            first.Ok? && first.value.Some? ==> !first.value.value.Rows?
  {
    hide Blocks;
  }

  /** The source refuses the rows the shipper chose only for its own inventory. */
  lemma SourceAccepts(c: Config, at: nat, rows: seq<Row>)
    requires WellFormed(c) && Selects(c, at, rows)
    ensures var end := WindowEnd(|c.lines|, at, |rows|);
            at < end && Readable(c.lines, at, end) && !Blocks(c.lines[at], [], c.maxBytes, {})
  {
    hide Selected, Shippable, Readable, Blocks;
    ExporterSelectsSame(c.lines, at, Limit(c, at), rows, rows, c.maxBytes, c.raw);
  }

  // ----- one call

  function StatusOf(t: Tile): ShipStatus {
    match t
    case Import(start, end) => Shipped(start, end)
    case Skipped(choice) => SkippedRow(Start(t))
  }

  datatype ShipError = PassedStop | Refused(error: SelectError) | RemoteFailed | RecordDiffers | CleanupFailed

  datatype ShipStatus = Complete | SkippedRow(row: nat) | Shipped(start: nat, end: nat)

  /** The last line a call leaves on standard output. */
  datatype Printed = Status(status: ShipStatus) | Refusal | NoLine

  /** A result is printed on standard output, a refusal on standard error. */
  function LastLine(r: Result<ShipStatus, ShipError>): Printed {
    if r.Ok? then Status(r.value) else NoLine
  }

  datatype Rounds = Finished | RefusedRound | GivenUp

  /** The records agree with the tiles, up to one left behind at `at` by a call that stopped. */
  ghost predicate Accounted(c: Config, at: nat, tiles: seq<Tile>, imports: set<(nat, nat)>, skips: map<nat, Choice>) {
    && (forall t :: t in tiles && t.Import? ==> (t.start, t.end) in imports)
    && (forall t :: t in tiles && t.Skipped? ==> t.choice.Skip? && t.choice.row in skips && skips[t.choice.row] == t.choice)
    && (forall i :: i in imports ==> Import(i.0, i.1) in tiles || NextTile(c, at, Import(i.0, i.1)))
    && (forall row :: row in skips ==>
          && skips[row].Skip? && skips[row].row == row
          && (Skipped(skips[row]) in tiles || NextTile(c, at, Skipped(skips[row]))))
  }

  class Shipper {
    const config: Config
    /** checkpoint.json, the import receipts at the target by their row range, and the skip records. */
    var checkpoint: Option<nat>
    var imports: set<(nat, nat)>
    var skips: map<nat, Choice>
    ghost var tiles: seq<Tile>

    function Cursor(): nat
      reads this
    {
      if checkpoint.None? then config.startRow else checkpoint.value
    }

    ghost predicate Valid()
      reads this
    {
      WellFormed(config) && Tiled(config, Cursor(), tiles) && Accounted(config, Cursor(), tiles, imports, skips)
    }

    constructor (config: Config)
      requires WellFormed(config)
      ensures Valid() && this.config == config && Cursor() == config.startRow && tiles == []
    {
      this.config := config;
      checkpoint := None;
      imports := {};
      skips := map[];
      tiles := [];
    }

    /**
     One call. Its remote commands may fail, and it may stop between any two effects: after the import
     took place, after the skip record was written, or after the checkpoint moved. A calm call does neither.
     */
    method ShipOnce(identity: Identity, sourceIdentity: Identity, calm: bool) returns (r: Result<ShipStatus, ShipError>)
      requires Valid()
      modifies this
      ensures Valid()
      ensures r == Ok(Complete) <==> old(Cursor()) == config.stop
      ensures r == Ok(Complete) ==> Cursor() == config.stop && tiles == old(tiles)
      ensures r.Ok? && !r.value.Complete? ==>
                && Cursor() > old(Cursor()) && |tiles| == |old(tiles)| + 1 && tiles[..|old(tiles)|] == old(tiles)
                && NextTile(config, old(Cursor()), tiles[|old(tiles)|]) && End(tiles[|old(tiles)|]) == Cursor()
                && r.value == StatusOf(tiles[|old(tiles)|])
      ensures r.Err? ==> Cursor() >= old(Cursor()) && old(tiles) <= tiles
      ensures r.Err? && r.error.Refused? ==> Cursor() == old(Cursor()) && tiles == old(tiles)
      ensures r.Err? ==> !r.error.PassedStop? && !r.error.RecordDiffers?
      ensures old(Cursor()) < config.stop ==>
                && (r.Ok? ==> Accepts(config, identity, sourceIdentity, old(Cursor())))
                && (r.Err? && r.error.Refused? <==> !Accepts(config, identity, sourceIdentity, old(Cursor())))
                && (calm && r.Err? ==> r.error.Refused?)
    {
      hide Tiled, NextTile, Accounted, WellFormed, Selects, Selected, Shippable, Readable, Blocks, FirstChoice, WindowEnd;
      var at := Cursor();
      CursorBounds(config, at, tiles);
      if at > config.stop {
        return Err(PassedStop);
      }
      if at == config.stop {
        return Ok(Complete);
      }
      var limit := if config.maxBlocks < config.stop - at then config.maxBlocks else config.stop - at;
      var choice := ShipRows(config.lines, identity, at, limit, config.maxBytes, config.raw);
      if choice.Err? {
        return Err(Refused(choice.error));
      }
      NoneIsRows(config, at);
      ChoiceIsTile(config, at, limit, identity, choice.value);
      if choice.value.Skip? {
        r := SkipOne(at, choice.value, calm);
        return;
      }
      var rows := choice.value.rows;
      SourceAccepts(config, at, rows);
      var exported := ExportRows(config.lines, sourceIdentity, at, |rows|, config.maxBytes);
      if exported.Err? {
        return Err(Refused(exported.error));
      }
      ExportedRows(config, at, rows, exported.value, sourceIdentity);
      r := ImportOne(at, exported.value, calm);
    }

    method SkipOne(at: nat, choice: Choice, calm: bool) returns (r: Result<ShipStatus, ShipError>)
      requires Valid() && at == Cursor() && choice.Skip? && choice.row == at && NextTile(config, at, Skipped(choice))
      modifies this
      ensures Valid()
      ensures r.Ok? ==>
                && !r.value.Complete?
                && Cursor() > old(Cursor()) && |tiles| == |old(tiles)| + 1 && tiles[..|old(tiles)|] == old(tiles)
                && NextTile(config, old(Cursor()), tiles[|old(tiles)|]) && End(tiles[|old(tiles)|]) == Cursor()
                && r.value == StatusOf(tiles[|old(tiles)|])
      ensures r.Err? ==> Cursor() >= old(Cursor()) && old(tiles) <= tiles && !calm && (r.error.RemoteFailed? || r.error.CleanupFailed?)
    {
      hide Tiled, NextTile, Accounted, WellFormed, Selects, Selected, Shippable, Readable, Blocks, FirstChoice, WindowEnd;
      var verified, goesOn := *, *;
      if !(verified || calm) {
        return Err(RemoteFailed);
      }
      PendingSkip(config, at, tiles, imports, skips, choice);
      if at in skips && skips[at] != choice {
        return Err(RecordDiffers);
      }
      SkipRecorded(config, at, tiles, imports, skips, choice);
      skips := skips[at := choice];
      if !(goesOn || calm) {
        return Err(CleanupFailed);
      }
      AddTile(config, at, tiles, imports, skips, Skipped(choice));
      checkpoint := Some(at + 1);
      tiles := tiles + [Skipped(choice)];
      return Ok(SkippedRow(at));
    }

    method ImportOne(at: nat, rows: seq<Row>, calm: bool) returns (r: Result<ShipStatus, ShipError>)
      requires Valid() && at == Cursor() && NextTile(config, at, Import(at, at + |rows|))
      modifies this
      ensures Valid()
      ensures r.Ok? ==>
                && !r.value.Complete?
                && Cursor() > old(Cursor()) && |tiles| == |old(tiles)| + 1 && tiles[..|old(tiles)|] == old(tiles)
                && NextTile(config, old(Cursor()), tiles[|old(tiles)|]) && End(tiles[|old(tiles)|]) == Cursor()
                && r.value == StatusOf(tiles[|old(tiles)|])
      ensures r.Err? ==> Cursor() >= old(Cursor()) && old(tiles) <= tiles && !calm && (r.error.RemoteFailed? || r.error.CleanupFailed?)
    {
      hide Tiled, NextTile, Accounted, WellFormed, Selects, Selected, Shippable, Readable, Blocks, FirstChoice, WindowEnd;
      var end := at + |rows|;
      var transferred, accepted, cleaned, unlinked := *, *, *, *;
      if !(transferred || calm) {
        return Err(RemoteFailed);
      }
      ImportRecorded(config, at, tiles, imports, skips, end);
      imports := imports + {(at, end)};
      if !((accepted && cleaned) || calm) {
        return Err(RemoteFailed);
      }
      AddTile(config, at, tiles, imports, skips, Import(at, end));
      checkpoint := Some(end);
      tiles := tiles + [Import(at, end)];
      if !(unlinked || calm) {
        return Err(CleanupFailed);
      }
      return Ok(Shipped(at, end));
    }

    /**
     The rounds of an epoch cycle: until the shipment is complete, refused on standard output, or `rounds`
     calls were made. The refusal is never seen, so a shipment that is refused is called again every round.
     With enough calm rounds the shipment is finished exactly when every row ahead is acceptable.
     */
    method ShipRounds(identity: Identity, sourceIdentity: Identity, rounds: nat, calm: bool) returns (outcome: Rounds, calls: nat)
      requires Valid()
      modifies this
      ensures Valid() && old(tiles) <= tiles && Cursor() >= old(Cursor())
      ensures outcome.Finished? ==> Cursor() == config.stop && 1 <= calls <= rounds
      ensures !outcome.Finished? ==> outcome == GivenUp && calls == rounds
      ensures calm && rounds > config.stop - old(Cursor()) ==>
                (outcome.Finished? <==>
                 old(Cursor()) == config.stop ||
                 (Names(identity, config.lines) && AllAcceptable(config, sourceIdentity, old(Cursor()), config.stop)))
    {
      hide WellFormed, Tiled, Accounted, NextTile, Acceptable, Accepts, Names;
      CursorBounds(config, Cursor(), tiles);
      calls := 0;
      ghost var from := Cursor();
      while calls < rounds
        invariant Valid() && old(tiles) <= tiles && from <= Cursor() && calls <= rounds
        invariant calm ==> Passed(identity, sourceIdentity, from, calls)
      {
        ghost var at := Cursor();
        CursorBounds(config, at, tiles);
        var r := ShipOnce(identity, sourceIdentity, calm);
        if calm && at < config.stop {
          if r.Ok? {
            PassMore(config, identity, sourceIdentity, from, at, tiles[|tiles| - 1]);
          } else {
            PassNone(config, identity, sourceIdentity, from, at);
          }
        }
        calls := calls + 1;
        match LastLine(r) {
          case Status(Complete) => return Finished, calls;
          case Refusal => return RefusedRound, calls;
          case _ =>
        }
      }
      CursorBounds(config, Cursor(), tiles);
      return GivenUp, calls;
    }

    /** The rows from `from` to the cursor were acceptable; while those ahead are, every call passed one. */
    ghost predicate Passed(identity: Identity, source: Identity, from: nat, calls: nat)
      reads this
    {
      && (from == config.stop ==> calls == 0)
      && (from < Cursor() ==> Names(identity, config.lines) && AllAcceptable(config, source, from, Cursor()))
      && (from < config.stop && Names(identity, config.lines) && AllAcceptable(config, source, from, config.stop) ==> Cursor() >= from + calls)
    }
  }

  lemma CursorBounds(c: Config, at: nat, tiles: seq<Tile>)
    requires WellFormed(c) && Tiled(c, at, tiles)
    ensures c.startRow <= at <= c.stop <= |c.lines| && c.maxBlocks >= 1 && c.maxBytes >= 1
  {
    TiledBounds(c, at, tiles);
  }

  /** A choice of the shipper's selection is the tile at the cursor; "nothing" cannot happen before the stop row. */
  lemma ChoiceIsTile(c: Config, at: nat, limit: nat, identity: Identity, choice: Choice)
    requires WellFormed(c) && at < c.stop && limit == Min(c.maxBlocks, c.stop - at)
    requires Shippable(c.lines, at, WindowEnd(|c.lines|, at, limit))
    requires choice.Rows? ==>
               choice.rows != [] && Selected(c.lines, at, WindowEnd(|c.lines|, at, limit), choice.rows, c.maxBytes, c.raw)
    requires var first := FirstChoice(c.lines, at, c.maxBytes, c.raw);
             first.Ok? && if first.value.Some? then choice == first.value.value else choice.Rows?
    ensures choice.Rows? || choice.Skip?
    ensures choice.Rows? ==> Selects(c, at, choice.rows) && NextTile(c, at, Import(at, at + |choice.rows|))
    ensures choice.Skip? ==> choice.row == at && NextTile(c, at, Skipped(choice))
  {
    hide Selected, Shippable, Blocks;
    if choice.Rows? {
      assert Selects(c, at, choice.rows);
    }
  }

  /** The exporter, asked for that many rows, selects the same rows. */
  lemma ExportedRows(c: Config, at: nat, rows: seq<Row>, exported: seq<Row>, identity: Identity)
    requires WellFormed(c) && Selects(c, at, rows)
    requires Selected(c.lines, at, WindowEnd(|c.lines|, at, |rows|), exported, c.maxBytes, {})
    ensures exported == rows
  {
    hide Selected, Shippable, Readable;
    ExporterSelectsSame(c.lines, at, Limit(c, at), rows, exported, c.maxBytes, c.raw);
  }

  /** A skip record found at the cursor is the one to write. */
  lemma PendingSkip(c: Config, at: nat, tiles: seq<Tile>, imports: set<(nat, nat)>, skips: map<nat, Choice>, choice: Choice)
    requires WellFormed(c) && Tiled(c, at, tiles) && Accounted(c, at, tiles, imports, skips) && NextTile(c, at, Skipped(choice))
    ensures at in skips ==> skips[at] == choice
  {
    hide WellFormed, NextTile, Tiled;
    Bounds(c);
    if at in skips {
      var found := Skipped(skips[at]);
      if found in tiles {
        var j :| 0 <= j < |tiles| && tiles[j] == found;
        TileBefore(c, at, tiles, j);
      } else {
        NextTileUnique(c, at, found, Skipped(choice));
      }
    }
  }

  lemma SkipRecorded(c: Config, at: nat, tiles: seq<Tile>, imports: set<(nat, nat)>, skips: map<nat, Choice>, choice: Choice)
    requires Accounted(c, at, tiles, imports, skips) && NextTile(c, at, Skipped(choice))
    requires at in skips ==> skips[at] == choice
    ensures Accounted(c, at, tiles, imports, skips[at := choice])
  {
    hide FirstChoice, Selects;
  }

  lemma ImportRecorded(c: Config, at: nat, tiles: seq<Tile>, imports: set<(nat, nat)>, skips: map<nat, Choice>, end: nat)
    requires Accounted(c, at, tiles, imports, skips) && NextTile(c, at, Import(at, end))
    ensures Accounted(c, at, tiles, imports + {(at, end)}, skips)
  {
    hide NextTile;
  }

  /** The recorded tile becomes the last one: no other record can be pending. */
  lemma AddTile(c: Config, at: nat, tiles: seq<Tile>, imports: set<(nat, nat)>, skips: map<nat, Choice>, t: Tile)
    requires WellFormed(c) && Tiled(c, at, tiles) && Accounted(c, at, tiles, imports, skips) && NextTile(c, at, t)
    requires t.Import? ==> (t.start, t.end) in imports
    requires t.Skipped? ==> t.choice.Skip? && t.choice.row in skips && skips[t.choice.row] == t.choice
    ensures at < End(t) && Tiled(c, End(t), tiles + [t]) && Accounted(c, End(t), tiles + [t], imports, skips)
    ensures (tiles + [t])[..|tiles|] == tiles && (tiles + [t])[|tiles|] == t
  {
    hide WellFormed, NextTile;
    Bounds(c);
    NextTileMoves(c, at, t);
    assert (tiles + [t])[..|tiles|] == tiles;
    forall i | i in imports
      ensures Import(i.0, i.1) in tiles + [t]
    {
      if Import(i.0, i.1) !in tiles {
        NextTileUnique(c, at, Import(i.0, i.1), t);
      }
    }
    forall row | row in skips
      ensures Skipped(skips[row]) in tiles + [t]
    {
      if Skipped(skips[row]) !in tiles {
        NextTileUnique(c, at, Skipped(skips[row]), t);
      }
    }
  }

  /** With the shipment at `to`, every earlier row lies in an accepted import range or has a skip record. */
  lemma RowAccounted(c: Config, to: nat, tiles: seq<Tile>, imports: set<(nat, nat)>, skips: map<nat, Choice>, row: nat)
    requires WellFormed(c) && Tiled(c, to, tiles) && Accounted(c, to, tiles, imports, skips)
    requires c.startRow <= row < to
    ensures (exists i :: i in imports && i.0 <= row < i.1) || row in skips
  {
    hide NextTile, WellFormed, Tiled;
    var i := TilesCover(c, to, tiles, row);
    var t := tiles[i];
    assert t in tiles;
    if t.Import? {
      assert (t.start, t.end) in imports;
    }
  }
}

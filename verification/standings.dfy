/** The standings extractor of `GET /api/standen/:competitieId`: the title
    from the first non-empty `h1`/`h2`/`h3`, and one player record per body
    row of every table whose header names a standings column. The position
    column may be blank for a shared rank; the last non-blank position is
    carried forward, across rows and across tables. */
module Standings {
  import opened Optional
  import opened JsText
  import opened JsNumber
  import opened Cells
  import opened Seqs

  /** A `tbody tr` row: the texts of its `td` cells, and the text of the `a`
      elements inside its second cell when that cell holds any. */
  datatype Row = Row(cells: seq<string>, playerLink: Option<string>)

  /** A `table`: the texts of its `thead tr th, thead tr td` cells and its
      `tbody tr` rows, in document order. */
  datatype Table = Table(headers: seq<string>, rows: seq<Row>)

  /** A standings page as the scraper reads it: the `h1, h2, h3` texts and
      the tables, in document order. */
  datatype StandingsPage = StandingsPage(headings: seq<string>, tables: seq<Table>)

  /** `pos`: null before any non-blank position cell, otherwise what
      `parseInt` made of the last one, which may be `NaN`. */
  datatype Position = NoPosition | Rank(n: int) | NotANumber

  /** One standings record, with the field names of the JSON it becomes. */
  datatype Player = Player(
    pos: Position,
    naam: string,
    handicap: Option<int>,
    wed: Option<Number>,
    w: Option<Number>,
    g: Option<Number>,
    v: Option<Number>,
    pnt: Option<Number>,
    hs: Option<Number>,
    kp: Option<Number>,
    moyo: Option<Number>,
    moyn: Option<Number>,
    car: Option<string>,
    omh: Option<string>,
    roc: Option<Number>,
    rop: Option<Number>,
    rot: Option<Number>)

  /** The response body: title, capture time (milliseconds) and players. */
  datatype Standings = Standings(competitie: string, laatstBijgewerkt: int, spelers: seq<Player>)

  // ---------------------------------------------------------------- title

  /** A heading whose text is all white space, so that it trims to the
      empty string (`TrimEmpty`): it sets no title. */
  predicate Blank(heading: string) {
    AllSpace(heading)
  }

  /** Headings `k` up to `i` (exclusive) are all blank. */
  predicate BlankBetween(headings: seq<string>, k: int, i: int) {
    0 <= k <= i <= |headings| && forall j :: k <= j < i ==> Blank(headings[j])
  }

  /** No heading sets a title. */
  predicate AllBlank(headings: seq<string>) {
    BlankBetween(headings, 0, |headings|)
  }

  /** Heading `i` is the first from `k` on whose trimmed text is not empty. */
  predicate FirstTitleFrom(headings: seq<string>, k: int, i: int) {
    BlankBetween(headings, k, i) && i < |headings| && !Blank(headings[i])
  }

  /** `t` is the trimmed text of the first non-empty heading from `k` on. */
  ghost predicate TitleFromIs(headings: seq<string>, k: int, t: string) {
    exists i :: FirstTitleFrom(headings, k, i) && t == Trim(headings[i])
  }

  /** `t` is the trimmed text of the first non-empty heading. */
  ghost predicate TitleIs(headings: seq<string>, t: string) {
    TitleFromIs(headings, 0, t)
  }

  /** The `$('h1, h2, h3').each` loop: `competitie` takes the first
      non-empty trimmed heading text and keeps it. */
  function Title(headings: seq<string>): (t: string)
    ensures t == "" <==> AllBlank(headings)
    ensures t != "" ==> TitleIs(headings, t)
  {
    TitleFrom(headings, 0)
  }

  /** The loop from heading `k` on, with no title found before it. */
  function TitleFrom(headings: seq<string>, k: nat): (t: string)
    requires k <= |headings|
    ensures t == "" <==> BlankBetween(headings, k, |headings|)
    ensures t != "" ==> TitleFromIs(headings, k, t)
    decreases |headings| - k
  {
    if k == |headings| then ""
    else if !Blank(headings[k]) then
      assert FirstTitleFrom(headings, k, k);
      TrimEmpty(headings[k]);
      Trim(headings[k])
    else
      var t := TitleFrom(headings, k + 1);
      TitleAfterBlank(headings, k, t);
      t
  }

  /** A blank heading `k` leaves the title to the ones after it. */
  lemma TitleAfterBlank(headings: seq<string>, k: nat, t: string)
    requires k < |headings| && Blank(headings[k])
    requires t != "" ==> TitleFromIs(headings, k + 1, t)
    ensures t != "" ==> TitleFromIs(headings, k, t)
  {
    if t != "" {
      var i :| FirstTitleFrom(headings, k + 1, i) && t == Trim(headings[i]);
      BlankBefore(headings, k, i);
      assert FirstTitleFrom(headings, k, i);
    }
  }

  lemma BlankBefore(headings: seq<string>, k: nat, i: int)
    requires k < |headings| && Blank(headings[k]) && BlankBetween(headings, k + 1, i)
    ensures BlankBetween(headings, k, i)
  {
    forall j | k <= j < i
      ensures Blank(headings[j])
    {
      if j > k {
        assert k + 1 <= j < i;
      }
    }
  }

  // ------------------------------------------------------------- tables

  /** The header cells as compared: trimmed and lower-cased. */
  function HeaderKeys(t: Table): seq<string> {
    seq(|t.headers|, i requires 0 <= i < |t.headers| => ToLower(Trim(t.headers[i])))
  }

  /** The table is a standings table: some header cell is exactly `pos`,
      `speler` or `wed` once trimmed and lower-cased. */
  predicate IsStandingsTable(t: Table) {
    var keys := HeaderKeys(t);
    "pos" in keys || "speler" in keys || "wed" in keys
  }

  /** A header cell that is a standings key up to case, with white space
      around it, qualifies its table. */
  lemma HeaderQualifies(t: Table, i: int, a: string, key: string, b: string)
    requires 0 <= i < |t.headers| && t.headers[i] == a + key + b
    requires AllSpace(a) && AllSpace(b) && IsTrimmed(key) && |key| > 0
    requires ToLower(key) == "pos" || ToLower(key) == "speler" || ToLower(key) == "wed"
    ensures IsStandingsTable(t)
  {
    TrimAround(a, key, b);
    assert HeaderKeys(t)[i] == ToLower(key);
  }

  /** `rowData[k]`: the trimmed text of cell `k`, `undefined` past the end. */
  function Cell(row: Row, k: nat): Option<string> {
    if k < |row.cells| then Some(Trim(row.cells[k])) else None
  }

  /** The text the player column is read from: the link text when the second
      cell holds a link, else the cell's own text; `""` when there is no
      second cell. */
  function PlayerText(row: Row): string {
    if |row.cells| < 2 then ""
    else
      match row.playerLink
      case Some(linkText) => Trim(linkText)
      case None => Trim(row.cells[1])
  }

  /** `parseInt` of a non-blank position cell. */
  function ParsePosition(text: string): Position {
    match ParseInt(text)
    case None => NotANumber
    case Some(n) => Rank(n)
  }

  /** The record for a row, given its resolved position. */
  function MakePlayer(row: Row, pos: Position): Player {
    var (naam, handicap) := SplitHandicap(PlayerText(row));
    Player(
      pos, naam, handicap,
      ParseNumber(Cell(row, 2)), ParseNumber(Cell(row, 3)), ParseNumber(Cell(row, 4)),
      ParseNumber(Cell(row, 5)), ParseNumber(Cell(row, 6)), ParseNumber(Cell(row, 7)),
      ParseNumber(Cell(row, 8)), ParseNumber(Cell(row, 9)), ParseNumber(Cell(row, 10)),
      TextOrNull(Cell(row, 11)), TextOrNull(Cell(row, 12)),
      ParseNumber(Cell(row, 13)), ParseNumber(Cell(row, 14)), ParseNumber(Cell(row, 15)))
  }

  /** The state threaded through the extraction: `lastPos` and `spelers`. */
  datatype Acc = Acc(lastPos: Position, players: seq<Player>)

  const Start: Acc := Acc(NoPosition, [])

  /** The trimmed position cell of a row with cells. */
  function PosText(row: Row): string
    requires |row.cells| > 0
  {
    Trim(row.cells[0])
  }

  /** One row: a row without cells is skipped; otherwise a non-blank
      position cell is parsed and becomes `lastPos`, a blank one takes
      `lastPos`, and the record is appended. */
  function RowStep(acc: Acc, row: Row): Acc {
    if |row.cells| == 0 then acc
    else
      var pos := if PosText(row) != "" then ParsePosition(PosText(row)) else acc.lastPos;
      Acc(pos, acc.players + [MakePlayer(row, pos)])
  }

  /** The rows of one table, in order. */
  function FoldRows(acc: Acc, rows: seq<Row>): Acc {
    if |rows| == 0 then acc
    else RowStep(FoldRows(acc, rows[..|rows| - 1]), rows[|rows| - 1])
  }

  /** One table: its rows when it is a standings table, nothing otherwise. */
  function TableStep(acc: Acc, t: Table): Acc {
    if IsStandingsTable(t) then FoldRows(acc, t.rows) else acc
  }

  /** The `$('table').each` loop, with `lastPos` shared by all tables. */
  function FoldTables(acc: Acc, tables: seq<Table>): Acc {
    if |tables| == 0 then acc
    else TableStep(FoldTables(acc, tables[..|tables| - 1]), tables[|tables| - 1])
  }

  /** The players of a page: one per row with cells of its standings
      tables, in document order. */
  function ExtractPlayers(tables: seq<Table>): (ps: seq<Player>)
    ensures |ps| == |PlayerRows(tables)|
  {
    FoldTablesSpec(tables);
    FoldTables(Start, tables).players
  }

  /** The response for a fetched page; `clock` is the capture time. */
  function ExtractStandings(page: StandingsPage, clock: int): Standings {
    Standings(Title(page.headings), clock, ExtractPlayers(page.tables))
  }

  // ------------------------------------------- reference characterisation

  /** The rows of the standings tables, in document order. */
  function TableRows(tables: seq<Table>): seq<Row> {
    if |tables| == 0 then []
    else
      var t := tables[|tables| - 1];
      TableRows(tables[..|tables| - 1]) + (if IsStandingsTable(t) then t.rows else [])
  }

  /** The rows that have at least one cell. */
  function WithCells(rows: seq<Row>): (r: seq<Row>)
    ensures forall i :: 0 <= i < |r| ==> |r[i].cells| > 0
    ensures |r| <= |rows|
  {
    if |rows| == 0 then []
    else
      var row := rows[|rows| - 1];
      WithCells(rows[..|rows| - 1]) + (if |row.cells| > 0 then [row] else [])
  }

  /** The rows that become players: rows with cells of standings tables. */
  function PlayerRows(tables: seq<Table>): (r: seq<Row>)
    ensures forall i :: 0 <= i < |r| ==> |r[i].cells| > 0
  {
    WithCells(TableRows(tables))
  }

  predicate AllHaveCells(rows: seq<Row>) {
    forall i :: 0 <= i < |rows| ==> |rows[i].cells| > 0
  }

  /** The position in force after `rows`: the parse of the last non-blank
      position cell among them, or `start` when every one is blank. */
  function LastPosition(start: Position, rows: seq<Row>): Position
    requires AllHaveCells(rows)
  {
    if |rows| == 0 then start
    else
      var row := rows[|rows| - 1];
      if PosText(row) != "" then ParsePosition(PosText(row))
      else LastPosition(start, rows[..|rows| - 1])
  }

  /** Row `i`'s position: its own cell's parse when non-blank, else the
      position in force after the rows before it. */
  function PositionAt(start: Position, rows: seq<Row>, i: int): Position
    requires AllHaveCells(rows) && 0 <= i < |rows|
  {
    if PosText(rows[i]) != "" then ParsePosition(PosText(rows[i]))
    else LastPosition(start, rows[..i])
  }

  /** The players a run of rows with cells yields. */
  function Expected(start: Position, rows: seq<Row>): (ps: seq<Player>)
    requires AllHaveCells(rows)
  {
    seq(|rows|, i requires 0 <= i < |rows| => MakePlayer(rows[i], PositionAt(start, rows, i)))
  }

  // -------------------------------------------------------- fold lemmas

  lemma {:induction false} FoldRowsAppend(acc: Acc, a: seq<Row>, b: seq<Row>)
    ensures FoldRows(acc, a + b) == FoldRows(FoldRows(acc, a), b)
  {
    if |b| == 0 {
      AppendEmpty(a);
      assert b == [];
    } else {
      var m := |b| - 1;
      FoldRowsAppend(acc, a, b[..m]);
      LongPrefixOfAppend(a, b, m);
    }
  }

  /** The tables fold is the rows fold over the standings tables' rows:
      `lastPos` is not reset between tables. */
  lemma {:induction false} FoldTablesIsFoldRows(acc: Acc, tables: seq<Table>)
    ensures FoldTables(acc, tables) == FoldRows(acc, TableRows(tables))
  {
    if |tables| > 0 {
      var n := |tables| - 1;
      FoldTablesIsFoldRows(acc, tables[..n]);
      var t := tables[n];
      FoldRowsAppend(acc, TableRows(tables[..n]), if IsStandingsTable(t) then t.rows else []);
    }
  }

  /** Rows without cells leave the fold untouched. */
  lemma {:induction false} FoldRowsWithCells(acc: Acc, rows: seq<Row>)
    ensures FoldRows(acc, rows) == FoldRows(acc, WithCells(rows))
  {
    if |rows| > 0 {
      var n := |rows| - 1;
      FoldRowsWithCells(acc, rows[..n]);
      var row := rows[n];
      var mid := FoldRows(acc, WithCells(rows[..n]));
      if |row.cells| > 0 {
        FoldRowsAppend(acc, WithCells(rows[..n]), [row]);
        FoldRowsSingle(mid, row);
      } else {
        assert WithCells(rows) == WithCells(rows[..n]) + [];
        AppendEmpty(WithCells(rows[..n]));
      }
    }
  }

  lemma FoldRowsSingle(acc: Acc, row: Row)
    ensures FoldRows(acc, [row]) == RowStep(acc, row)
  {
    assert [row][..0] == [];
  }

  lemma PositionAtPrefix(start: Position, rows: seq<Row>, n: int, i: int)
    requires AllHaveCells(rows) && 0 <= i < n <= |rows|
    ensures AllHaveCells(rows[..n])
    ensures PositionAt(start, rows[..n], i) == PositionAt(start, rows, i)
  {
    assert rows[..n][..i] == rows[..i];
  }

  /** Over rows with cells, the fold appends exactly the expected players
      and leaves `lastPos` at the position in force after them. */
  lemma {:induction false} FoldRowsSpec(start: Position, ps: seq<Player>, rows: seq<Row>)
    requires AllHaveCells(rows)
    ensures FoldRows(Acc(start, ps), rows)
            == Acc(LastPosition(start, rows), ps + Expected(start, rows))
  {
    if |rows| == 0 {
      assert ps + Expected(start, rows) == ps;
    } else {
      var n := |rows| - 1;
      var init := rows[..n];
      var row := rows[n];
      FoldRowsSpec(start, ps, init);
      var pos := PositionAt(start, rows, n);
      assert LastPosition(start, rows) == pos;
      var p := MakePlayer(row, pos);
      ExpectedSnoc(start, rows);
      assert FoldRows(Acc(start, ps), rows) == RowStep(Acc(LastPosition(start, init), ps + Expected(start, init)), row);
      AppendAssoc(ps, Expected(start, init), [p]);
    }
  }

  lemma ExpectedSnoc(start: Position, rows: seq<Row>)
    requires AllHaveCells(rows) && |rows| > 0
    ensures var n := |rows| - 1;
            Expected(start, rows)
            == Expected(start, rows[..n]) + [MakePlayer(rows[n], PositionAt(start, rows, n))]
  {
    var n := |rows| - 1;
    ExpectedAgree(start, rows, n);
    ExpectedAt(start, rows, n);
    SnocByElements(Expected(start, rows), Expected(start, rows[..n]),
                   MakePlayer(rows[n], PositionAt(start, rows, n)));
  }

  /** The expected records of a prefix are the first expected records. */
  lemma ExpectedAgree(start: Position, rows: seq<Row>, n: int)
    requires AllHaveCells(rows) && 0 <= n <= |rows|
    ensures AllHaveCells(rows[..n])
    ensures |Expected(start, rows[..n])| == n && |Expected(start, rows)| == |rows|
    ensures forall i :: 0 <= i < n ==> Expected(start, rows[..n])[i] == Expected(start, rows)[i]
  {
    forall i | 0 <= i < n
      ensures Expected(start, rows[..n])[i] == Expected(start, rows)[i]
    {
      ExpectedPrefix(start, rows, n, i);
    }
  }

  lemma ExpectedAt(start: Position, rows: seq<Row>, j: int)
    requires AllHaveCells(rows) && 0 <= j < |rows|
    ensures Expected(start, rows)[j] == MakePlayer(rows[j], PositionAt(start, rows, j))
  {
  }

  lemma ExpectedPrefix(start: Position, rows: seq<Row>, n: int, i: int)
    requires AllHaveCells(rows) && 0 <= i < n <= |rows|
    ensures AllHaveCells(rows[..n])
    ensures Expected(start, rows[..n])[i] == Expected(start, rows)[i]
  {
    PositionAtPrefix(start, rows, n, i);
    ExpectedAt(start, rows, i);
    ExpectedAt(start, rows[..n], i);
  }

  lemma ExpectedPos(start: Position, rows: seq<Row>, j: int)
    requires AllHaveCells(rows) && 0 <= j < |rows|
    ensures Expected(start, rows)[j].pos == PositionAt(start, rows, j)
  {
  }

  lemma FoldTablesSpec(tables: seq<Table>)
    ensures FoldTables(Start, tables).players == Expected(NoPosition, PlayerRows(tables))
  {
    FoldTablesIsFoldRows(Start, tables);
    FoldRowsWithCells(Start, TableRows(tables));
    FoldRowsSpec(NoPosition, [], PlayerRows(tables));
    assert [] + Expected(NoPosition, PlayerRows(tables)) == Expected(NoPosition, PlayerRows(tables));
  }

  /** One record per row with cells of the standings tables, in document
      order; each record is built from its row and the position the carry
      rule gives it, starting from a null position. */
  lemma ExtractPlayersSpec(tables: seq<Table>)
    ensures ExtractPlayers(tables) == Expected(NoPosition, PlayerRows(tables))
  {
    FoldTablesSpec(tables);
  }

  /** A blank position cell copies the previous record's position, even
      when that record came from an earlier table. */
  lemma BlankCopiesPrevious(tables: seq<Table>, i: int)
    requires 0 < i < |PlayerRows(tables)| && PosText(PlayerRows(tables)[i]) == ""
    ensures ExtractPlayers(tables)[i].pos == ExtractPlayers(tables)[i - 1].pos
  {
    PlayerPosition(tables, i);
    PlayerPosition(tables, i - 1);
    PositionCarry(NoPosition, PlayerRows(tables), i);
  }

  /** Blank position cells before any non-blank one leave their records
      without a position. */
  lemma LeadingBlankIsNull(tables: seq<Table>, i: int)
    requires 0 <= i < |PlayerRows(tables)|
    requires forall j :: 0 <= j <= i ==> PosText(PlayerRows(tables)[j]) == ""
    ensures ExtractPlayers(tables)[i].pos == NoPosition
  {
    PlayerPosition(tables, i);
    LeadingBlanksKeepStart(NoPosition, PlayerRows(tables), i);
  }

  /** Rows whose position cells are all blank up to row `i` all take the
      starting position. */
  lemma {:induction false} LeadingBlanksKeepStart(start: Position, rows: seq<Row>, i: int)
    requires AllHaveCells(rows) && 0 <= i < |rows|
    requires forall j :: 0 <= j <= i ==> PosText(rows[j]) == ""
    ensures PositionAt(start, rows, i) == start
  {
    PositionCarry(start, rows, i);
    if i > 0 {
      LeadingBlanksKeepStart(start, rows, i - 1);
    }
  }

  /** Record `i` carries the position the carry rule gives row `i`. */
  lemma PlayerPosition(tables: seq<Table>, i: int)
    requires 0 <= i < |PlayerRows(tables)|
    ensures ExtractPlayers(tables)[i].pos == PositionAt(NoPosition, PlayerRows(tables), i)
  {
    ExtractPlayersSpec(tables);
    ExpectedPos(NoPosition, PlayerRows(tables), i);
  }

  /** The carry rule, row by row. */
  lemma PositionCarry(start: Position, rows: seq<Row>, i: int)
    requires AllHaveCells(rows) && 0 <= i < |rows|
    ensures PosText(rows[i]) != "" ==> PositionAt(start, rows, i) == ParsePosition(PosText(rows[i]))
    ensures PosText(rows[i]) == "" && i == 0 ==> PositionAt(start, rows, i) == start
    ensures PosText(rows[i]) == "" && i > 0 ==> PositionAt(start, rows, i) == PositionAt(start, rows, i - 1)
  {
    if i > 0 {
      LastPositionBefore(start, rows, i);
    }
  }

  /** The position in force before row `i` is row `i - 1`'s position. */
  lemma LastPositionBefore(start: Position, rows: seq<Row>, i: int)
    requires AllHaveCells(rows) && 0 < i < |rows|
    ensures LastPosition(start, rows[..i]) == PositionAt(start, rows, i - 1)
  {
    assert rows[..i][..i - 1] == rows[..i - 1];
    assert rows[..i][i - 1] == rows[i - 1];
  }

  /** The tie example: rows whose position cells read blank, a position,
      blank get the position in force, then that position twice. */
  lemma TieExample(start: Position, rows: seq<Row>)
    requires |rows| == 3 && AllHaveCells(rows)
    requires PosText(rows[0]) == "" && PosText(rows[1]) != "" && PosText(rows[2]) == ""
    ensures var players := FoldRows(Acc(start, []), rows).players;
            && |players| == 3
            && players[0].pos == start
            && players[1].pos == players[2].pos == ParsePosition(PosText(rows[1]))
  {
    TiePositions(start, rows);
    FoldRowsSpec(start, [], rows);
    AppendEmptyLeft(Expected(start, rows));
    ExpectedPos(start, rows, 0);
    ExpectedPos(start, rows, 1);
    ExpectedPos(start, rows, 2);
  }

  lemma TiePositions(start: Position, rows: seq<Row>)
    requires |rows| == 3 && AllHaveCells(rows)
    requires PosText(rows[0]) == "" && PosText(rows[1]) != "" && PosText(rows[2]) == ""
    ensures PositionAt(start, rows, 0) == start
    ensures PositionAt(start, rows, 1) == PositionAt(start, rows, 2) == ParsePosition(PosText(rows[1]))
  {
    PositionCarry(start, rows, 0);
    PositionCarry(start, rows, 1);
    PositionCarry(start, rows, 2);
  }

  /** A table that is not a standings table changes nothing. */
  lemma OtherTablesIgnored(acc: Acc, t: Table)
    requires !IsStandingsTable(t)
    ensures TableStep(acc, t) == acc
  {
  }

  /** The tables fold splits at any point: the second part starts from the
      state the first part left, so `lastPos` carries across tables. */
  lemma {:induction false} FoldTablesAppend(acc: Acc, a: seq<Table>, b: seq<Table>)
    ensures FoldTables(acc, a + b) == FoldTables(FoldTables(acc, a), b)
  {
    if |b| == 0 {
      assert a + b == a;
    } else {
      var m := |b| - 1;
      FoldTablesAppend(acc, a, b[..m]);
      assert (a + b)[..|a| + m] == a + b[..m];
      assert (a + b)[|a| + m] == b[m];
    }
  }

  /** A tie at rank `n`: a blank cell after position `n`, the cell that
      writes `n` in decimal, and a blank cell all give `n`. */
  lemma TieAtRank(rows: seq<Row>, n: nat)
    requires |rows| == 3 && AllHaveCells(rows)
    requires PosText(rows[0]) == "" && PosText(rows[1]) == DecimalString(n) && PosText(rows[2]) == ""
    ensures var players := FoldRows(Acc(Rank(n), []), rows).players;
            && |players| == 3
            && players[0].pos == players[1].pos == players[2].pos == Rank(n)
  {
    ParseIntRoundTrip(n);
    TieExample(Rank(n), rows);
  }

  /** The tie 3, 3, 3. */
  lemma TieOfThree(rows: seq<Row>)
    requires |rows| == 3 && AllHaveCells(rows)
    requires PosText(rows[0]) == "" && PosText(rows[1]) == "3" && PosText(rows[2]) == ""
    ensures var players := FoldRows(Acc(Rank(3), []), rows).players;
            && |players| == 3
            && players[0].pos == players[1].pos == players[2].pos == Rank(3)
  {
    assert DecimalString(3) == "3";
    TieAtRank(rows, 3);
  }

  /** With no standings table there are no players. */
  lemma NoStandingsTable(tables: seq<Table>)
    requires forall i :: 0 <= i < |tables| ==> !IsStandingsTable(tables[i])
    ensures ExtractPlayers(tables) == []
  {
    NoStandingsRows(tables);
    ExtractPlayersSpec(tables);
  }

  lemma {:induction false} NoStandingsRows(tables: seq<Table>)
    requires forall i :: 0 <= i < |tables| ==> !IsStandingsTable(tables[i])
    ensures TableRows(tables) == []
  {
    if |tables| > 0 {
      NoStandingsRows(tables[..|tables| - 1]);
    }
  }

  // ------------------------------------------------------ column mapping

  predicate IsNumericColumn(k: int) {
    2 <= k <= 10 || 13 <= k <= 15
  }

  /** The numeric field fed by column `k`. */
  function NumericField(p: Player, k: int): Option<Number>
    requires IsNumericColumn(k)
  {
    match k
    case 2 => p.wed
    case 3 => p.w
    case 4 => p.g
    case 5 => p.v
    case 6 => p.pnt
    case 7 => p.hs
    case 8 => p.kp
    case 9 => p.moyo
    case 10 => p.moyn
    case 13 => p.roc
    case 14 => p.rop
    case _ => p.rot
  }

  /** Columns 2-10 and 13-15 go through `parseNumber`: null past the end of
      the row and for an empty or `-` cell. */
  lemma NumericColumns(row: Row, pos: Position, k: int)
    requires IsNumericColumn(k)
    ensures NumericField(MakePlayer(row, pos), k) == ParseNumber(Cell(row, k))
    ensures k >= |row.cells| || Trim(row.cells[k]) == "" || Trim(row.cells[k]) == "-"
            ==> NumericField(MakePlayer(row, pos), k).None?
  {
    var p := MakePlayer(row, pos);
    match k
    case 2 => assert p.wed == ParseNumber(Cell(row, 2));
    case 3 => assert p.w == ParseNumber(Cell(row, 3));
    case 4 => assert p.g == ParseNumber(Cell(row, 4));
    case 5 => assert p.v == ParseNumber(Cell(row, 5));
    case 6 => assert p.pnt == ParseNumber(Cell(row, 6));
    case 7 => assert p.hs == ParseNumber(Cell(row, 7));
    case 8 => assert p.kp == ParseNumber(Cell(row, 8));
    case 9 => assert p.moyo == ParseNumber(Cell(row, 9));
    case 10 => assert p.moyn == ParseNumber(Cell(row, 10));
    case 13 => assert p.roc == ParseNumber(Cell(row, 13));
    case 14 => assert p.rop == ParseNumber(Cell(row, 14));
    case _ =>
      assert k == 15;
      assert p.rot == ParseNumber(Cell(row, 15));
  }

  /** Columns 11 and 12 are the trimmed cell text verbatim, null when the
      cell is missing or empty. */
  lemma TextColumns(row: Row, pos: Position)
    ensures var p := MakePlayer(row, pos);
            && (p.car.None? <==> 11 >= |row.cells| || Trim(row.cells[11]) == "")
            && (p.car.Some? ==> p.car.value == Trim(row.cells[11]))
            && (p.omh.None? <==> 12 >= |row.cells| || Trim(row.cells[12]) == "")
            && (p.omh.Some? ==> p.omh.value == Trim(row.cells[12]))
  {
  }

  /** Name and handicap come from the link text when the player cell holds a
      link, else from the cell's text, split at a trailing `(digits)`. */
  lemma PlayerColumn(row: Row, pos: Position)
    requires |row.cells| >= 2
    ensures var source := if row.playerLink.Some? then row.playerLink.value else row.cells[1];
            (MakePlayer(row, pos).naam, MakePlayer(row, pos).handicap) == SplitHandicap(Trim(source))
  {
  }
}

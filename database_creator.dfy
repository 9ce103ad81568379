/** The spreadsheet-to-card converter: each CSV sheet of the card spreadsheet, already split into
    rows of cells, is walked row by row; section headers switch the card type, the row after a
    header names the columns, and every other row becomes one card dictionary. */
module DatabaseCreator {
  import opened Wrappers
  import opened PyStr
  import opened Seqs

  /** A card: column label -> cell text */
  type Card = map<string, string>

  /** The `IndexError` the script raises when a row is too short for the cells it reads. Nothing
      catches it, so it ends the run before the database file is written. */
  datatype Error = IndexError

  /** What the row loop carries from one row to the next: `card_type`, `labels`, `label_update` */
  datatype State = State(cardType: string, labels: seq<string>, labelUpdate: bool)

  /** One downloaded sheet: its file path and its rows as `csv.reader` splits them */
  datatype Sheet = Sheet(path: string, rows: seq<seq<string>>)

  const InitialState := State("", [], false)

  /** The part of the default sheet file name that precedes the faction */
  const FactionMarker := "Mark 4 Cards -"

  // ---------------------------------------------------------------------------
  // cardMaker
  // ---------------------------------------------------------------------------

  /** `base` after `card[keys[i]] = values[i]` for each i in order */
  function Assign(base: Card, keys: seq<string>, values: seq<string>): Card
    requires |keys| <= |values|
    decreases |keys|
  {
    if keys == [] then base
    else Assign(base[keys[0] := values[0]], keys[1..], values[1..])
  }

  /** Assigning in order: the keys are those of `base` and of `keys`, the last assignment to a key
      wins, and keys that are not assigned keep their values. */
  lemma {:induction false} AssignFacts(base: Card, keys: seq<string>, values: seq<string>)
    requires |keys| <= |values|
    ensures Assign(base, keys, values).Keys == base.Keys + (set k | k in keys)
    ensures forall i :: 0 <= i < |keys| && keys[i] !in keys[i + 1..] ==>
              Assign(base, keys, values)[keys[i]] == values[i]
    ensures forall k :: k in base && k !in keys ==> Assign(base, keys, values)[k] == base[k]
    decreases |keys|
  {
    if keys != [] {
      var base' := base[keys[0] := values[0]];
      var card := Assign(base', keys[1..], values[1..]);
      AssignFacts(base', keys[1..], values[1..]);
      assert keys == [keys[0]] + keys[1..];
      assert (set k | k in keys) == {keys[0]} + (set k | k in keys[1..]);
      forall i | 0 <= i < |keys| && keys[i] !in keys[i + 1..] ensures card[keys[i]] == values[i] {
        if i > 0 {
          assert keys[i] == keys[1..][i - 1] && keys[i + 1..] == keys[1..][i..];
        }
      }
    }
  }

  /** The dictionary `cardMaker(line, labels, card_type, faction)` returns */
  function CardOf(line: seq<string>, labels: seq<string>, cardType: string, faction: string): Card
    requires 1 <= |labels| <= |line|
  {
    Assign(map[labels[0] := line[0]]["Type" := cardType]["Faction" := faction], labels[1..], line[1..])
  }

  /** The card's keys are the name label, "Type", "Faction" and the other labels; each label maps to
      its cell unless a later label repeats it; "Type", "Faction" and the name keep their values
      unless a label overwrites them. */
  lemma CardOfFacts(line: seq<string>, labels: seq<string>, cardType: string, faction: string)
    requires 1 <= |labels| <= |line|
    ensures var card := CardOf(line, labels, cardType, faction);
            && card.Keys == {labels[0], "Type", "Faction"} + (set k | k in labels[1..])
            && (forall i :: 1 <= i < |labels| && labels[i] !in labels[i + 1..] ==> card[labels[i]] == line[i])
            && ("Faction" !in labels[1..] ==> card["Faction"] == faction)
            && ("Type" !in labels[1..] ==> card["Type"] == cardType)
            && (labels[0] !in labels[1..] && labels[0] != "Type" && labels[0] != "Faction" ==>
                  card[labels[0]] == line[0])
  {
    var base := map[labels[0] := line[0]]["Type" := cardType]["Faction" := faction];
    AssignFacts(base, labels[1..], line[1..]);
    assert forall i :: 1 <= i < |labels| ==>
      labels[i] == labels[1..][i - 1] && line[i] == line[1..][i - 1] && labels[i + 1..] == labels[1..][i..];
  }

  /** `cardMaker`: the name column, then "Type" and "Faction", then every further label in turn */
  method CardMaker(line: seq<string>, labels: seq<string>, cardType: string, faction: string)
    returns (card: Card)
    requires 1 <= |labels| <= |line|
    ensures card == CardOf(line, labels, cardType, faction)
  {
    card := map[];
    card := card[labels[0] := line[0]];
    card := card["Type" := cardType];
    card := card["Faction" := faction];
    var rest := labels[1..];
    for index := 0 to |rest|
      invariant Assign(card, rest[index..], line[index + 1..]) == CardOf(line, labels, cardType, faction)
    {
      assert rest[index..][1..] == rest[index + 1..];
      assert line[index + 1..][1..] == line[index + 2..];
      card := card[rest[index] := line[index + 1]];
    }
  }

  // ---------------------------------------------------------------------------
  // The rows of one sheet
  // ---------------------------------------------------------------------------

  /** `any(col for col in line)` is false: the row has no non-empty cell */
  predicate IsBlankRow(row: seq<string>) {
    forall i :: 0 <= i < |row| ==> row[i] == ""
  }

  /** The row filter's lambda: some cell is non-empty */
  predicate IsFilledRow(row: seq<string>) {
    !IsBlankRow(row)
  }

  /** `list(filter(lambda line: any(col for col in line), lines))` */
  function DropBlankRows(rows: seq<seq<string>>): (kept: seq<seq<string>>)
    ensures forall i :: 0 <= i < |kept| ==> !IsBlankRow(kept[i])
    ensures forall r :: !IsBlankRow(r) ==> multiset(kept)[r] == multiset(rows)[r]
    ensures IsSubsequence(kept, rows)
  {
    FilterFacts(rows, IsFilledRow);
    Filter(rows, IsFilledRow)
  }

  /** The label filter's lambda: the cell is non-empty */
  predicate IsLabel(cell: string) {
    cell != ""
  }

  /** `list(filter(lambda label: label, line))`: the non-empty cells, in order */
  function NonEmptyCells(row: seq<string>): (labels: seq<string>)
    ensures "" !in labels
    ensures forall c :: c != "" ==> multiset(labels)[c] == multiset(row)[c]
    ensures IsSubsequence(labels, row)
  {
    var labels := Filter(row, IsLabel);
    FilterFacts(row, IsLabel);
    assert forall i :: 0 <= i < |labels| ==> labels[i] != "";
    labels
  }

  /** The card type a section header names in its first cell: the singular of the header */
  function HeaderCardType(cell: string): (t: Option<string>)
    ensures t.Some? <==> cell in {"Leaders", "Combatants", "Operations", "Assets"}
    ensures t.Some? ==> cell == t.value + "s"
  {
    if cell == "Leaders" then Some("Leader")
    else if cell == "Combatants" then Some("Combatant")
    else if cell == "Operations" then Some("Operation")
    else if cell == "Assets" then Some("Asset")
    else None
  }

  /** The branch of the row loop a row takes */
  datatype RowKind = Skipped | LabelRow | Header(cardType: string) | DataRow

  /** Which branch `row` takes in state `st`; `line[1]` raises on a row of fewer than two cells. */
  function Classify(st: State, row: seq<string>): Result<RowKind, Error> {
    if |row| < 2 then Err(IndexError)
    else if row[1] == "" then Ok(Skipped)
    else if st.labelUpdate then Ok(LabelRow)
    else match HeaderCardType(row[0])
      case Some(t) => Ok(Header(t))
      case None => Ok(DataRow)
  }

  /** One pass of the row loop: the next state and the cards appended (none or one) */
  function Step(st: State, row: seq<string>, faction: string): Result<(State, seq<Card>), Error> {
    var kind := Classify(st, row);
    if kind.Err? then Err(kind.error)
    else if kind.value.Skipped? then Ok((st, []))
    else if kind.value.LabelRow? then Ok((st.(labels := NonEmptyCells(row), labelUpdate := false), []))
    else if kind.value.Header? then Ok((st.(cardType := kind.value.cardType, labelUpdate := true), []))
    else if 1 <= |st.labels| <= |row| then Ok((st, [CardOf(row, st.labels, st.cardType, faction)]))
    else Err(IndexError)
  }

  /** The state and output after `prev`, followed by one step on `row` */
  function Then(prev: Result<(State, seq<Card>), Error>, row: seq<string>, faction: string):
    Result<(State, seq<Card>), Error>
  {
    if prev.Err? then prev
    else
      var step := Step(prev.value.0, row, faction);
      if step.Err? then step else Ok((step.value.0, prev.value.1 + step.value.1))
  }

  /** The row loop over `rows` started in state `st`: the final state and every card appended */
  function Run(st: State, rows: seq<seq<string>>, faction: string): Result<(State, seq<Card>), Error>
    decreases |rows|
  {
    if rows == [] then Ok((st, []))
    else Then(Run(st, rows[..|rows| - 1], faction), rows[|rows| - 1], faction)
  }

  /** `str(file)[str(file).find("Mark 4 Cards -") + 15:-4]` */
  function Faction(path: string): string {
    Slice(path, Find(path, FactionMarker) + 15, -4)
  }

  /** The cards one sheet contributes */
  function SheetCards(sheet: Sheet): Result<seq<Card>, Error> {
    var run := Run(InitialState, DropBlankRows(sheet.rows), Faction(sheet.path));
    if run.Err? then Err(run.error) else Ok(run.value.1)
  }

  /** `output_dict["cards"]` after every sheet, in the order the sheets are globbed */
  function DatabaseCards(sheets: seq<Sheet>): Result<seq<Card>, Error>
    decreases |sheets|
  {
    if sheets == [] then Ok([])
    else
      var prev := DatabaseCards(sheets[..|sheets| - 1]);
      if prev.Err? then prev
      else
        var more := SheetCards(sheets[|sheets| - 1]);
        if more.Err? then more else Ok(prev.value + more.value)
  }

  // ---------------------------------------------------------------------------
  // The loops of main
  // ---------------------------------------------------------------------------

  /** The body of the row loop: which branch the row takes and what it changes */
  method HandleRow(st: State, line: seq<string>, faction: string) returns (r: Result<(State, seq<Card>), Error>)
    ensures r == Step(st, line, faction)
  {
    if |line| < 2 {
      return Err(IndexError);
    }
    if line[1] == "" {
      // trailing notes: nothing changes
      return Ok((st, []));
    } else if st.labelUpdate {
      return Ok((st.(labels := NonEmptyCells(line), labelUpdate := false), []));
    }
    var header := HeaderCardType(line[0]);
    if header.Some? {
      // "Leaders", "Combatants", "Operations", "Assets"
      return Ok((st.(cardType := header.value, labelUpdate := true), []));
    }
    if |st.labels| < 1 || |line| < |st.labels| {
      return Err(IndexError);
    }
    var card := CardMaker(line, st.labels, st.cardType, faction);
    return Ok((st, [card]));
  }

  /** The row loop of `main` for one sheet, in the state `card_type`, `labels`, `label_update` */
  method ProcessSheet(sheet: Sheet) returns (r: Result<seq<Card>, Error>)
    ensures r == SheetCards(sheet)
  {
    var lines := DropBlankRows(sheet.rows);
    var faction := Faction(sheet.path);
    var st := InitialState;
    var cards: seq<Card> := [];
    var i := 0;
    while i < |lines|
      invariant 0 <= i <= |lines|
      invariant Run(InitialState, lines[..i], faction) == Ok((st, cards))
    {
      RunExtendAt(InitialState, lines, i, faction, st, cards);
      var step := HandleRow(st, lines[i], faction);
      if step.Err? {
        RunStopsAtError(InitialState, lines, faction, i + 1);
        return Err(step.error);
      }
      st, cards := step.value.0, cards + step.value.1;
      i := i + 1;
    }
    TakeAll(lines);
    r := Ok(cards);
  }

  /** `main`: every sheet in turn, all cards in one list; an error in any sheet ends the run */
  method BuildDatabase(sheets: seq<Sheet>) returns (r: Result<seq<Card>, Error>)
    ensures r == DatabaseCards(sheets)
  {
    var cards: seq<Card> := [];
    var i := 0;
    while i < |sheets|
      invariant 0 <= i <= |sheets|
      invariant DatabaseCards(sheets[..i]) == Ok(cards)
    {
      DatabaseExtendAt(sheets, i, cards);
      var more := ProcessSheet(sheets[i]);
      if more.Err? {
        DatabaseStopsAtError(sheets, i + 1);
        return more;
      }
      cards := cards + more.value;
      i := i + 1;
    }
    assert sheets[..|sheets|] == sheets;
    r := Ok(cards);
  }

  // ---------------------------------------------------------------------------
  // Properties of the row loop
  // ---------------------------------------------------------------------------

  /** Once a prefix of the rows raises, the whole loop raises that error. */
  lemma {:induction false} RunStopsAtError(st: State, rows: seq<seq<string>>, faction: string, i: nat)
    requires i <= |rows|
    requires Run(st, rows[..i], faction).Err?
    ensures Run(st, rows, faction) == Run(st, rows[..i], faction)
    decreases |rows|
  {
    assert rows[..|rows|] == rows;
    if i < |rows| {
      var prefix := rows[..|rows| - 1];
      assert prefix[..i] == rows[..i];
      RunStopsAtError(st, prefix, faction, i);
    }
  }

  /** Once a sheet raises, the whole run raises that error. */
  lemma {:induction false} DatabaseStopsAtError(sheets: seq<Sheet>, i: nat)
    requires i <= |sheets|
    requires DatabaseCards(sheets[..i]).Err?
    ensures DatabaseCards(sheets) == DatabaseCards(sheets[..i])
    decreases |sheets|
  {
    assert sheets[..|sheets|] == sheets;
    if i < |sheets| {
      var prefix := sheets[..|sheets| - 1];
      assert prefix[..i] == sheets[..i];
      DatabaseStopsAtError(prefix, i);
    }
  }

  /** A row whose second cell is empty changes neither the state nor the output. */
  lemma SkippedRowChangesNothing(st: State, rows: seq<seq<string>>, row: seq<string>, faction: string)
    requires |row| >= 2 && row[1] == ""
    ensures Run(st, rows + [row], faction) == Run(st, rows, faction)
  {
    assert (rows + [row])[..|rows|] == rows;
    var prev := Run(st, rows, faction);
    if prev.Ok? {
      assert prev.value.1 + [] == prev.value.1;
    }
  }

  /** The loop over the rows up to index `i` is the loop before `i`, then one step. */
  lemma RunExtendAt(st: State, rows: seq<seq<string>>, i: nat, faction: string, s: State, cards: seq<Card>)
    requires i < |rows|
    requires Run(st, rows[..i], faction) == Ok((s, cards))
    ensures Run(st, rows[..i + 1], faction) == Then(Ok((s, cards)), rows[i], faction)
  {
    assert rows[..i + 1][..i] == rows[..i];
  }

  /** One more sheet adds its cards, or its error. */
  lemma DatabaseExtendAt(sheets: seq<Sheet>, i: nat, cards: seq<Card>)
    requires i < |sheets|
    requires DatabaseCards(sheets[..i]) == Ok(cards)
    ensures var more := SheetCards(sheets[i]);
            DatabaseCards(sheets[..i + 1]) == if more.Err? then more else Ok(cards + more.value)
  {
    assert sheets[..i + 1][..i] == sheets[..i];
    assert sheets[..i + 1][i] == sheets[i];
  }

  /** The loop over one more row is one more step. */
  lemma RunExtend(st: State, rows: seq<seq<string>>, row: seq<string>, faction: string,
                  s: State, cards: seq<Card>)
    requires Run(st, rows, faction) == Ok((s, cards))
    ensures Run(st, rows + [row], faction) == Then(Ok((s, cards)), row, faction)
  {
    assert (rows + [row])[..|rows|] == rows;
  }

  /** A section header row (outside a label update) sets the card type, arms the label update
      and keeps the labels; it emits no card. */
  lemma HeaderRowSetsCardType(st: State, rows: seq<seq<string>>, row: seq<string>, faction: string,
                              s: State, cards: seq<Card>)
    requires Run(st, rows, faction) == Ok((s, cards))
    requires !s.labelUpdate
    requires |row| >= 2 && row[1] != ""
    requires row[0] in {"Leaders", "Combatants", "Operations", "Assets"}
    ensures Run(st, rows + [row], faction) ==
            Ok((State(HeaderCardType(row[0]).value, s.labels, true), cards))
  {
    RunExtend(st, rows, row, faction, s, cards);
    assert cards + [] == cards;
  }

  /** The first non-skipped row after a header becomes the labels, with its empty cells removed;
      the label update is cleared and no card is emitted. */
  lemma LabelRowReplacesLabels(st: State, rows: seq<seq<string>>, row: seq<string>, faction: string,
                               s: State, cards: seq<Card>)
    requires Run(st, rows, faction) == Ok((s, cards))
    requires s.labelUpdate
    requires |row| >= 2 && row[1] != ""
    ensures Run(st, rows + [row], faction) == Ok((State(s.cardType, NonEmptyCells(row), false), cards))
  {
    RunExtend(st, rows, row, faction, s, cards);
    assert cards + [] == cards;
  }

  /** Every other non-skipped row appends exactly the card `cardMaker` builds from the current
      labels, card type and faction, and leaves the state alone; a row too short for the labels,
      or a data row before any labels, raises `IndexError`. */
  lemma DataRowAppendsOneCard(st: State, rows: seq<seq<string>>, row: seq<string>, faction: string,
                              s: State, cards: seq<Card>)
    requires Run(st, rows, faction) == Ok((s, cards))
    requires !s.labelUpdate
    requires |row| >= 2 && row[1] != ""
    requires row[0] !in {"Leaders", "Combatants", "Operations", "Assets"}
    ensures 1 <= |s.labels| <= |row| ==>
              Run(st, rows + [row], faction) == Ok((s, cards + [CardOf(row, s.labels, s.cardType, faction)]))
    ensures !(1 <= |s.labels| <= |row|) ==> Run(st, rows + [row], faction) == Err(IndexError)
  {
    RunExtend(st, rows, row, faction, s, cards);
  }

  /** The output only grows, in row order: the cards after any prefix of the rows are a prefix
      of the cards after all of them. */
  lemma {:induction false} OutputGrowsInRowOrder(st: State, rows: seq<seq<string>>, faction: string, i: nat)
    requires i <= |rows|
    requires Run(st, rows, faction).Ok?
    ensures Run(st, rows[..i], faction).Ok?
    ensures Run(st, rows[..i], faction).value.1 <= Run(st, rows, faction).value.1
    decreases |rows|
  {
    if i == |rows| {
      assert rows[..i] == rows;
    } else {
      var prefix := rows[..|rows| - 1];
      assert prefix[..i] == rows[..i];
      OutputGrowsInRowOrder(st, prefix, faction, i);
    }
  }

  /** The number of rows that take the card-making branch */
  function DataRowCount(st: State, rows: seq<seq<string>>, faction: string): nat
    decreases |rows|
  {
    if rows == [] then 0
    else
      var prefix := rows[..|rows| - 1];
      var prev := Run(st, prefix, faction);
      DataRowCount(st, prefix, faction) +
      if prev.Ok? && Classify(prev.value.0, rows[|rows| - 1]) == Ok(DataRow) then 1 else 0
  }

  /** One card per data row: the length of the output is the number of data rows. */
  lemma {:induction false} OneCardPerDataRow(st: State, rows: seq<seq<string>>, faction: string)
    requires Run(st, rows, faction).Ok?
    ensures |Run(st, rows, faction).value.1| == DataRowCount(st, rows, faction)
    decreases |rows|
  {
    if rows != [] {
      var prefix := rows[..|rows| - 1];
      OneCardPerDataRow(st, prefix, faction);
    }
  }

  /** What holds of every state the loop reaches from the start of a sheet */
  predicate IsReachable(s: State) {
    && "" !in s.labels
    && s.cardType in {"", "Leader", "Combatant", "Operation", "Asset"}
  }

  /** The labels never contain an empty string, the card type is always one a header sets (or
      still the initial empty one), and every card has a "Type" and a "Faction" entry. */
  lemma {:induction false} RunKeepsStateReachable(st: State, rows: seq<seq<string>>, faction: string)
    requires IsReachable(st)
    requires Run(st, rows, faction).Ok?
    ensures IsReachable(Run(st, rows, faction).value.0)
    ensures forall c :: c in Run(st, rows, faction).value.1 ==> "Type" in c && "Faction" in c
    decreases |rows|
  {
    if rows != [] {
      var prev := Run(st, rows[..|rows| - 1], faction);
      var row := rows[|rows| - 1];
      RunKeepsStateReachable(st, rows[..|rows| - 1], faction);
      var s := prev.value.0;
      if Classify(s, row) == Ok(DataRow) && 1 <= |s.labels| <= |row| {
        CardOfFacts(row, s.labels, s.cardType, faction);
      }
    }
  }

  /** With the default file name "... Mark 4 Cards - <Faction>.csv", the faction is what follows
      the marker and one more character, without the last four characters (".csv"). */
  lemma FactionFromDefaultName(path: string, k: nat)
    requires OccursAt(path, FactionMarker, k)
    requires forall j :: 0 <= j < k ==> !OccursAt(path, FactionMarker, j)
    requires k + 15 <= |path| - 4
    ensures Faction(path) == path[k + 15..|path| - 4]
  {
  }

  /** A file name without the marker: `find` gives -1 and the slice starts at index 14. */
  lemma FactionWithoutMarker(path: string)
    requires forall j :: !OccursAt(path, FactionMarker, j)
    ensures Faction(path) == Slice(path, 14, -4)
  {
  }
}

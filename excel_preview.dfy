/**
 * The ExcelPreview component as a pure projection: the grid of cell texts,
 * together with the record of modified cells and the record of their
 * original values, becomes a grid of display cells. A cell is addressed by
 * the positional key `"{row}-{col}"`.
 */
module ExcelPreview {
  import opened CodeUnits

  datatype Option<T> = None | Some(value: T)

  // ---------------------------------------------------------------------
  // Decimal notation, as a template literal prints a non-negative index
  // ---------------------------------------------------------------------

  predicate IsDigit(c: CodeUnit) {
    Unit('0') <= c <= Unit('9')
  }

  predicate AllDigits(s: Str) {
    forall i | 0 <= i < |s| :: IsDigit(s[i])
  }

  function Digit(d: nat): (c: CodeUnit)
    requires d < 10
    ensures IsDigit(c)
  {
    (Unit('0') as int + d) as CodeUnit
  }

  function DigitValue(c: CodeUnit): (d: nat)
    requires IsDigit(c)
    ensures d < 10 && Digit(d) == c
  {
    (c - Unit('0')) as nat
  }

  /** `${n}` for an array index: decimal digits, no sign, no leading zero. */
  function Decimal(n: nat): (r: Str)
    ensures |r| >= 1 && AllDigits(r)
    ensures r[0] == Unit('0') ==> n == 0 && r == [Unit('0')]
  {
    if n < 10 then [Digit(n)] else Decimal(n / 10) + [Digit(n % 10)]
  }

  /** Reads a string of decimal digits back as a number. */
  function ParseDecimal(s: Str): (n: nat)
    requires AllDigits(s)
  {
    if s == [] then 0 else 10 * ParseDecimal(s[..|s| - 1]) + DigitValue(s[|s| - 1])
  }

  /** Decimal notation can be read back, so distinct indices print differently. */
  lemma {:induction false} DecimalRoundTrip(n: nat)
    ensures ParseDecimal(Decimal(n)) == n
  {
    var r := Decimal(n);
    if n < 10 {
      assert r[..|r| - 1] == [];
    } else {
      assert r[..|r| - 1] == Decimal(n / 10);
      DecimalRoundTrip(n / 10);
    }
  }

  // ---------------------------------------------------------------------
  // Cell ids
  // ---------------------------------------------------------------------

  const Dash: CodeUnit := Unit('-')

  /** `${rowIndex}-${cellIndex}`. */
  function CellId(row: nat, col: nat): (id: Str)
    ensures |id| == |Decimal(row)| + 1 + |Decimal(col)|
    ensures Dash !in Decimal(row) && id[|Decimal(row)|] == Dash
    ensures id[..|Decimal(row)|] == Decimal(row) && id[|Decimal(row)| + 1..] == Decimal(col)
  {
    Decimal(row) + [Dash] + Decimal(col)
  }

  /** The position of the first occurrence of `x` in `s`, if any. */
  function IndexOf(s: Str, x: CodeUnit): (k: Option<nat>)
    ensures k.Some? ==> k.value < |s| && s[k.value] == x && x !in s[..k.value]
    ensures k.None? ==> x !in s
  {
    if s == [] then None
    else if s[0] == x then Some(0)
    else match IndexOf(s[1..], x)
      case None => None
      case Some(j) => assert s[..j + 1] == [s[0]] + s[1..][..j]; Some(j + 1)
  }

  /** Reads a cell id back as its (row, col) position. */
  function ParseCellId(id: Str): (pos: Option<(nat, nat)>) {
    match IndexOf(id, Dash)
    case None => None
    case Some(k) =>
      var rowText, colText := id[..k], id[k + 1..];
      if rowText != [] && colText != [] && AllDigits(rowText) && AllDigits(colText)
      then Some((ParseDecimal(rowText), ParseDecimal(colText)))
      else None
  }

  /** Every cell id names its own position back. */
  lemma CellIdRoundTrip(row: nat, col: nat)
    ensures ParseCellId(CellId(row, col)) == Some((row, col))
  {
    var id, k := CellId(row, col), |Decimal(row)|;
    assert id[..k] == Decimal(row);
    assert id[k + 1..] == Decimal(col);
    assert Dash !in id[..k] && id[k] == Dash;
    DecimalRoundTrip(row);
    DecimalRoundTrip(col);
  }

  /** Distinct positions get distinct ids. */
  lemma CellIdInjective(r1: nat, c1: nat, r2: nat, c2: nat)
    ensures CellId(r1, c1) == CellId(r2, c2) <==> r1 == r2 && c1 == c2
  {
    CellIdRoundTrip(r1, c1);
    CellIdRoundTrip(r2, c2);
  }

  // ---------------------------------------------------------------------
  // The projection
  // ---------------------------------------------------------------------

  /** One `<td>`: its text, whether it carries the `modified` class, its `title`. */
  datatype DisplayCell = DisplayCell(text: Str, modified: bool, title: Str)

  /** The fixed part of the title of a modified cell. */
  const TitlePrefix: Str := Lit("Valor original: ")

  /** `${originalCells[cellId]}`: the recorded value, or `undefined` for a missing key. */
  function OriginalText(originalCells: map<Str, Str>, id: Str): (text: Str)
    ensures id in originalCells ==> text == originalCells[id]
    ensures id !in originalCells ==> text == Lit("undefined")
  {
    if id in originalCells then originalCells[id] else Lit("undefined")
  }

  /** The `row.map` callback: one `<td>` for the cell at (row, col). */
  function RenderCell(row: nat, col: nat, cell: Str,
                      modifiedCells: map<Str, Str>, originalCells: map<Str, Str>): (td: DisplayCell)
    ensures td.text == cell
    ensures td.modified <==> CellId(row, col) in modifiedCells
    ensures !td.modified ==> td.title == []
    ensures td.modified ==> td.title == TitlePrefix + OriginalText(originalCells, CellId(row, col))
  {
    var id := CellId(row, col);
    var isModified := id in modifiedCells;
    DisplayCell(cell, isModified, if isModified then TitlePrefix + OriginalText(originalCells, id) else [])
  }

  /** `row.map(…)`: one display cell per source cell of the row, in order. */
  function RenderRow(row: nat, cells: seq<Str>,
                     modifiedCells: map<Str, Str>, originalCells: map<Str, Str>): (tds: seq<DisplayCell>)
    ensures |tds| == |cells|
    ensures forall col | 0 <= col < |cells| :: tds[col].text == cells[col]
  {
    seq(|cells|, col requires 0 <= col < |cells| => RenderCell(row, col, cells[col], modifiedCells, originalCells))
  }

  /**
   * `data.map((row, rowIndex) => row.map((cell, cellIndex) => …))`: the grid
   * keeps its shape and its texts; the cell at (r, c) is marked exactly when
   * `modifiedCells` has the key `"{r}-{c}"`, and then its title shows the
   * original value.
   */
  function Render(data: seq<seq<Str>>,
                  modifiedCells: map<Str, Str>, originalCells: map<Str, Str>): (view: seq<seq<DisplayCell>>)
    ensures |view| == |data|
    ensures forall r | 0 <= r < |data| :: |view[r]| == |data[r]|
    ensures forall r, c | 0 <= r < |data| && 0 <= c < |data[r]| ::
      && view[r][c].text == data[r][c]
      && (view[r][c].modified <==> CellId(r, c) in modifiedCells)
      && view[r][c].title == (if CellId(r, c) in modifiedCells
                              then TitlePrefix + OriginalText(originalCells, CellId(r, c))
                              else [])
  {
    seq(|data|, r requires 0 <= r < |data| => RenderRow(r, data[r], modifiedCells, originalCells))
  }

  /** Which cells are marked depends on `modifiedCells` alone, never on `originalCells`. */
  lemma MarksIgnoreOriginals(data: seq<seq<Str>>, modifiedCells: map<Str, Str>,
                             originals1: map<Str, Str>, originals2: map<Str, Str>, r: nat, c: nat)
    requires r < |data| && c < |data[r]|
    ensures Render(data, modifiedCells, originals1)[r][c].modified
        == Render(data, modifiedCells, originals2)[r][c].modified
  {
  }

  /** With no modifications every cell is plain and untitled. */
  lemma NoModificationsRendersPlain(data: seq<seq<Str>>, originalCells: map<Str, Str>)
    ensures forall r, c | 0 <= r < |data| && 0 <= c < |data[r]| ::
      Render(data, map[], originalCells)[r][c] == DisplayCell(data[r][c], false, [])
  {
  }

  /** Two distinct positions never share a key, so a record entry marks at most one cell. */
  lemma OneCellPerKey(data: seq<seq<Str>>, modifiedCells: map<Str, Str>, originalCells: map<Str, Str>,
                      r1: nat, c1: nat, r2: nat, c2: nat)
    requires r1 < |data| && c1 < |data[r1]| && r2 < |data| && c2 < |data[r2]|
    requires (r1, c1) != (r2, c2)
    requires Render(data, modifiedCells, originalCells)[r1][c1].modified
    ensures modifiedCells - {CellId(r1, c1)} != modifiedCells
    ensures Render(data, modifiedCells - {CellId(r1, c1)}, originalCells)[r2][c2]
         == Render(data, modifiedCells, originalCells)[r2][c2]
    ensures !Render(data, modifiedCells - {CellId(r1, c1)}, originalCells)[r1][c1].modified
  {
    CellIdInjective(r1, c1, r2, c2);
  }

  /** `12-3` is the id of row 12, column 3. */
  lemma CellIdExample()
    ensures CellId(12, 3) == [Unit('1'), Unit('2'), Dash, Unit('3')]
  {
  }

  /**
   * A row of two cells of which only the first is recorded as modified: the
   * first is marked and titled with its original value, the second is plain
   * even though `originalCells` has an entry for it.
   */
  lemma TwoCellExample(first: Str, second: Str, changedFirst: Str, originalFirst: Str, originalSecond: Str)
    ensures Render([[first, second]], map[CellId(0, 0) := changedFirst],
                   map[CellId(0, 0) := originalFirst, CellId(0, 1) := originalSecond])
         == [[DisplayCell(first, true, TitlePrefix + originalFirst), DisplayCell(second, false, [])]]
  {
    CellIdInjective(0, 0, 0, 1);
    var view := Render([[first, second]], map[CellId(0, 0) := changedFirst],
                       map[CellId(0, 0) := originalFirst, CellId(0, 1) := originalSecond]);
    assert view[0] == [view[0][0], view[0][1]];
  }
}

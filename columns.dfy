/** format_columns: lays out a sequence of strings column-major into fixed-width text columns. */
module Columns {
  import opened Outcomes
  import opened PyText

  /** math.ceil(n / k) for a non-zero k, as an exact integer (see CeilDivSpec). */
  function CeilDiv(n: int, k: int): (q: int)
    requires k != 0
    ensures k > 0 && n > 0 ==> q >= 1
    ensures k > 0 && n >= 0 ==> q >= 0
    ensures k < 0 && n > 0 ==> q <= 0
  {
    if k > 0 then (n + k - 1) / k else n / k
  }

  /** CeilDiv is the ceiling of the quotient: the least q with n <= q * k when k is positive,
      the least q with q * k <= n when k is negative. */
  lemma CeilDivSpec(n: int, k: int)
    requires k != 0
    ensures var q := CeilDiv(n, k);
      && (k > 0 ==> (q - 1) * k < n <= q * k)
      && (k < 0 ==> q * k <= n < (q - 1) * k)
  {
    var q := CeilDiv(n, k);
    if k > 0 {
      assert (n + k - 1) == q * k + (n + k - 1) % k;
    } else {
      assert n == q * k + n % k;
    }
  }

  /** items[lo:hi] for 0 <= lo <= hi: Python clamps both bounds to the length. */
  function Slice(items: seq<string>, lo: nat, hi: nat): (s: seq<string>)
    requires lo <= hi
  {
    var n := |items|;
    items[(if lo < n then lo else n)..(if hi < n then hi else n)]
  }

  /** The start of block k when blocks are `size` long: k * size, counted out block by block
      so that unfolding it needs no multiplication. */
  function Offset(size: nat, k: nat): nat {
    if k == 0 then 0 else Offset(size, k - 1) + size
  }

  lemma {:induction false} OffsetIsProduct(size: nat, k: nat)
    ensures Offset(size, k) == k * size
  {
    if k > 0 {
      OffsetIsProduct(size, k - 1);
    }
  }

  /** The cell in row `row` and column `col` of the grid with `rows` rows: in column-major
      order it holds the item at index col * rows + row, or nothing past the end. */
  function Cell(items: seq<string>, rows: nat, row: nat, col: nat): Option<string> {
    var i := Offset(rows, col) + row;
    if i < |items| then Some(items[i]) else None
  }

  /** A filled cell is its item left-justified to the width; an empty one is width spaces. */
  function CellText(cell: Option<string>, width: int): string {
    match cell
    case Some(item) => LJust(item, width)
    case None => Spaces(width)
  }

  /** The first `cols` cells of a row, concatenated, before rstrip(). */
  function RawLine(items: seq<string>, rows: nat, width: int, row: nat, cols: nat): string {
    if cols == 0 then ""
    else RawLine(items, rows, width, row, cols - 1) + CellText(Cell(items, rows, row, cols - 1), width)
  }

  /** The lines format_columns joins: one per row, right-stripped. A negative column count
      gives math.ceil(n / k) <= 0 rows, hence no lines. */
  function Lines(items: seq<string>, numColumns: int, colWidth: int): seq<string>
    requires items != [] ==> numColumns != 0
  {
    if items == [] || numColumns < 0 then []
    else
      var rows := CeilDiv(|items|, numColumns);
      seq(rows, row requires 0 <= row < rows => RStrip(RawLine(items, rows, colWidth, row, numColumns)))
  }

  /** The text format_columns returns. */
  function Format(items: seq<string>, numColumns: int, colWidth: int): string
    requires items != [] ==> numColumns != 0
  {
    if items == [] then "" else Join(Lines(items, numColumns, colWidth), '\n')
  }

  /** Column c of the grid: the slice items[c*rows:(c+1)*rows]. */
  function Column(items: seq<string>, rows: nat, c: nat): seq<string> {
    Slice(items, Offset(rows, c), Offset(rows, c + 1))
  }

  /** The first n columns, in order. */
  function Columns(items: seq<string>, rows: nat, n: nat): seq<seq<string>> {
    if n == 0 then [] else Columns(items, rows, n - 1) + [Column(items, rows, n - 1)]
  }

  lemma {:induction false} ColumnsLength(items: seq<string>, rows: nat, n: nat)
    ensures |Columns(items, rows, n)| == n
  {
    if n > 0 {
      ColumnsLength(items, rows, n - 1);
    }
  }

  lemma {:induction false} ColumnsAt(items: seq<string>, rows: nat, n: nat, c: nat)
    requires c < n
    ensures |Columns(items, rows, n)| == n
    ensures Columns(items, rows, n)[c] == Column(items, rows, c)
  {
    ColumnsLength(items, rows, n - 1);
    if c < n - 1 {
      ColumnsAt(items, rows, n - 1, c);
    }
  }

  /** Row r of column c, the slice items[c*rows:(c+1)*rows], is the cell (r, c): present
      exactly when the slice is long enough. */
  lemma ColumnCell(items: seq<string>, rows: nat, r: nat, c: nat)
    requires r < rows
    ensures var column := Column(items, rows, c);
      && (r < |column| <==> Cell(items, rows, r, c).Some?)
      && (r < |column| ==> column[r] == Cell(items, rows, r, c).value)
  {
  }

  /** One more cell of a row: the entry of column col padded with ljust, or width spaces where
      the column is too short. */
  lemma NextCell(items: seq<string>, rows: nat, columns: seq<seq<string>>, numColumns: nat, colWidth: int, row: nat, col: nat)
    requires row < rows && col < numColumns && columns == Columns(items, rows, numColumns)
    ensures col < |columns|
    ensures RawLine(items, rows, colWidth, row, col + 1) == RawLine(items, rows, colWidth, row, col)
      + if row < |columns[col]| then LJust(columns[col][row], colWidth) else Spaces(colWidth)
  {
    ColumnsAt(items, rows, numColumns, col);
    ColumnCell(items, rows, row, col);
  }

  /** The inner loop of format_columns: the cells of one row, concatenated. */
  method JoinRow(items: seq<string>, rows: nat, columns: seq<seq<string>>, numColumns: nat, colWidth: int, row: nat)
    returns (line: string)
    requires row < rows && columns == Columns(items, rows, numColumns)
    ensures line == RawLine(items, rows, colWidth, row, numColumns)
  {
    line := "";
    var col := 0;
    while col < numColumns
      invariant 0 <= col <= numColumns
      invariant line == RawLine(items, rows, colWidth, row, col)
    {
      NextCell(items, rows, columns, numColumns, colWidth, row, col);
      if row < |columns[col]| {
        line := line + LJust(columns[col][row], colWidth);
      } else {
        line := line + Spaces(colWidth);
      }
      col := col + 1;
    }
  }

  /** One more cell of a raw line. */
  lemma RawLineStep(items: seq<string>, rows: nat, width: int, row: nat, c: nat)
    ensures RawLine(items, rows, width, row, c + 1) == RawLine(items, rows, width, row, c) + CellText(Cell(items, rows, row, c), width)
  {
  }

  /** The outer loop of format_columns: one right-stripped line per row, in order. */
  method JoinRows(items: seq<string>, rows: nat, columns: seq<seq<string>>, numColumns: nat, colWidth: int)
    returns (lines: seq<string>)
    requires columns == Columns(items, rows, numColumns)
    ensures |lines| == rows
    ensures forall r :: 0 <= r < rows ==> lines[r] == RStrip(RawLine(items, rows, colWidth, r, numColumns))
  {
    lines := [];
    var row := 0;
    while row < rows
      invariant row <= rows && |lines| == row
      invariant forall r :: 0 <= r < row ==> lines[r] == RStrip(RawLine(items, rows, colWidth, r, numColumns))
    {
      var line := JoinRow(items, rows, columns, numColumns, colWidth, row);
      assert forall r :: 0 <= r < row ==> (lines + [RStrip(line)])[r] == lines[r];
      lines := lines + [RStrip(line)];
      row := row + 1;
    }
  }

  /** format_columns(items, num_columns, col_width): builds the column slices, then each line
      cell by cell, right-strips it, and joins the lines with newlines. Calling it with items
      and a zero column count raises ZeroDivisionError. */
  method FormatColumns(items: seq<string>, numColumns: int, colWidth: int) returns (text: string)
    requires items != [] ==> numColumns != 0
    ensures text == Format(items, numColumns, colWidth)
    ensures items == [] ==> text == ""
  {
    if items == [] {
      return "";
    }
    var rows := CeilDiv(|items|, numColumns);
    var columns: seq<seq<string>> := [];
    var i := 0;
    while i < numColumns
      invariant 0 <= i && (numColumns > 0 ==> i <= numColumns)
      invariant i == 0 ==> columns == []
      invariant i > 0 ==> rows >= 1 && columns == Columns(items, rows, i)
    {
      // items[i*rows:(i+1)*rows]
      columns := columns + [Column(items, rows, i)];
      i := i + 1;
    }
    var lines: seq<string> := [];
    if rows > 0 {
      // range(rows) is empty otherwise
      lines := JoinRows(items, rows, columns, numColumns, colWidth);
    }
    assert lines == Lines(items, numColumns, colWidth);
    text := Join(lines, '\n');
  }

  // ---------------------------------------------------------------------------
  // Arithmetic helpers

  function Min(a: int, b: int): int {
    if a < b then a else b
  }

  lemma MulCancel(a: int, b: int, w: int)
    requires w > 0 && a * w < b * w
    ensures a < b
  {
  }

  // ---------------------------------------------------------------------------
  // Every item appears exactly once, in column-major order

  /** The items in the first r cells of column col, top to bottom, skipping empty cells. */
  function ReadColumn(items: seq<string>, rows: nat, col: nat, r: nat): seq<string> {
    if r == 0 then []
    else
      ReadColumn(items, rows, col, r - 1)
      + match Cell(items, rows, r - 1, col) case Some(item) => [item] case None => []
  }

  /** The items in the first cols columns, read column by column. */
  function ReadGrid(items: seq<string>, rows: nat, cols: nat): seq<string> {
    if cols == 0 then [] else ReadGrid(items, rows, cols - 1) + ReadColumn(items, rows, cols - 1, rows)
  }

  lemma {:induction false} ReadColumnIsSlice(items: seq<string>, rows: nat, col: nat, r: nat)
    ensures ReadColumn(items, rows, col, r) == items[Min(Offset(rows, col), |items|)..Min(Offset(rows, col) + r, |items|)]
  {
    if r > 0 {
      var k := r - 1;
      ReadColumnIsSlice(items, rows, col, k);
      ReadColumnStep(items, rows, col, k);
      var lo := Min(Offset(rows, col), |items|);
      var i := Offset(rows, col) + k;
      if i < |items| {
        assert Min(i, |items|) == i && Min(i + 1, |items|) == i + 1;
        SliceSnoc(items, ReadColumn(items, rows, col, k), ReadColumn(items, rows, col, k + 1), lo, i);
      } else {
        assert Min(i, |items|) == Min(i + 1, |items|);
      }
    }
  }

  /** One more cell of a column: its item, if the cell is filled. */
  lemma ReadColumnStep(items: seq<string>, rows: nat, col: nat, k: nat)
    ensures ReadColumn(items, rows, col, k + 1) == ReadColumn(items, rows, col, k)
      + if Offset(rows, col) + k < |items| then [items[Offset(rows, col) + k]] else []
  {
  }

  /** A slice followed by the next element is the longer slice. */
  lemma SliceSnoc(items: seq<string>, front: seq<string>, whole: seq<string>, lo: nat, i: nat)
    requires lo <= i < |items| && front == items[lo..i] && whole == front + [items[i]]
    ensures whole == items[lo..i + 1]
  {
  }

  lemma {:induction false} ReadGridIsPrefix(items: seq<string>, rows: nat, cols: nat)
    ensures ReadGrid(items, rows, cols) == items[..Min(Offset(rows, cols), |items|)]
  {
    if cols > 0 {
      ReadGridIsPrefix(items, rows, cols - 1);
      NextColumn(items, rows, cols);
    }
  }

  /** Reading one more column extends the prefix by that column's slice. */
  lemma NextColumn(items: seq<string>, rows: nat, cols: nat)
    requires cols > 0 && ReadGrid(items, rows, cols - 1) == items[..Min(Offset(rows, cols - 1), |items|)]
    ensures ReadGrid(items, rows, cols) == items[..Min(Offset(rows, cols), |items|)]
  {
    var c := cols - 1;
    ReadColumnIsSlice(items, rows, c, rows);
    assert Offset(rows, cols) == Offset(rows, c) + rows;
    assert ReadGrid(items, rows, cols) == ReadGrid(items, rows, c) + ReadColumn(items, rows, c, rows);
    Glue(items, ReadGrid(items, rows, c), ReadColumn(items, rows, c, rows), ReadGrid(items, rows, cols), Offset(rows, c), rows);
  }

  /** A prefix of items followed by the next slice of them is a longer prefix. */
  lemma Glue(items: seq<string>, front: seq<string>, back: seq<string>, whole: seq<string>, lo: nat, k: nat)
    requires whole == front + back
    requires front == items[..Min(lo, |items|)]
    requires back == items[Min(lo, |items|)..Min(lo + k, |items|)]
    ensures whole == items[..Min(lo + k, |items|)]
  {
  }

  /** Reading the grid column by column, top to bottom, skipping empty cells, gives back the
      items: every item sits in exactly one cell, in column-major order, none dropped or
      repeated. */
  lemma ReadGridRoundTrip(items: seq<string>, numColumns: int)
    requires numColumns >= 1
    ensures ReadGrid(items, CeilDiv(|items|, numColumns), numColumns) == items
  {
    var rows := CeilDiv(|items|, numColumns);
    ReadGridIsPrefix(items, rows, numColumns);
    OffsetIsProduct(rows, numColumns);
  }

  /** Item i sits in column i / rows and row i % rows, and that column exists. */
  lemma CellOfItem(items: seq<string>, numColumns: int, i: nat)
    requires numColumns >= 1 && i < |items|
    ensures var rows := CeilDiv(|items|, numColumns);
      && rows >= 1
      && i / rows < numColumns
      && i % rows < rows
      && Cell(items, rows, i % rows, i / rows) == Some(items[i])
  {
    var rows := CeilDiv(|items|, numColumns);
    assert (i / rows) * rows + i % rows == i;
    MulCancel(i / rows, numColumns, rows);
    OffsetIsProduct(rows, i / rows);
  }

  // ---------------------------------------------------------------------------
  // Padding and placement

  /** No item is wider than the column width. */
  predicate Fits(items: seq<string>, width: nat) {
    forall i :: 0 <= i < |items| ==> |items[i]| <= width
  }

  /** When no item is wider than the column width, every cell is exactly width characters, so
      a raw line of cols cells is cols * width characters long. */
  lemma {:induction false} RawLineWidth(items: seq<string>, rows: nat, width: nat, row: nat, cols: nat)
    requires Fits(items, width)
    ensures |RawLine(items, rows, width, row, cols)| == Offset(width, cols)
  {
    if cols > 0 {
      var c := cols - 1;
      RawLineWidth(items, rows, width, row, c);
      RawLineStep(items, rows, width, row, c);
      CellFits(items, rows, width, row, c);
      CellTextWidth(Cell(items, rows, row, c), width);
    }
  }

  /** Adding cells only extends a raw line. */
  lemma {:induction false} RawLineExtends(items: seq<string>, rows: nat, width: int, row: nat, c: nat, cols: nat)
    requires c <= cols
    ensures |RawLine(items, rows, width, row, c)| <= |RawLine(items, rows, width, row, cols)|
    ensures RawLine(items, rows, width, row, cols)[..|RawLine(items, rows, width, row, c)|] == RawLine(items, rows, width, row, c)
    decreases cols - c
  {
    if c < cols {
      RawLineExtends(items, rows, width, row, c + 1, cols);
      RawLineStep(items, rows, width, row, c);
      FrontIsPrefix(RawLine(items, rows, width, row, c), CellText(Cell(items, rows, row, c), width),
        RawLine(items, rows, width, row, c + 1), RawLine(items, rows, width, row, cols));
    }
  }

  /** Where items fit the width, cell c of a row occupies characters c * width up to
      (c + 1) * width of its raw line. */
  lemma CellSlot(items: seq<string>, rows: nat, width: nat, row: nat, c: nat, cols: nat)
    requires c < cols
    requires Fits(items, width)
    ensures Offset(width, c) + width <= |RawLine(items, rows, width, row, cols)|
    ensures RawLine(items, rows, width, row, cols)[Offset(width, c)..Offset(width, c) + width]
      == CellText(Cell(items, rows, row, c), width)
  {
    LastCellSlot(items, rows, width, row, c);
    RawLineExtends(items, rows, width, row, c + 1, cols);
    ExtendedSlot(RawLine(items, rows, width, row, cols), RawLine(items, rows, width, row, c + 1),
      CellText(Cell(items, rows, row, c), width), Offset(width, c), width);
  }

  /** The last cell of a raw line occupies its last width characters. */
  lemma LastCellSlot(items: seq<string>, rows: nat, width: nat, row: nat, c: nat)
    requires Fits(items, width)
    ensures Offset(width, c) + width <= |RawLine(items, rows, width, row, c + 1)|
    ensures RawLine(items, rows, width, row, c + 1)[Offset(width, c)..Offset(width, c) + width]
      == CellText(Cell(items, rows, row, c), width)
  {
    RawLineWidth(items, rows, width, row, c);
    CellTextWidth(Cell(items, rows, row, c), width);
    RawLineStep(items, rows, width, row, c);
    LastSlot(RawLine(items, rows, width, row, c + 1), RawLine(items, rows, width, row, c), CellText(Cell(items, rows, row, c), width), Offset(width, c), width);
  }

  lemma ExtendedSlot(raw: string, prefix: string, cell: string, lo: nat, w: nat)
    requires |prefix| <= |raw| && raw[..|prefix|] == prefix
    requires lo + w <= |prefix| && prefix[lo..lo + w] == cell
    ensures lo + w <= |raw| && raw[lo..lo + w] == cell
  {
    assert raw[lo..lo + w] == prefix[lo..lo + w];
  }

  /** The front of a concatenation that is a prefix of a whole is a prefix of it. */
  lemma FrontIsPrefix(front: string, back: string, mid: string, whole: string)
    requires mid == front + back && |mid| <= |whole| && whole[..|mid|] == mid
    ensures |front| <= |whole| && whole[..|front|] == front
  {
    assert whole[..|front|] == mid[..|front|];
  }


  /** What is appended occupies the end. */
  lemma LastSlot(whole: string, front: string, back: string, lo: nat, w: nat)
    requires whole == front + back && |front| == lo && |back| == w
    ensures lo + w <= |whole| && whole[lo..lo + w] == back
  {
  }

  /** The text of a cell whose item fits is exactly the width. */
  lemma CellTextWidth(cell: Option<string>, width: nat)
    requires cell.Some? ==> |cell.value| <= width
    ensures |CellText(cell, width)| == width
  {
    if cell.Some? {
      LJustSpec(cell.value, width);
    } else {
      SpacesSpec(width);
    }
  }

  /** Where items fit the width, a filled cell (row, c) -- items[c * rows + row], see Cell --
      starts at offset c * width of its raw line (Offset(width, c), see OffsetIsProduct) and is
      followed by spaces up to the next column; an empty cell is all spaces. Nothing is
      truncated, and the raw line is num_columns * width characters long. */
  lemma CellPlacement(items: seq<string>, rows: nat, numColumns: nat, width: nat, row: nat, c: nat)
    requires c < numColumns
    requires Fits(items, width)
    ensures var raw := RawLine(items, rows, width, row, numColumns);
      && |raw| == Offset(width, numColumns)
      && Offset(width, c) + width <= |raw|
      && InSlot(raw, Offset(width, c), Cell(items, rows, row, c), width)
  {
    RawLineWidth(items, rows, width, row, numColumns);
    CellInSlot(items, rows, width, row, c, numColumns);
  }

  /** The slot of cell c holds its item, then spaces. */
  lemma CellInSlot(items: seq<string>, rows: nat, width: nat, row: nat, c: nat, cols: nat)
    requires c < cols
    requires Fits(items, width)
    ensures Offset(width, c) + width <= |RawLine(items, rows, width, row, cols)|
    ensures InSlot(RawLine(items, rows, width, row, cols), Offset(width, c), Cell(items, rows, row, c), width)
  {
    CellSlot(items, rows, width, row, c, cols);
    CellFits(items, rows, width, row, c);
    SlotContents(RawLine(items, rows, width, row, cols), Offset(width, c), Cell(items, rows, row, c), width);
  }

  /** Where items fit the width, so does the item of any cell. */
  lemma CellFits(items: seq<string>, rows: nat, width: nat, row: nat, c: nat)
    requires Fits(items, width)
    ensures Cell(items, rows, row, c).Some? ==> |Cell(items, rows, row, c).value| <= width
  {
  }

  /** Characters lo up to lo + width of raw hold the cell's item, if any, then spaces. */
  predicate InSlot(raw: string, lo: nat, cell: Option<string>, width: nat)
    requires lo + width <= |raw|
  {
    var pad := if cell.Some? then lo + |cell.value| else lo;
    && pad <= lo + width
    && (cell.Some? ==> raw[lo..pad] == cell.value)
    && forall k :: pad <= k < lo + width ==> raw[k] == ' '
  }

  /** A slot of a line that holds a cell's text holds the item, then spaces up to the width. */
  lemma SlotContents(raw: string, lo: nat, cell: Option<string>, width: nat)
    requires lo + width <= |raw|
    requires cell.Some? ==> |cell.value| <= width
    requires raw[lo..lo + width] == CellText(cell, width)
    ensures InSlot(raw, lo, cell, width)
  {
    var slot := raw[lo..lo + width];
    if cell.None? {
      SpacesSpec(width);
    }
    if cell.Some? {
      LJustSpec(cell.value, width);
      assert raw[lo..lo + |cell.value|] == slot[..|cell.value|];
    }
    var pad := if cell.Some? then lo + |cell.value| else lo;
    forall k | pad <= k < lo + width
      ensures raw[k] == ' '
    {
      assert raw[k] == slot[k - lo];
    }
  }

  /** Each line is its raw row with exactly the trailing whitespace removed: the line does not
      end in whitespace and everything after it in the raw row is whitespace. */
  lemma LinesTrimmed(items: seq<string>, numColumns: int, colWidth: int, row: nat)
    requires numColumns >= 1 && row < |Lines(items, numColumns, colWidth)|
    ensures var line := Lines(items, numColumns, colWidth)[row];
      var raw := RawLine(items, CeilDiv(|items|, numColumns), colWidth, row, numColumns);
      && line <= raw
      && (line == [] || !IsSpace(line[|line| - 1]))
      && forall k :: |line| <= k < |raw| ==> IsSpace(raw[k])
  {
    RStripSpec(RawLine(items, CeilDiv(|items|, numColumns), colWidth, row, numColumns));
  }

  // ---------------------------------------------------------------------------
  // Line structure of the text

  /** No item holds the character ch. */
  predicate Lacks(items: seq<string>, ch: char) {
    forall i :: 0 <= i < |items| ==> ch !in items[i]
  }

  lemma {:induction false} RawLineNoNewline(items: seq<string>, rows: nat, width: int, row: nat, cols: nat)
    requires Lacks(items, '\n')
    ensures '\n' !in RawLine(items, rows, width, row, cols)
  {
    if cols > 0 {
      var c := cols - 1;
      RawLineNoNewline(items, rows, width, row, c);
      CellWithout(items, rows, row, c, '\n');
      CellTextWithout(Cell(items, rows, row, c), width, '\n');
      RawLineStep(items, rows, width, row, c);
      NotInAppend(RawLine(items, rows, width, row, c), CellText(Cell(items, rows, row, c), width),
        RawLine(items, rows, width, row, c + 1), '\n');
    }
  }

  /** A character no item holds is in no cell. */
  lemma CellWithout(items: seq<string>, rows: nat, row: nat, c: nat, ch: char)
    requires Lacks(items, ch)
    ensures Cell(items, rows, row, c).Some? ==> ch !in Cell(items, rows, row, c).value
  {
  }

  lemma NotInAppend(front: string, back: string, whole: string, ch: char)
    requires whole == front + back && ch !in front && ch !in back
    ensures ch !in whole
  {
  }

  /** Padding adds only spaces, so a character other than a space is in a cell's text only if
      it is in the item. */
  lemma CellTextWithout(cell: Option<string>, width: int, ch: char)
    requires ch != ' ' && (cell.Some? ==> ch !in cell.value)
    ensures ch !in CellText(cell, width)
  {
    var pad := if cell.Some? then width - |cell.value| else width;
    SpacesSpec(pad);
    assert ch !in Spaces(pad);
  }

  /** With no newline inside any item, the text splits back into exactly its lines, one per
      row: ceil(n / num_columns) of them. */
  lemma FormatLineCount(items: seq<string>, numColumns: int, colWidth: int)
    requires items != [] && numColumns >= 1
    requires forall i :: 0 <= i < |items| ==> '\n' !in items[i]
    ensures |Lines(items, numColumns, colWidth)| == CeilDiv(|items|, numColumns)
    ensures Split(Format(items, numColumns, colWidth), '\n') == Lines(items, numColumns, colWidth)
  {
    var rows := CeilDiv(|items|, numColumns);
    var lines := Lines(items, numColumns, colWidth);
    forall r | 0 <= r < |lines| ensures '\n' !in lines[r] {
      var raw := RawLine(items, rows, colWidth, r, numColumns);
      RawLineNoNewline(items, rows, colWidth, r, numColumns);
      RStripSpec(raw);
      assert lines[r] == raw[..|lines[r]|];
    }
    SplitJoin(lines, '\n');
  }

  // ---------------------------------------------------------------------------
  // When the text is empty

  /** A character of a prefix is in the whole. */
  lemma InPrefix(prefix: string, whole: string, ch: char)
    requires |prefix| <= |whole| && whole[..|prefix|] == prefix && ch in prefix
    ensures ch in whole
  {
    var k :| 0 <= k < |prefix| && prefix[k] == ch;
    assert whole[k] == ch;
  }

  /** A character of either part of a concatenation is in the whole. */
  lemma InConcat(whole: string, front: string, back: string, ch: char)
    requires whole == front + back && (ch in front || ch in back)
    ensures ch in whole
  {
    if ch in front {
      var k :| 0 <= k < |front| && front[k] == ch;
      assert whole[k] == ch;
    } else {
      var k :| 0 <= k < |back| && back[k] == ch;
      assert whole[|front| + k] == ch;
    }
  }

  lemma RawLineHasCell(items: seq<string>, rows: nat, width: int, row: nat, cols: nat, c: nat, ch: char)
    requires c < cols && ch in CellText(Cell(items, rows, row, c), width)
    ensures ch in RawLine(items, rows, width, row, cols)
  {
    RawLineStep(items, rows, width, row, c);
    InConcat(RawLine(items, rows, width, row, c + 1), RawLine(items, rows, width, row, c),
      CellText(Cell(items, rows, row, c), width), ch);
    RawLineExtends(items, rows, width, row, c + 1, cols);
    InPrefix(RawLine(items, rows, width, row, c + 1), RawLine(items, rows, width, row, cols), ch);
  }

  /** A row whose raw line holds a visible character gives a non-empty text. */
  lemma VisibleRowShows(items: seq<string>, numColumns: int, colWidth: int, row: nat, ch: char)
    requires items != [] && numColumns >= 1 && row < CeilDiv(|items|, numColumns)
    requires !IsSpace(ch) && ch in RawLine(items, CeilDiv(|items|, numColumns), colWidth, row, numColumns)
    ensures Format(items, numColumns, colWidth) != ""
  {
    var raw := RawLine(items, CeilDiv(|items|, numColumns), colWidth, row, numColumns);
    RStripSpec(raw);
    var lines := Lines(items, numColumns, colWidth);
    assert lines[row] == RStrip(raw);
    assert lines[row] != [];
    assert lines[row][0] in Format(items, numColumns, colWidth);
  }

  /** An item with a visible character makes the text non-empty. */
  lemma FormatShowsVisibleItem(items: seq<string>, numColumns: int, colWidth: int, i: nat, p: nat)
    requires numColumns >= 1 && i < |items| && p < |items[i]| && !IsSpace(items[i][p])
    ensures Format(items, numColumns, colWidth) != ""
  {
    var rows := CeilDiv(|items|, numColumns);
    CellOfItem(items, numColumns, i);
    ItemInRawLine(items, rows, colWidth, i % rows, i / rows, numColumns, p);
    VisibleRowShows(items, numColumns, colWidth, i % rows, items[i][p]);
  }

  /** Every character of a filled cell's item is in its row's raw line. */
  lemma ItemInRawLine(items: seq<string>, rows: nat, width: int, row: nat, c: nat, cols: nat, p: nat)
    requires c < cols && Cell(items, rows, row, c).Some? && p < |Cell(items, rows, row, c).value|
    ensures Cell(items, rows, row, c).value[p] in RawLine(items, rows, width, row, cols)
  {
    var item := Cell(items, rows, row, c).value;
    LJustSpec(item, width);
    assert CellText(Cell(items, rows, row, c), width)[p] == item[p];
    RawLineHasCell(items, rows, width, row, cols, c, item[p]);
  }

  lemma {:induction false} RawLineBlank(items: seq<string>, rows: nat, width: int, row: nat, cols: nat)
    requires forall i, j :: 0 <= i < |items| && 0 <= j < |items[i]| ==> IsSpace(items[i][j])
    ensures forall k :: 0 <= k < |RawLine(items, rows, width, row, cols)| ==> IsSpace(RawLine(items, rows, width, row, cols)[k])
  {
    if cols > 0 {
      RawLineBlank(items, rows, width, row, cols - 1);
      match Cell(items, rows, row, cols - 1)
      case Some(item) =>
        LJustSpec(item, width);
        var t := LJust(item, width);
        assert forall k :: 0 <= k < |item| ==> t[k] == item[k];
      case None => SpacesSpec(width);
    }
  }

  /** The converse of the empty-input rule does not hold: items that fit on one row and are all
      whitespace (the empty string among them) also give the empty text. */
  lemma BlankRowFormatsEmpty(items: seq<string>, numColumns: int, colWidth: int)
    requires 1 <= |items| <= numColumns
    requires forall i, j :: 0 <= i < |items| && 0 <= j < |items[i]| ==> IsSpace(items[i][j])
    ensures Format(items, numColumns, colWidth) == ""
  {
    var rows := CeilDiv(|items|, numColumns);
    assert rows == 1 by {
      MulCancel(rows - 1, 1, numColumns);
    }
    var raw := RawLine(items, rows, colWidth, 0, numColumns);
    RawLineBlank(items, rows, colWidth, 0, numColumns);
    RStripSpec(raw);
    assert Lines(items, numColumns, colWidth) == [RStrip(raw)];
  }
}

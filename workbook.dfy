/**
 * The loaded spreadsheet as the router sees it through ExcelJS: sheets of
 * sparse rows (`worksheet._rows`), rows of sparse cells (`row._cells`), the
 * images anchored on each sheet and the workbook's media list.
 */
module Workbook {
  import opened Wrappers

  type Bytes = seq<bv8>

  /**
   * A cell value, by what `value?.text ?? value` makes of it: a plain string,
   * an object whose `text` property is a string (a hyperlink value), any other
   * non-null value (numbers, dates, rich text, formulas), or null.
   */
  datatype CellValue = Text(s: string) | TextObject(text: string) | Other | Null

  /** A cell with its 1-based `row` and `col` numbers. */
  datatype Cell = Cell(row: int, col: int, value: CellValue)

  /** `row._cells`: None is a hole of the sparse array. */
  type Row = seq<Option<Cell>>

  /** The placement passed to `worksheet.addImage`. */
  datatype Anchor = Anchor(imageId: nat, tlCol: int, tlRow: int, width: int, height: int, editAs: string)

  /** `worksheet._rows` (None is an absent row) and the images anchored on it. */
  datatype Sheet = Sheet(rows: seq<Option<Row>>, images: seq<Anchor>)

  /** An entry of the workbook's media list, registered by `workbook.addImage`. */
  datatype Media = Media(buffer: Bytes, extension: string)

  datatype Book = Book(sheets: seq<Sheet>, media: seq<Media>)

  /** `cell.value?.text ?? cell.value`, when that is a string. */
  function CellText(v: CellValue): (r: Option<string>)
    ensures r.Some? <==> v.Text? || v.TextObject?
    ensures v.Text? ==> r == Some(v.s)
    ensures v.TextObject? ==> r == Some(v.text)
  {
    match v
    case Text(s) => Some(s)
    case TextObject(t) => Some(t)
    case Other => None
    case Null => None
  }

  /** A cell is present at sheet `s`, row slot `r`, cell slot `c`. */
  ghost predicate HasCell(b: Book, s: nat, r: nat, c: nat) {
    && s < |b.sheets|
    && r < |b.sheets[s].rows|
    && b.sheets[s].rows[r].Some?
    && c < |b.sheets[s].rows[r].value|
    && b.sheets[s].rows[r].value[c].Some?
  }

  function CellAt(b: Book, s: nat, r: nat, c: nat): Cell
    requires HasCell(b, s, r, c)
  {
    b.sheets[s].rows[r].value[c].value
  }

  /** Which slots of a row hold a cell. */
  ghost function RowShape(row: Row): seq<bool> {
    seq(|row|, c requires 0 <= c < |row| => row[c].Some?)
  }

  /** Which row slots hold a row, and the shape of each. */
  ghost function RowsShape(rows: seq<Option<Row>>): seq<Option<seq<bool>>> {
    seq(|rows|, r requires 0 <= r < |rows| => if rows[r].Some? then Some(RowShape(rows[r].value)) else None)
  }

  /** The positions of the cells of every sheet; values, images and media do not matter. */
  ghost function Shape(b: Book): seq<seq<Option<seq<bool>>>> {
    seq(|b.sheets|, s requires 0 <= s < |b.sheets| => RowsShape(b.sheets[s].rows))
  }

  /** Books of one shape hold cells at the same positions. */
  lemma ShapeHasCell(b: Book, b': Book, s: nat, r: nat, c: nat)
    requires Shape(b') == Shape(b)
    ensures HasCell(b', s, r, c) == HasCell(b, s, r, c)
  {
    assert |b'.sheets| == |Shape(b')|;
    if s < |b.sheets| {
      assert Shape(b')[s] == Shape(b)[s];
      var rs, rs' := b.sheets[s].rows, b'.sheets[s].rows;
      assert |rs'| == |RowsShape(rs')|;
      if r < |rs| {
        assert RowsShape(rs')[r] == RowsShape(rs)[r];
        if rs[r].Some? {
          assert RowShape(rs'[r].value) == RowShape(rs[r].value);
          assert |rs'[r].value| == |RowShape(rs'[r].value)|;
          if c < |rs[r].value| {
            assert RowShape(rs'[r].value)[c] == RowShape(rs[r].value)[c];
          }
        }
      }
    }
  }

  /** Overwriting a present cell keeps the shape of its row, its sheet and its book. */
  lemma ReplaceCellShape(b: Book, s: nat, r: nat, c: nat, x: Cell)
    requires HasCell(b, s, r, c)
    ensures var row := b.sheets[s].rows[r].value;
            var sheet := b.sheets[s];
            Shape(b.(sheets := b.sheets[s := sheet.(rows := sheet.rows[r := Some(row[c := Some(x)])])])) == Shape(b)
  {
    var sheet := b.sheets[s];
    var row := sheet.rows[r].value;
    var row' := row[c := Some(x)];
    var rows' := sheet.rows[r := Some(row')];
    var b' := b.(sheets := b.sheets[s := sheet.(rows := rows')]);
    assert RowShape(row') == RowShape(row);
    assert RowsShape(rows') == RowsShape(sheet.rows) by {
      forall k | 0 <= k < |rows'|
        ensures RowsShape(rows')[k] == RowsShape(sheet.rows)[k]
      {
      }
    }
    assert Shape(b') == Shape(b) by {
      forall k | 0 <= k < |b'.sheets|
        ensures Shape(b')[k] == Shape(b)[k]
      {
      }
    }
  }

  /** `cell.value = v`: only that cell's value changes. */
  function SetValue(b: Book, s: nat, r: nat, c: nat, v: CellValue): (b': Book)
    requires HasCell(b, s, r, c)
    ensures Shape(b') == Shape(b) && b'.media == b.media
    ensures forall t | 0 <= t < |b.sheets| :: b'.sheets[t].images == b.sheets[t].images
    ensures HasCell(b', s, r, c) && CellAt(b', s, r, c) == CellAt(b, s, r, c).(value := v)
  {
    var sheet := b.sheets[s];
    var row := sheet.rows[r].value;
    ReplaceCellShape(b, s, r, c, row[c].value.(value := v));
    var row' := row[c := Some(row[c].value.(value := v))];
    var sheet' := sheet.(rows := sheet.rows[r := Some(row')]);
    b.(sheets := b.sheets[s := sheet'])
  }

  /** Setting one cell leaves every other cell of the workbook as it was. */
  lemma SetValueOtherCell(b: Book, s: nat, r: nat, c: nat, v: CellValue, s': nat, r': nat, c': nat)
    requires HasCell(b, s, r, c) && HasCell(b, s', r', c') && (s', r', c') != (s, r, c)
    ensures HasCell(SetValue(b, s, r, c, v), s', r', c')
    ensures CellAt(SetValue(b, s, r, c, v), s', r', c') == CellAt(b, s', r', c')
  {
  }

  /** `workbook.addImage`: the media list grows by one; its index is the image id. */
  function AddMedia(b: Book, m: Media): (b': Book)
    ensures b'.sheets == b.sheets && b'.media == b.media + [m]
  {
    b.(media := b.media + [m])
  }

  /** Anchoring a picture changes no cell. */
  lemma AddAnchorCell(b: Book, s: nat, a: Anchor, s': nat, r': nat, c': nat)
    requires s < |b.sheets| && HasCell(b, s', r', c')
    ensures HasCell(AddAnchor(b, s, a), s', r', c')
    ensures CellAt(AddAnchor(b, s, a), s', r', c') == CellAt(b, s', r', c')
  {
  }

  /** `worksheet.addImage`: one more anchor on sheet `s`. */
  function AddAnchor(b: Book, s: nat, a: Anchor): (b': Book)
    requires s < |b.sheets|
    ensures Shape(b') == Shape(b) && b'.media == b.media
    ensures |b'.sheets| == |b.sheets| && b'.sheets[s].images == b.sheets[s].images + [a]
    ensures forall t | 0 <= t < |b.sheets| && t != s :: b'.sheets[t] == b.sheets[t]
    ensures forall t | 0 <= t < |b.sheets| :: b'.sheets[t].rows == b.sheets[t].rows
  {
    var b' := b.(sheets := b.sheets[s := b.sheets[s].(images := b.sheets[s].images + [a])]);
    assert Shape(b') == Shape(b) by {
      forall k | 0 <= k < |b'.sheets|
        ensures Shape(b')[k] == Shape(b)[k]
      {
        assert b'.sheets[k].rows == b.sheets[k].rows;
      }
    }
    b'
  }
}

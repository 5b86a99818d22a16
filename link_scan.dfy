/**
 * The link scan of `processExcelWithImages`: walk sheets, present rows and
 * cells in order, and register every cell whose text is an image URL in
 * `imageCellMap` (url to cells) and `imageTasks` (one url per cell).
 */
module LinkScan {
  import opened Wrappers
  import opened Strings
  import opened ImageExtension
  import opened Workbook

  /** An `imageCellMap` entry: the cell's position, its url and extension. */
  datatype ImageRef = ImageRef(sheet: nat, row: nat, slot: nat, url: string, ext: string)

  /** `new URL(text)`: None when the constructor throws. */
  type Parser = string -> Option<Url>

  /** What the scan makes of one present cell: a registration, or nothing. */
  function CellRef(s: nat, r: nat, c: nat, cell: Cell, parse: Parser): (x: Option<ImageRef>)
    ensures x.Some? ==> x.value.sheet == s && x.value.row == r && x.value.slot == c
    ensures x.Some? ==> CellText(cell.value) == Some(x.value.url) && StartsWith(x.value.url, "http")
    ensures x.Some? ==> x.value.ext in ValidExts
    ensures CellText(cell.value).None? ==> x.None?
  {
    match CellText(cell.value)
    case None => None
    case Some(t) =>
      if !StartsWith(t, "http") then None
      else
        match GetImageExtensionFromUrl(parse(t))
        case None => None
        case Some(ext) => Some(ImageRef(s, r, c, t, ext))
  }

  /**
   * A cell is registered exactly when its value (or `value.text`) is a
   * string that starts with "http" and whose URL has a whitelisted
   * extension; the registration records the cell's position and that url.
   */
  lemma CellRefMeaning(s: nat, r: nat, c: nat, cell: Cell, parse: Parser)
    ensures CellRef(s, r, c, cell, parse).Some? <==>
      && CellText(cell.value).Some?
      && StartsWith(CellText(cell.value).value, "http")
      && GetImageExtensionFromUrl(parse(CellText(cell.value).value)).Some?
    ensures CellRef(s, r, c, cell, parse).Some? ==>
      var ref := CellRef(s, r, c, cell, parse).value;
      && ref.sheet == s && ref.row == r && ref.slot == c
      && CellText(cell.value) == Some(ref.url)
      && GetImageExtensionFromUrl(parse(ref.url)) == Some(ref.ext)
      && ref.ext in ValidExts
  {
  }

  /** One slot of `row._cells`; a hole registers nothing. */
  function SlotRefs(s: nat, r: nat, c: nat, slot: Option<Cell>, parse: Parser): seq<ImageRef> {
    if slot.None? then []
    else
      match CellRef(s, r, c, slot.value, parse)
      case None => []
      case Some(ref) => [ref]
  }

  /** The registrations of the first |cells| slots of a row, in visit order. */
  function RowRefs(s: nat, r: nat, cells: Row, parse: Parser): (refs: seq<ImageRef>)
    ensures forall y | y in refs :: y.sheet == s && y.row == r && y.slot < |cells|
    decreases |cells|
  {
    if |cells| == 0 then []
    else RowRefs(s, r, cells[..|cells| - 1], parse) + SlotRefs(s, r, |cells| - 1, cells[|cells| - 1], parse)
  }

  /** One slot of the sheet's rows; an absent row registers nothing. */
  function RowSlotRefs(s: nat, r: nat, row: Option<Row>, parse: Parser): (refs: seq<ImageRef>)
    ensures forall y | y in refs :: y.sheet == s && y.row == r
  {
    if row.None? then [] else RowRefs(s, r, row.value, parse)
  }

  /** The registrations of the first |rows| row slots of sheet `s`. */
  function SheetRefs(s: nat, rows: seq<Option<Row>>, parse: Parser): (refs: seq<ImageRef>)
    ensures forall y | y in refs :: y.sheet == s && y.row < |rows|
    decreases |rows|
  {
    if |rows| == 0 then []
    else
      var last := |rows| - 1;
      SheetRefs(s, rows[..last], parse) + RowSlotRefs(s, last, rows[last], parse)
  }

  /** The registrations of the first |sheets| sheets. */
  function BookRefs(sheets: seq<Sheet>, parse: Parser): (refs: seq<ImageRef>)
    ensures forall y | y in refs :: y.sheet < |sheets|
    decreases |sheets|
  {
    if |sheets| == 0 then []
    else BookRefs(sheets[..|sheets| - 1], parse) + SheetRefs(|sheets| - 1, sheets[|sheets| - 1].rows, parse)
  }

  /** `imageCellMap` after registering `refs` in order. */
  function Index(refs: seq<ImageRef>): map<string, seq<ImageRef>>
    decreases |refs|
  {
    if |refs| == 0 then map[]
    else
      var m := Index(refs[..|refs| - 1]);
      var ref := refs[|refs| - 1];
      m[ref.url := (if ref.url in m then m[ref.url] else []) + [ref]]
  }

  /** `imageTasks` after registering `refs` in order: one url per registration. */
  function Urls(refs: seq<ImageRef>): seq<string> {
    seq(|refs|, i requires 0 <= i < |refs| => refs[i].url)
  }

  /** The registrations for `u`, in order. */
  function Filter(refs: seq<ImageRef>, u: string): (f: seq<ImageRef>)
    ensures |f| <= |refs|
    decreases |refs|
  {
    if |refs| == 0 then []
    else Filter(refs[..|refs| - 1], u) + if refs[|refs| - 1].url == u then [refs[|refs| - 1]] else []
  }

  /** Every key of `imageCellMap` holds exactly the registrations of its url, in order, and at least one. */
  lemma {:induction false} IndexIsFilter(refs: seq<ImageRef>, u: string)
    ensures u in Index(refs) <==> Filter(refs, u) != []
    ensures u in Index(refs) ==> Index(refs)[u] == Filter(refs, u)
  {
    if |refs| > 0 {
      IndexIsFilter(refs[..|refs| - 1], u);
    }
  }

  /** `imageTasks` holds each url as often as `imageCellMap` lists cells for it. */
  lemma {:induction false} TaskCountIsListLength(refs: seq<ImageRef>, u: string)
    ensures multiset(Urls(refs))[u] == |Filter(refs, u)|
    ensures |Urls(refs)| == |refs|
  {
    if |refs| > 0 {
      var init := refs[..|refs| - 1];
      TaskCountIsListLength(init, u);
      assert Urls(refs) == Urls(init) + [refs[|refs| - 1].url];
    }
  }

  /** Lexicographic order of positions: the order in which the scan visits cells. */
  predicate Before(a: ImageRef, b: ImageRef) {
    a.sheet < b.sheet || (a.sheet == b.sheet && (a.row < b.row || (a.row == b.row && a.slot < b.slot)))
  }

  ghost predicate InVisitOrder(refs: seq<ImageRef>) {
    forall i, j | 0 <= i < j < |refs| :: Before(refs[i], refs[j])
  }

  lemma {:induction false} RowRefsOrdered(s: nat, r: nat, cells: Row, parse: Parser)
    ensures InVisitOrder(RowRefs(s, r, cells, parse))
  {
    if |cells| > 0 {
      RowRefsOrdered(s, r, cells[..|cells| - 1], parse);
    }
  }

  lemma {:induction false} SheetRefsOrdered(s: nat, rows: seq<Option<Row>>, parse: Parser)
    ensures InVisitOrder(SheetRefs(s, rows, parse))
  {
    if |rows| > 0 {
      var last := |rows| - 1;
      SheetRefsOrdered(s, rows[..last], parse);
      if rows[last].Some? {
        RowRefsOrdered(s, last, rows[last].value, parse);
      }
    }
  }

  /**
   * The registrations come in visit order, so no cell is registered twice:
   * `imageTasks` has exactly one entry per qualifying cell.
   */
  lemma {:induction false} BookRefsOrdered(sheets: seq<Sheet>, parse: Parser)
    ensures InVisitOrder(BookRefs(sheets, parse))
  {
    if |sheets| > 0 {
      var last := |sheets| - 1;
      BookRefsOrdered(sheets[..last], parse);
      SheetRefsOrdered(last, sheets[last].rows, parse);
    }
  }

  lemma SlotMember(s: nat, r: nat, c: nat, slot: Option<Cell>, parse: Parser, x: ImageRef)
    ensures x in SlotRefs(s, r, c, slot, parse) <==> slot.Some? && CellRef(s, r, c, slot.value, parse) == Some(x)
    ensures x in SlotRefs(s, r, c, slot, parse) ==> x.sheet == s && x.row == r && x.slot == c
  {
  }

  lemma {:induction false} RowMember(s: nat, r: nat, cells: Row, parse: Parser, x: ImageRef)
    ensures x in RowRefs(s, r, cells, parse) <==> x.slot < |cells| && x in SlotRefs(s, r, x.slot, cells[x.slot], parse)
  {
    if |cells| > 0 {
      var last := |cells| - 1;
      var init := cells[..last];
      RowMember(s, r, init, parse, x);
      SlotMember(s, r, last, cells[last], parse, x);
      if x.slot < |cells| {
        SlotMember(s, r, x.slot, cells[x.slot], parse, x);
      }
      assert RowRefs(s, r, cells, parse) == RowRefs(s, r, init, parse) + SlotRefs(s, r, last, cells[last], parse);
      if x.slot < last {
        assert init[x.slot] == cells[x.slot];
      }
    }
  }

  lemma {:induction false} SheetMember(s: nat, rows: seq<Option<Row>>, parse: Parser, x: ImageRef)
    ensures x in SheetRefs(s, rows, parse) <==> x.row < |rows| && x in RowSlotRefs(s, x.row, rows[x.row], parse)
  {
    if |rows| > 0 {
      var last := |rows| - 1;
      var init := rows[..last];
      SheetMember(s, init, parse, x);
      assert SheetRefs(s, rows, parse) == SheetRefs(s, init, parse) + RowSlotRefs(s, last, rows[last], parse);
      if x.row < last {
        assert init[x.row] == rows[x.row];
      }
    }
  }

  lemma {:induction false} BookMember(sheets: seq<Sheet>, parse: Parser, x: ImageRef)
    ensures x in BookRefs(sheets, parse) <==>
      x.sheet < |sheets| && x in SheetRefs(x.sheet, sheets[x.sheet].rows, parse)
  {
    if |sheets| > 0 {
      var last := |sheets| - 1;
      var init := sheets[..last];
      var front, back := BookRefs(init, parse), SheetRefs(last, sheets[last].rows, parse);
      BookMember(init, parse, x);
      assert BookRefs(sheets, parse) == front + back;
      if x.sheet < last {
        assert init[x.sheet] == sheets[x.sheet];
      }
    }
  }

  /**
   * A registration names a present cell whose text is the url, starts with
   * "http" and has a whitelisted extension; and every such cell is registered.
   * Non-string values, other strings and other urls never are.
   */
  lemma ScanRegistersExactly(b: Book, parse: Parser, x: ImageRef)
    ensures x in BookRefs(b.sheets, parse) <==>
      HasCell(b, x.sheet, x.row, x.slot) && CellRef(x.sheet, x.row, x.slot, CellAt(b, x.sheet, x.row, x.slot), parse) == Some(x)
  {
    BookMember(b.sheets, parse, x);
    if x.sheet < |b.sheets| {
      var rows := b.sheets[x.sheet].rows;
      SheetMember(x.sheet, rows, parse, x);
      if x.row < |rows| && rows[x.row].Some? {
        var cells := rows[x.row].value;
        RowMember(x.sheet, x.row, cells, parse, x);
        if x.slot < |cells| {
          SlotMember(x.sheet, x.row, x.slot, cells[x.slot], parse, x);
        }
      }
    }
  }

  lemma RowStep(s: nat, r: nat, cells: Row, c: nat, parse: Parser)
    requires c < |cells|
    ensures RowRefs(s, r, cells[..c + 1], parse) == RowRefs(s, r, cells[..c], parse) + SlotRefs(s, r, c, cells[c], parse)
  {
    assert cells[..c + 1][..c] == cells[..c];
  }

  lemma SheetStep(s: nat, rows: seq<Option<Row>>, r: nat, parse: Parser)
    requires r < |rows|
    ensures SheetRefs(s, rows[..r + 1], parse) ==
      SheetRefs(s, rows[..r], parse) + RowSlotRefs(s, r, rows[r], parse)
  {
    assert rows[..r + 1][..r] == rows[..r];
  }

  lemma BookStep(sheets: seq<Sheet>, s: nat, parse: Parser)
    requires s < |sheets|
    ensures BookRefs(sheets[..s + 1], parse) == BookRefs(sheets[..s], parse) + SheetRefs(s, sheets[s].rows, parse)
  {
    assert sheets[..s + 1][..s] == sheets[..s];
  }

  lemma RegisterStep(refs: seq<ImageRef>, ref: ImageRef)
    ensures Index(refs + [ref]) == Index(refs)[ref.url := (if ref.url in Index(refs) then Index(refs)[ref.url] else []) + [ref]]
    ensures Urls(refs + [ref]) == Urls(refs) + [ref.url]
  {
    assert (refs + [ref])[..|refs|] == refs;
  }

  lemma Reassociate(a: seq<ImageRef>, b: seq<ImageRef>, c: seq<ImageRef>)
    ensures a + b + c == a + (b + c)
  {
  }

  lemma SlotSkipped(s: nat, r: nat, c: nat, slot: Option<Cell>, parse: Parser)
    requires slot.Some? ==> (CellText(slot.value.value).Some? && StartsWith(CellText(slot.value.value).value, "http") ==>
      GetImageExtensionFromUrl(parse(CellText(slot.value.value).value)).None?)
    ensures SlotRefs(s, r, c, slot, parse) == []
  {
  }

  lemma SlotRegistered(s: nat, r: nat, c: nat, cell: Cell, parse: Parser, url: string, ext: string)
    requires CellText(cell.value) == Some(url) && StartsWith(url, "http")
    requires GetImageExtensionFromUrl(parse(url)) == Some(ext)
    ensures SlotRefs(s, r, c, Some(cell), parse) == [ImageRef(s, r, c, url, ext)]
  {
  }

  /**
   * The innermost loop of the scan, over the slots of one present row.
   * Holes in `row._cells` are skipped, which is the evident intent of the
   * `!cell` test (see ScanAsWritten for the code as written).
   */
  method ScanRow(s: nat, r: nat, cells: Row, parse: Parser, ghost refs: seq<ImageRef>,
                 imageCellMap: map<string, seq<ImageRef>>, imageTasks: seq<string>)
    returns (cellMap': map<string, seq<ImageRef>>, tasks': seq<string>)
    requires imageCellMap == Index(refs) && imageTasks == Urls(refs)
    ensures cellMap' == Index(refs + RowRefs(s, r, cells, parse))
    ensures tasks' == Urls(refs + RowRefs(s, r, cells, parse))
  {
    ghost var acc := refs;
    cellMap', tasks' := imageCellMap, imageTasks;
    for c := 0 to |cells|
      invariant acc == refs + RowRefs(s, r, cells[..c], parse)
      invariant cellMap' == Index(acc) && tasks' == Urls(acc)
    {
      RowStep(s, r, cells, c, parse);
      Reassociate(refs, RowRefs(s, r, cells[..c], parse), SlotRefs(s, r, c, cells[c], parse));
      var found := false;
      if cells[c].Some? {
        var text := CellText(cells[c].value.value);
        if text.Some? && StartsWith(text.value, "http") {
          var ext := GetImageExtensionFromUrl(parse(text.value));
          if ext.Some? {
            var ref := ImageRef(s, r, c, text.value, ext.value);
            SlotRegistered(s, r, c, cells[c].value, parse, text.value, ext.value);
            RegisterStep(acc, ref);
            var list := if text.value in cellMap' then cellMap'[text.value] else [];
            cellMap' := cellMap'[text.value := list + [ref]];
            tasks' := tasks' + [text.value];
            acc := acc + [ref];
            found := true;
          }
        }
      }
      if !found {
        SlotSkipped(s, r, c, cells[c], parse);
      }
    }
    assert cells[..|cells|] == cells;
  }

  /** The scan: every sheet, every present row, every slot, in that order. */
  method ScanLinks(b: Book, parse: Parser) returns (imageCellMap: map<string, seq<ImageRef>>, imageTasks: seq<string>)
    ensures imageCellMap == Index(BookRefs(b.sheets, parse))
    ensures imageTasks == Urls(BookRefs(b.sheets, parse))
  {
    ghost var refs: seq<ImageRef> := [];
    imageCellMap, imageTasks := map[], [];
    for s := 0 to |b.sheets|
      invariant refs == BookRefs(b.sheets[..s], parse)
      invariant imageCellMap == Index(refs) && imageTasks == Urls(refs)
    {
      var rows := b.sheets[s].rows;
      ghost var sheetStart := refs;
      for r := 0 to |rows|
        invariant refs == sheetStart + SheetRefs(s, rows[..r], parse)
        invariant imageCellMap == Index(refs) && imageTasks == Urls(refs)
      {
        SheetStep(s, rows, r, parse);
        Reassociate(sheetStart, SheetRefs(s, rows[..r], parse), RowSlotRefs(s, r, rows[r], parse));
        if rows[r].Some? {
          var cells := rows[r].value;
          imageCellMap, imageTasks := ScanRow(s, r, cells, parse, refs, imageCellMap, imageTasks);
          refs := refs + RowRefs(s, r, cells, parse);
        } else {
          assert refs + RowSlotRefs(s, r, rows[r], parse) == refs;
        }
      }
      assert rows[..|rows|] == rows;
      BookStep(b.sheets, s, parse);
      Reassociate(BookRefs(b.sheets[..s], parse), [], SheetRefs(s, rows, parse));
    }
    assert b.sheets[..|b.sheets|] == b.sheets;
  }

  lemma {:induction false} FilterMember(refs: seq<ImageRef>, u: string, x: ImageRef)
    ensures x in Filter(refs, u) <==> x in refs && x.url == u
  {
    if |refs| > 0 {
      var init, last := refs[..|refs| - 1], refs[|refs| - 1];
      FilterMember(init, u, x);
      assert refs == init + [last];
      assert x in refs <==> x in init || x == last;
    }
  }

  /**
   * After the scan, `imageCellMap.get(u)` lists exactly the cells whose
   * text is `u`, starts with "http" and has a whitelisted extension; a url
   * is a key exactly when at least one such cell exists.
   */
  lemma ScanMapMeaning(b: Book, parse: Parser, u: string, x: ImageRef)
    ensures var m := Index(BookRefs(b.sheets, parse));
      u in m && x in m[u] <==>
        x.url == u && HasCell(b, x.sheet, x.row, x.slot) &&
        CellRef(x.sheet, x.row, x.slot, CellAt(b, x.sheet, x.row, x.slot), parse) == Some(x)
  {
    var refs := BookRefs(b.sheets, parse);
    IndexIsFilter(refs, u);
    FilterMember(refs, u, x);
    ScanRegistersExactly(b, parse, x);
  }

  /** The sparse `_cells` array of a present row has a hole. */
  predicate RowHasHole(cells: Row) {
    exists c | 0 <= c < |cells| :: cells[c].None?
  }

  /** Some present row of the sheet has a hole. */
  predicate SheetHasHole(rows: seq<Option<Row>>) {
    exists r | 0 <= r < |rows| && rows[r].Some? :: RowHasHole(rows[r].value)
  }

  /** Some present row of the workbook has a hole in its sparse `_cells` array. */
  predicate HasHole(b: Book) {
    exists s | 0 <= s < |b.sheets| :: SheetHasHole(b.sheets[s].rows)
  }

  /**
   * One slot as the loop body is written: `cell.value` is read before the
   * `!cell` test, so a hole throws (None); a present cell is then tested
   * exactly as in SlotRefs.
   */
  function SlotAsWritten(s: nat, r: nat, c: nat, slot: Option<Cell>, parse: Parser): Option<seq<ImageRef>> {
    if slot.None? then None
    else Some(SlotRefs(s, r, c, slot, parse))
  }

  /** The slot loop as written: the first hole visited aborts it. */
  function RowAsWritten(s: nat, r: nat, cells: Row, parse: Parser): Option<seq<ImageRef>>
    decreases |cells|
  {
    if |cells| == 0 then Some([])
    else
      var last := |cells| - 1;
      match RowAsWritten(s, r, cells[..last], parse)
      case None => None
      case Some(front) =>
        match SlotAsWritten(s, r, last, cells[last], parse)
        case None => None
        case Some(here) => Some(front + here)
  }

  /** The row loop as written: `if (!row) continue;` skips absent rows, a failing row aborts it. */
  function SheetAsWritten(s: nat, rows: seq<Option<Row>>, parse: Parser): Option<seq<ImageRef>>
    decreases |rows|
  {
    if |rows| == 0 then Some([])
    else
      var last := |rows| - 1;
      match SheetAsWritten(s, rows[..last], parse)
      case None => None
      case Some(front) =>
        if rows[last].None? then Some(front)
        else
          match RowAsWritten(s, last, rows[last].value, parse)
          case None => None
          case Some(here) => Some(front + here)
  }

  /** The worksheet loop as written. */
  function BookAsWritten(sheets: seq<Sheet>, parse: Parser): Option<seq<ImageRef>>
    decreases |sheets|
  {
    if |sheets| == 0 then Some([])
    else
      var last := |sheets| - 1;
      match BookAsWritten(sheets[..last], parse)
      case None => None
      case Some(front) =>
        match SheetAsWritten(last, sheets[last].rows, parse)
        case None => None
        case Some(here) => Some(front + here)
  }

  /** The scan as written: a thrown TypeError (None), or the map and task list it built. */
  function ScanAsWritten(b: Book, parse: Parser): Option<(map<string, seq<ImageRef>>, seq<string>)> {
    match BookAsWritten(b.sheets, parse)
    case None => None
    case Some(refs) => Some((Index(refs), Urls(refs)))
  }

  lemma RowHoleStep(cells: Row)
    requires |cells| > 0
    ensures RowHasHole(cells) <==> RowHasHole(cells[..|cells| - 1]) || cells[|cells| - 1].None?
  {
    var init := cells[..|cells| - 1];
    if RowHasHole(init) {
      var c :| 0 <= c < |init| && init[c].None?;
      assert cells[c].None?;
    }
    if RowHasHole(cells) {
      var c :| 0 <= c < |cells| && cells[c].None?;
      if c < |init| {
        assert init[c].None?;
      }
    }
  }

  lemma {:induction false} RowAsWrittenMeaning(s: nat, r: nat, cells: Row, parse: Parser)
    ensures RowAsWritten(s, r, cells, parse).None? <==> RowHasHole(cells)
    ensures RowAsWritten(s, r, cells, parse).Some? ==> RowAsWritten(s, r, cells, parse).value == RowRefs(s, r, cells, parse)
    decreases |cells|
  {
    if |cells| > 0 {
      var last := |cells| - 1;
      RowAsWrittenMeaning(s, r, cells[..last], parse);
      RowHoleStep(cells);
    } else {
      assert !RowHasHole(cells);
    }
  }

  lemma SheetHoleStep(rows: seq<Option<Row>>)
    requires |rows| > 0
    ensures SheetHasHole(rows) <==>
      SheetHasHole(rows[..|rows| - 1]) || (rows[|rows| - 1].Some? && RowHasHole(rows[|rows| - 1].value))
  {
    var init := rows[..|rows| - 1];
    if SheetHasHole(init) {
      var r :| 0 <= r < |init| && init[r].Some? && RowHasHole(init[r].value);
      assert rows[r] == init[r];
    }
    if SheetHasHole(rows) {
      var r :| 0 <= r < |rows| && rows[r].Some? && RowHasHole(rows[r].value);
      if r < |init| {
        assert init[r] == rows[r];
      }
    }
  }

  lemma {:induction false} SheetAsWrittenMeaning(s: nat, rows: seq<Option<Row>>, parse: Parser)
    ensures SheetAsWritten(s, rows, parse).None? <==> SheetHasHole(rows)
    ensures SheetAsWritten(s, rows, parse).Some? ==> SheetAsWritten(s, rows, parse).value == SheetRefs(s, rows, parse)
    decreases |rows|
  {
    if |rows| > 0 {
      var last := |rows| - 1;
      SheetAsWrittenMeaning(s, rows[..last], parse);
      SheetHoleStep(rows);
      if rows[last].Some? {
        RowAsWrittenMeaning(s, last, rows[last].value, parse);
      }
    } else {
      assert !SheetHasHole(rows);
    }
  }

  lemma {:induction false} BookAsWrittenMeaning(sheets: seq<Sheet>, parse: Parser)
    ensures BookAsWritten(sheets, parse).None? <==> exists s | 0 <= s < |sheets| :: SheetHasHole(sheets[s].rows)
    ensures BookAsWritten(sheets, parse).Some? ==> BookAsWritten(sheets, parse).value == BookRefs(sheets, parse)
    decreases |sheets|
  {
    if |sheets| > 0 {
      var last := |sheets| - 1;
      var init := sheets[..last];
      BookAsWrittenMeaning(init, parse);
      SheetAsWrittenMeaning(last, sheets[last].rows, parse);
      if exists s | 0 <= s < |init| :: SheetHasHole(init[s].rows) {
        var s :| 0 <= s < |init| && SheetHasHole(init[s].rows);
        assert sheets[s] == init[s];
      }
      if (exists s | 0 <= s < |sheets| :: SheetHasHole(sheets[s].rows)) && !SheetHasHole(sheets[last].rows) {
        var s :| 0 <= s < |sheets| && SheetHasHole(sheets[s].rows);
        assert init[s] == sheets[s];
      }
    }
  }

  /**
   * The scan as written throws exactly when some present row has a hole;
   * on every workbook without one it builds what ScanLinks builds.
   */
  lemma ScanAsWrittenMeaning(b: Book, parse: Parser)
    ensures ScanAsWritten(b, parse).None? <==> HasHole(b)
    ensures ScanAsWritten(b, parse).Some? ==>
      ScanAsWritten(b, parse).value == (Index(BookRefs(b.sheets, parse)), Urls(BookRefs(b.sheets, parse)))
  {
    BookAsWrittenMeaning(b.sheets, parse);
  }

  /** A workbook whose only row has values in A1 and C1 and nothing ever written to B1. */
  function HoleBook(): Book {
    Book([Sheet([Some([Some(Cell(1, 1, Other)), None, Some(Cell(1, 3, Other))])], [])], [])
  }

  lemma HoleBookHasHole()
    ensures HasHole(HoleBook())
  {
    var rows := HoleBook().sheets[0].rows;
    assert rows[0].value[1].None?;
    assert RowHasHole(rows[0].value);
    assert SheetHasHole(rows);
  }

  lemma {:induction false} HoleRowRefs(parse: Parser)
    ensures RowRefs(0, 0, HoleBook().sheets[0].rows[0].value, parse) == []
  {
    var cells := HoleBook().sheets[0].rows[0].value;
    assert RowRefs(0, 0, cells[..1], parse) == [] by {
      RowStep(0, 0, cells, 0, parse);
      SlotSkipped(0, 0, 0, cells[0], parse);
      assert cells[..0] == [];
    }
    assert RowRefs(0, 0, cells[..2], parse) == [] by {
      RowStep(0, 0, cells, 1, parse);
      SlotSkipped(0, 0, 1, cells[1], parse);
    }
    RowStep(0, 0, cells, 2, parse);
    SlotSkipped(0, 0, 2, cells[2], parse);
    assert cells[..3] == cells;
  }

  /**
   * On HoleBook the scan as written fails (and the job ends in 'error'),
   * whereas skipping the hole finds no links and the job completes with the
   * workbook unchanged.
   */
  lemma {:induction false} HoleAbortsScan(parse: Parser)
    ensures ScanAsWritten(HoleBook(), parse).None?
    ensures BookRefs(HoleBook().sheets, parse) == []
  {
    HoleBookHasHole();
    ScanAsWrittenMeaning(HoleBook(), parse);
    HoleSheetRefs(parse);
    var sheets := HoleBook().sheets;
    BookStep(sheets, 0, parse);
    assert sheets[..1] == sheets && sheets[..0] == [];
  }

  lemma {:induction false} HoleSheetRefs(parse: Parser)
    ensures SheetRefs(0, HoleBook().sheets[0].rows, parse) == []
  {
    var rows := HoleBook().sheets[0].rows;
    HoleRowRefs(parse);
    SheetStep(0, rows, 0, parse);
    assert rows[..1] == rows && rows[..0] == [];
  }

  /**
   * In any workbook with a hole, the scan as written fails, although every
   * image link in it, in the same row or elsewhere, is one that skipping
   * holes registers.
   */
  lemma HoleHidesLinks(b: Book, parse: Parser, x: ImageRef)
    requires HasHole(b)
    requires HasCell(b, x.sheet, x.row, x.slot)
    requires CellRef(x.sheet, x.row, x.slot, CellAt(b, x.sheet, x.row, x.slot), parse) == Some(x)
    ensures ScanAsWritten(b, parse).None?
    ensures x.url in Index(BookRefs(b.sheets, parse)) && x in Index(BookRefs(b.sheets, parse))[x.url]
  {
    ScanAsWrittenMeaning(b, parse);
    ScanMapMeaning(b, parse, x.url, x);
  }
}

/** The board component: the occupancy map with the selection and the two
    form inputs, the handlers that change them, and the render loop that
    turns the map into rows of slots. */
module WishingTree {
  import opened Records
  import opened Keys
  import opened Geometry
  import opened Palette
  import opened Occupancy

  /** The author recorded when the author input is left empty. */
  const AnonymousAuthor: string := "Anonymous"

  /** The wish `handleSubmit` builds for the selected slot: the message as
      typed, the author or the anonymous label, the palette name at the
      drawn index, the selected position, and no id. */
  function NewWish(slot: Slot, message: string, author: string, colorIdx: int): (w: Wish)
    requires 0 <= colorIdx < |ColorKeys|
    ensures KeyOf(w) == SlotKey(slot.row, slot.col)
    ensures w.grid_row == slot.row && w.grid_col == slot.col
    ensures w.id == None && w.message == message
    ensures w.author != ""
    ensures author != "" ==> w.author == author
    ensures author == "" ==> w.author == AnonymousAuthor
    ensures w.color in ColorMap && ResolveColor(w.color) == ColorMap[w.color]
  {
    ColorKeysArePalette();
    Wish(None, message, if author == "" then AnonymousAuthor else author, ColorKeys[colorIdx], slot.row, slot.col)
  }

  /** What the render loop draws at one position: an empty slot's button, or
      an occupied slot's marker carrying its wish and colour class. */
  datatype CellState = Open | Taken(wish: Wish, cls: string)

  datatype Cell = Cell(row: int, col: int, state: CellState)

  /** The slot the render loop draws at (r, c) for the map m. */
  function CellAt(m: Slots, r: int, c: int): (cell: Cell)
    ensures cell.row == r && cell.col == c
    ensures cell.state.Taken? <==> SlotKey(r, c) in m
    ensures cell.state.Taken? ==> cell.state.wish == m[SlotKey(r, c)] && cell.state.cls in ColorMap.Values
  {
    var key := SlotKey(r, c);
    if key in m then Cell(r, c, Taken(m[key], ResolveColor(m[key].color))) else Cell(r, c, Open)
  }

  /** An occupied marker is drawn with the class its stored colour resolves to. */
  lemma CellColorIsResolved(m: Slots, r: int, c: int)
    requires SlotKey(r, c) in m
    ensures CellAt(m, r, c).state.Taken?
    ensures CellAt(m, r, c).state.cls == ResolveColor(m[SlotKey(r, c)].color)
  {
  }

  /** Row r as drawn: one cell per column of the row, left to right. */
  function RowCells(m: Slots, r: int): seq<Cell> {
    seq(|Columns(r)|, i requires 0 <= i < |Columns(r)| => CellAt(m, r, Columns(r)[i]))
  }

  /** Total number of cells in a rendering. */
  function TotalCells(rows: seq<seq<Cell>>): nat {
    if rows == [] then 0 else TotalCells(rows[..|rows| - 1]) + |rows[|rows| - 1]|
  }

  /** Row r draws 2r - 1 cells, the i-th at column i - (r - 1). */
  lemma RowCellsShape(m: Slots, r: int)
    requires r >= 1
    ensures |RowCells(m, r)| == 2 * r - 1
    ensures forall i :: 0 <= i < 2 * r - 1 ==> RowCells(m, r)[i] == CellAt(m, r, i - (r - 1))
  {
    var cols := Columns(r);
    forall i | 0 <= i < 2 * r - 1
      ensures RowCells(m, r)[i] == CellAt(m, r, i - (r - 1))
    {
      assert cols[i] == i - (r - 1);
    }
  }

  /** In a well-keyed map, every occupied marker shows the wish hung at that
      very position, so a wish is drawn at one position at most. */
  lemma MarkerShowsOwnWish(m: Slots, r: int, c: int)
    requires WellKeyed(m)
    requires CellAt(m, r, c).state.Taken?
    ensures CellAt(m, r, c).state.wish.grid_row == r
    ensures CellAt(m, r, c).state.wish.grid_col == c
  {
    var w := CellAt(m, r, c).state.wish;
    assert KeyOf(w) == SlotKey(r, c);
    SlotKeyInjective(w.grid_row, w.grid_col, r, c);
  }

  /** A wish stored by a keyed write at an on-board position is drawn in its
      row, at its column, with its resolved colour. */
  lemma StoredWishIsDrawn(m: Slots, w: Wish)
    requires OnBoard(w.grid_row, w.grid_col)
    ensures w.grid_col + w.grid_row - 1 < |RowCells(Put(m, w), w.grid_row)|
    ensures RowCells(Put(m, w), w.grid_row)[w.grid_col + w.grid_row - 1] ==
            Cell(w.grid_row, w.grid_col, Taken(w, ResolveColor(w.color)))
  {
    RowCellsShape(Put(m, w), w.grid_row);
  }

  /** The i-th cell the inner render loop visits in row r. */
  lemma RowCellAt(m: Slots, r: int, i: int)
    requires 0 <= i < SlotsCount(r)
    ensures |RowCells(m, r)| == SlotsCount(r)
    ensures RowCells(m, r)[i] == CellAt(m, r, StartCol(r) + i)
  {
    assert Columns(r)[i] == StartCol(r) + i;
  }

  /** Appending the next row keeps a rendering's rows in order. */
  lemma RowsAppend(m: Slots, rows: seq<seq<Cell>>, r: int)
    requires |rows| == r - 1
    requires forall k :: 0 <= k < |rows| ==> rows[k] == RowCells(m, k + 1)
    ensures forall k :: 0 <= k < |rows| + 1 ==> (rows + [RowCells(m, r)])[k] == RowCells(m, k + 1)
  {
  }

  lemma TotalCellsAppend(rows: seq<seq<Cell>>, row: seq<Cell>)
    ensures TotalCells(rows + [row]) == TotalCells(rows) + |row|
  {
    assert (rows + [row])[..|rows|] == rows;
  }

  /** The page component's state. */
  class Board {
    var slots: Slots
    var selected: Option<Slot>
    var newMessage: string
    var newAuthor: string

    /** Entries sit under their own key, and a selection is a board position. */
    ghost predicate Valid()
      reads this
    {
      && WellKeyed(slots)
      && (selected.Some? ==> OnBoard(selected.value.row, selected.value.col))
    }

    /** The initial state: an empty map, no selection, empty inputs. */
    constructor ()
      ensures Valid()
      ensures slots == map[] && selected == None && newMessage == "" && newAuthor == ""
    {
      slots := map[];
      selected := None;
      newMessage := "";
      newAuthor := "";
    }

    /** `fetchWishes`: with rows read, a fresh map is filled from them in
        order and replaces the old one; with no rows, nothing changes. */
    method Bootstrap(data: Option<seq<Wish>>)
      requires Valid()
      modifies this`slots
      ensures Valid()
      ensures data.None? ==> slots == old(slots)
      ensures data.Some? ==> slots == Apply(map[], data.value)
    {
      if data.Some? {
        var wishes := data.value;
        var slotMap: Slots := map[];
        var i := 0;
        while i < |wishes|
          invariant 0 <= i <= |wishes|
          invariant WellKeyed(slotMap)
          invariant Apply(slotMap, wishes[i..]) == Apply(map[], wishes)
        {
          var wish := wishes[i];
          assert wishes[i..][1..] == wishes[i + 1..];
          PutKeepsWellKeyed(slotMap, wish);
          slotMap := slotMap[SlotKey(wish.grid_row, wish.grid_col) := wish];
          i := i + 1;
        }
        slots := slotMap;
      }
    }

    /** The live-feed insert handler: the delivered wish overwrites its key. */
    method OnInsert(w: Wish)
      requires Valid()
      modifies this`slots
      ensures Valid()
      ensures slots == Put(old(slots), w)
    {
      PutKeepsWellKeyed(slots, w);
      slots := slots[SlotKey(w.grid_row, w.grid_col) := w];
    }

    /** A click on the board at (r, c). Only an empty on-board slot is drawn
        as a selecting button; an occupied one opens the read-only view. */
    method Select(r: int, c: int)
      requires Valid()
      modifies this`selected
      ensures Valid()
      ensures OnBoard(r, c) && SlotKey(r, c) !in slots ==> selected == Some(Slot(r, c))
      ensures !(OnBoard(r, c) && SlotKey(r, c) !in slots) ==> selected == old(selected)
      ensures selected != old(selected) ==>
                selected.Some? && SlotKey(selected.value.row, selected.value.col) !in slots
    {
      if OnBoard(r, c) && SlotKey(r, c) !in slots {
        selected := Some(Slot(r, c));
      }
    }

    /** The form's close button. */
    method Cancel()
      requires Valid()
      modifies this`selected
      ensures Valid()
      ensures selected == None
    {
      selected := None;
    }

    /** The message input's change handler. */
    method EditMessage(text: string)
      requires Valid()
      modifies this`newMessage
      ensures Valid()
      ensures newMessage == text
    {
      newMessage := text;
    }

    /** The author input's change handler. */
    method EditAuthor(text: string)
      requires Valid()
      modifies this`newAuthor
      ensures Valid()
      ensures newAuthor == text
    {
      newAuthor := text;
    }

    /** `handleSubmit`, with the random palette draw given as colorIdx. With
        no selection nothing changes and nothing is sent. Otherwise the new
        wish overwrites the selected key, whatever is stored there, the
        selection and both inputs are cleared, and the wish is returned as
        the record handed to the store's insert. */
    method Submit(colorIdx: int) returns (sent: Option<Wish>)
      requires Valid()
      requires 0 <= colorIdx < |ColorKeys|
      modifies this
      ensures Valid()
      ensures old(selected).None? ==>
                && sent == None
                && slots == old(slots) && selected == old(selected)
                && newMessage == old(newMessage) && newAuthor == old(newAuthor)
      ensures old(selected).Some? ==>
                && sent == Some(NewWish(old(selected).value, old(newMessage), old(newAuthor), colorIdx))
                && slots == Put(old(slots), sent.value)
                && selected == None && newMessage == "" && newAuthor == ""
    {
      if selected.None? {
        return None;
      }
      var slot := selected.value;
      var wish := NewWish(slot, newMessage, newAuthor, colorIdx);
      PutKeepsWellKeyed(slots, wish);
      slots := slots[SlotKey(slot.row, slot.col) := wish];
      selected := None;
      newMessage := "";
      newAuthor := "";
      sent := Some(wish);
    }

    /** The inner loop of `renderTreeRows` for row r: its columns left to
        right, each drawn as the slot found under the position's key. */
    method RenderRow(r: int) returns (slotsInRow: seq<Cell>)
      requires r >= 1
      ensures slotsInRow == RowCells(slots, r)
    {
      slotsInRow := [];
      var slotsCount := r * 2 - 1;
      var startCol := -(slotsCount / 2);
      var i := 0;
      while i < slotsCount
        invariant 0 <= i <= slotsCount
        invariant |slotsInRow| == i
        invariant forall j :: 0 <= j < i ==> slotsInRow[j] == CellAt(slots, r, startCol + j)
      {
        var c := startCol + i;
        var slotKey := SlotKey(r, c);
        if slotKey in slots {
          var fulfilledWish := slots[slotKey];
          slotsInRow := slotsInRow + [Cell(r, c, Taken(fulfilledWish, ResolveColor(fulfilledWish.color)))];
        } else {
          slotsInRow := slotsInRow + [Cell(r, c, Open)];
        }
        i := i + 1;
      }
      forall j | 0 <= j < slotsCount
        ensures slotsInRow[j] == RowCells(slots, r)[j]
      {
        RowCellAt(slots, r, j);
      }
    }

    /** `renderTreeRows`: rows 1 .. TreeSize - 1, 1521 slots in all, each
        row drawn as RowCells gives it. */
    method RenderRows() returns (rows: seq<seq<Cell>>)
      ensures |rows| == TreeSize - 1
      ensures forall k :: 0 <= k < |rows| ==> rows[k] == RowCells(slots, k + 1)
      ensures TotalCells(rows) == (TreeSize - 1) * (TreeSize - 1)
    {
      rows := [];
      var r := 1;
      while r < TreeSize
        invariant 1 <= r <= TreeSize
        invariant |rows| == r - 1
        invariant forall k :: 0 <= k < |rows| ==> rows[k] == RowCells(slots, k + 1)
        invariant TotalCells(rows) == SlotsUpTo(r - 1)
      {
        var slotsInRow := RenderRow(r);
        RowsAppend(slots, rows, r);
        TotalCellsAppend(rows, slotsInRow);
        RowCellsShape(slots, r);
        assert SlotsUpTo(r) == SlotsUpTo(r - 1) + |slotsInRow|;
        rows := rows + [slotsInRow];
        r := r + 1;
      }
      BoardSlotCount();
    }
  }

  /** A session on an empty board: one wish is hung at (3, 0), its feed echo
      arrives, and the occupied slot can no longer be selected. A selection
      made before someone else's wish arrives for the same slot is not
      re-checked: the local submit overwrites the delivered wish. */
  method HangWishes(other: Wish)
    requires other.grid_row == 5 && other.grid_col == 2 && other.id.Some?
  {
    var board := new Board();
    board.Bootstrap(Some([]));
    board.Select(3, 0);
    assert board.selected == Some(Slot(3, 0));
    board.EditMessage("peace");
    board.EditAuthor("Ann");
    var sent := board.Submit(0);
    assert sent.Some? && sent.value.author == "Ann" && sent.value.message == "peace";
    assert board.slots.Keys == {SlotKey(3, 0)};
    assert board.selected == None && board.newMessage == "" && board.newAuthor == "";
    var echo := sent.value.(id := Some(1));
    board.OnInsert(echo);
    assert board.slots == map[SlotKey(3, 0) := echo];
    board.Select(3, 0);
    assert board.selected == None;
    var none := board.Submit(1);
    assert none == None && board.slots == map[SlotKey(3, 0) := echo];

    board.Select(5, 2);
    DistinctSlotsDistinctKeys(other, echo);
    board.OnInsert(other);
    board.EditMessage("hope");
    board.EditAuthor("");
    var mine := board.Submit(2);
    assert mine.Some? && mine.value.author == AnonymousAuthor && mine.value.id == None;
    assert board.slots[SlotKey(5, 2)] == mine.value != other;
  }
}

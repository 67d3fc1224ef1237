# Wishing tree: slot addressing and board state

This project is a Dafny model of the page component of the wishing-tree app (`app/page.tsx`). The board is a triangle of "stars". Row `r` (1 to 39) holds `2r-1` slots, with column offsets centred on zero. A visitor clicks an empty star, types a message and an optional author, and "hangs" a wish there. Every viewer sees wishes arrive through a live insert feed.

The model has these parts:

- `Geometry`: the tree height `TREE_SIZE = 40`, the slot count and start column of each row, and the columns the render loop visits.
- `Keys`: the slot key `${row}-${col}`. Integers are written in decimal, a negative number gets a leading `-`, and a dash joins the two numerals. This module proves that the key is injective over all integer pairs.
- `Palette`: `COLOR_KEYS` and `COLOR_MAP`, plus the resolution of a stored colour string to a class string. A palette name maps to its own entry. Any other string falls back by substring, with red before yellow before blue, and otherwise green.
- `Occupancy`: the occupancy map `fulfilledSlots`, of type `map<string, Wish>`. Every path writes to it through one unconditional keyed write, `Put`. A left fold over a list of wishes, `Apply`, does what `forEach` does in `fetchWishes`.
- `WishingTree`: the class `Board`, which holds the component's state. Its fields are `slots`, `selected`, `newMessage` and `newAuthor`. It has the bootstrap, the feed handler, select, cancel, the two input handlers and submit. `RenderRow` and `RenderRows` are the nested loops of `renderTreeRows`. `HangWishes` is a client session built from the contracts alone.

External calls are modelled as parameters:

- `Bootstrap` receives the `select('*')` result as `Option<seq<Wish>>`. `None` stands for a `null` result.
- `OnInsert` receives the delivered row.
- `Submit` receives the random palette draw as an index. It returns the wish it hands to the store's insert.

## What the code does not guard

The model follows the code. The code has no guards in these places:

- A write never checks what is already stored. Both the feed handler and submit overwrite the key unconditionally (`Occupancy.Put`). A confirmed wish can therefore be replaced by an unconfirmed local copy. `Occupancy.PutSupersedes` and the second half of `HangWishes` show this.
- Submit does not check that the selected slot is still empty. It does not trim the message and never rejects. `Submit` has no error path.
- Bootstrap replaces the map instead of merging into it, and `Apply` starts from `map[]`. Feed events or local submits that land before the read completes are dropped unless the read returns them.
- There is no reconnect, no re-bootstrap and no rollback of a failed insert.

## Model

| member | source | states |
|---|---|---|
| Geometry.SlotsCount | app/page.tsx:123 | A row of the board has an odd, positive slot count. Below row 1 the count is not positive, so the inner loop draws nothing. |
| Geometry.StartCol | app/page.tsx:124 | A row of the board starts at column `-(r-1)`, and its last column, `startCol + slotsCount - 1`, is the mirror image `r-1`. Dafny's `/` by 2 rounds down here, as `Math.floor` does. |
| Geometry.Columns | app/page.tsx:123-127 | Row `r >= 1` visits exactly `2r-1` columns, and the i-th is `i-(r-1)`. This is the floor arithmetic of `startCol` worked out. A row below 1 visits none. |
| Geometry.ColumnsShape | app/page.tsx:120-127 | A row's columns run from `-(r-1)` to `r-1`. They are consecutive and strictly increasing. They mirror about zero. An integer is a column of the row iff it lies in that range. |
| Geometry.RowOneIsCentre | app/page.tsx:120-127 | Row 1 is the single column `[0]`. |
| Geometry.OnBoardIffVisited | app/page.tsx:120-127 | A position is on the board iff the render loops visit it. |
| Geometry.SlotsUpToSquare | app/page.tsx:120-126 | Rows 1..n hold `n*n` slots together. |
| Geometry.BoardSlotCount | app/page.tsx:42 | With `TREE_SIZE = 40` the board has `39*39 = 1521` slots. |
| Keys.NatToString | app/page.tsx:128 | A natural's numeral is non-empty and all digits. It has two or more digits iff the number is at least 10. It starts with `0` only for zero, so there is no leading zero. |
| Keys.IntToString | app/page.tsx:128 | An integer's numeral starts with `-` iff the integer is negative. The rest, or the whole numeral for a non-negative integer, is digits. |
| Keys.NatRoundTrip | app/page.tsx:128 | Reading the digits back gives the number: parse inverts the numeral. |
| Keys.IntRoundTrip | app/page.tsx:128 | Parse inverts the signed numeral. |
| Keys.SlotKey | app/page.tsx:128 | The key is the row's numeral, a dash and the column's numeral. It has no contract of its own. `Keys.SlotKeyReadsBack` shows that it reads back as its position, and `Keys.SlotKeyInjective` shows that it is injective. |
| Keys.SlotKeyReadsBack | app/page.tsx:128 | The text before the dash that ends the row's numeral parses as the row. The text after that dash parses as the column. |
| Keys.SlotKeyInjective | app/page.tsx:128 | Equal keys imply equal positions for all integer rows and columns. For example, `(1,-1)` gives `"1--1"`, which differs from `"1-1"`. |
| Keys.KeyOf | app/page.tsx:64 | A wish's key is the key of its own row and column. It has no contract of its own; `Keys.KeyOfInjective` shows that it is injective. |
| Keys.KeyOfInjective | app/page.tsx:64 | Two wishes stored under one key claim the same row and column. |
| Palette.ColorKeysArePalette | app/page.tsx:27-41 | `COLOR_KEYS` has 11 entries, each name once. They are exactly the keys of `COLOR_MAP`. |
| Palette.IncludesIffOccurs | app/page.tsx:137-139 | The scanning `includes` holds iff the needle occurs at some position of the string. |
| Palette.Fallback | app/page.tsx:136-140 | The fallback always gives a palette entry. It gives red's entry iff the colour contains `red`. It gives green's entry iff the colour contains none of `red`, `yellow` and `blue`. |
| Palette.ResolveColor | app/page.tsx:134-141 | The result is always one of `COLOR_MAP`'s entries. A palette name selects its own entry. Otherwise the first of red, yellow and blue that occurs as a substring decides the entry, and anything else is green. |
| Palette.ResolveColorAsWritten | app/page.tsx:134-136 | The property read as written agrees with `ResolveColor` except on names inherited from `Object.prototype`. On those it yields the inherited member, not a class string. |
| Palette.ToStringEscapesPalette | app/page.tsx:134-136 | A stored colour `"toString"` resolves, as written, to the inherited `toString` member, which is not a palette class. The corrected resolution gives a palette entry. |
| Occupancy.Put | app/page.tsx:62-65 | The keyed write stores the wish under its own slot's key and adds only that key. Every other key keeps its entry. |
| Occupancy.Apply | app/page.tsx:75-78 | The `forEach` fold of rows into a map, first to last. It has no contract of its own. Its results are characterised by `ApplyHasKey`, `ApplyKeys`, `ApplyUntouched`, `ApplyLastWins`, `ApplyEntriesFrom` and `ApplyOrderIndependent`. |
| Occupancy.PutIdempotent | app/page.tsx:60-65 | Delivering the same insert event twice gives the same map as delivering it once. |
| Occupancy.PutCommutes | app/page.tsx:60-65 | Inserts for two different slots commute. |
| Occupancy.PutSupersedes | app/page.tsx:109 | A second write for the same slot replaces the first and leaves a single entry. This covers the optimistic copy followed by its feed echo, and the reverse order. |
| Occupancy.ApplyKeepsWellKeyed | app/page.tsx:76-78 | Folding keeps every entry under the key of its own row and column. |
| Occupancy.ApplyConcat | app/page.tsx:60-79 | Folding a list and then more wishes equals folding the concatenation. Bootstrap and feed share one write path. |
| Occupancy.ApplyHasKey | app/page.tsx:75-79 | After a fold, a key is present iff it was present before or some folded wish has it. |
| Occupancy.ApplyKeys | app/page.tsx:75-79 | The keys after a fold are the old keys plus the key of every wish. From an empty map they are exactly the keys of the rows read. |
| Occupancy.ApplyUntouched | app/page.tsx:76-78 | A key that no folded wish writes keeps its old entry, or stays absent. |
| Occupancy.ApplyLastWins | app/page.tsx:76-78 | When several rows claim one slot, the last of them in the list is the one stored. |
| Occupancy.ApplyEntriesFrom | app/page.tsx:76-78 | Every entry after a fold is an old entry or one of the folded wishes. |
| Occupancy.ApplyFinds | app/page.tsx:76-78 | With one wish per slot, every folded wish is found under its own key. |
| Occupancy.ApplyOrderIndependent | app/page.tsx:76-78 | With one wish per slot, any permutation of the rows gives the same map. |
| WishingTree.NewWish | app/page.tsx:100-107 | The submitted wish has the following properties: it is stored under the selected slot's key; it has no id; it carries the message verbatim; its row and column are the selected slot's; its author is never empty (the input if non-empty, otherwise `"Anonymous"`); its colour is a palette name that resolves to its own entry. |
| WishingTree.CellAt | app/page.tsx:128-161 | A position is drawn occupied iff its key is in the map. An occupied marker carries the stored wish and a palette class. The class comes from the corrected lookup `Palette.ResolveColor` (see "## Left out"). |
| WishingTree.RowCells | app/page.tsx:126-161 | One row as drawn, a `CellAt` per column. It has no contract of its own. `RowCellsShape` gives its size and columns, `RowCellAt` gives its cells in loop order, and `Board.RenderRow` is proved equal to it. |
| WishingTree.CellColorIsResolved | app/page.tsx:133-141 | In every map, an occupied marker is drawn with the class `ResolveColor` gives for its stored wish's colour. |
| WishingTree.RowCellsShape | app/page.tsx:123-128 | Row `r` draws `2r-1` cells, and the i-th is at column `i-(r-1)`. |
| WishingTree.MarkerShowsOwnWish | app/page.tsx:128-129 | In a well-keyed map, an occupied marker shows a wish whose row and column are that marker's own, so no wish is drawn at two positions. |
| WishingTree.StoredWishIsDrawn | app/page.tsx:129 | A wish written at an on-board position is drawn in its row, at its column's place, with its resolved colour. |
| WishingTree.Board.constructor | app/page.tsx:45-48 | The component starts with an empty map, no selection and empty inputs. |
| WishingTree.Board.Bootstrap | app/page.tsx:72-81 | With rows read, the map becomes the in-order fold of those rows into an empty map, and prior contents are discarded. With `null`, the map is unchanged. |
| WishingTree.Board.OnInsert | app/page.tsx:60-66 | The map becomes the old map with the delivered wish written under its key. |
| WishingTree.Board.Select | app/page.tsx:152-161 | A click selects `(r, c)` iff it is on the board and empty. Otherwise the selection is unchanged. A changed selection is always an empty slot. |
| WishingTree.Board.Cancel | app/page.tsx:196 | The selection becomes null and nothing else changes. |
| WishingTree.Board.EditMessage | app/page.tsx:217 | The message input becomes the typed text, and nothing else changes. |
| WishingTree.Board.EditAuthor | app/page.tsx:206 | The author input becomes the typed text, and nothing else changes. |
| WishingTree.Board.Submit | app/page.tsx:96-112 | With no selection nothing changes and nothing is sent. Otherwise three things happen. The `NewWish` for the selection and inputs is written under the selected key, whatever was stored there, and no other key changes. The selection and both inputs are cleared. That wish is what is sent. |
| WishingTree.Board.RenderRow | app/page.tsx:121-163 | The inner loop draws exactly the cells of `RowCells` for the row, with colours from the corrected lookup (see "## Left out"). |
| WishingTree.Board.RenderRows | app/page.tsx:117-167 | The render produces 39 rows, row `k+1` drawn as `RowCells`, 1521 cells in all. |

## Findings

| source | as written | input that shows it | evidently intended | confidence | as-written member | corrected member |
|---|---|---|---|---|---|---|
| app/page.tsx:134-136 | `COLOR_MAP[color]` is an ordinary property read on an object literal, so it also finds names inherited from `Object.prototype`. Those values are truthy, so the substring fallback is skipped and the class string becomes the inherited member's string form: a function's source text, or `[object Object]` for `__proto__`. | a stored wish whose `color` is `"toString"` (or `"constructor"`, `"valueOf"`, `"__proto__"`, …) | every stored colour is drawn with one of the 11 palette classes, green when nothing matches | high, not executed | Palette.ToStringEscapesPalette | Palette.ResolveColor |

The render functions (`CellAt`, `RowCells`, `RenderRow`) use the corrected `ResolveColor`. `Palette.ResolveColorAsWritten` models the code as written. It agrees with `ResolveColor` on every string except the 12 inherited names.

## Left out

- Supabase client, `select('*')`, `insert` and the realtime channel (subscribe and `removeChannel`): these are network I/O. Their results are method parameters, and the wish `Submit` returns is the record handed to `insert`.
- Async interleaving and React's batching: each state setter is one sequential transition. Races between an in-flight bootstrap and other writes are reduced to the fact that bootstrap replaces the map.
- `Math.random` in the palette draw: this is floating point. `Submit` takes the drawn index, which must lie in `[0, 11)`, as every `Math.floor(Math.random() * 11)` does.
- `centerTree`, `useLayoutEffect` and `setTimeout`: these are DOM measurement and scrolling.
- JSX markup, Tailwind class strings beyond the palette entries, and the view-wish modal: these are presentation. A click on an occupied star opens that modal, and in the model the click leaves the selection unchanged.
- The browser's `required` and `maxLength` attributes on the two inputs: the browser enforces them, not the component. `Submit` accepts any input strings.
- The open `[key: string]: any` part of a stored row: a wish is a closed record. A row whose `color` is not a string is not modelled.
- WishingTree.CellAt, WishingTree.Board.RenderRow: these draw with the corrected `Palette.ResolveColor`, not the lookup as written. For a stored colour that is one of the 12 names inherited from `Object.prototype` (`"toString"`, `"constructor"`, …), they promise a palette class. The code as written draws the inherited member, as `Palette.ResolveColorAsWritten` states. For every other colour, the two agree.
- WishingTree.RowCells, WishingTree.StoredWishIsDrawn, WishingTree.CellColorIsResolved, WishingTree.Board.RenderRows: these use the same corrected lookup, and so differ from the code as written on the same 12 names.
- Keys.IntToString: writes every integer in plain decimal. JavaScript switches to exponent notation at `1e21`, and positions beyond `2^53` lose precision. Both are far outside the board.
- `app/layout.tsx` is not part of this model: it holds metadata, fonts and the root layout.

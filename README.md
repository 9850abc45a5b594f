# Lights Out, modulo a base — a Dafny model

The puzzle is a square grid of `size × size` cells, each holding a state
modulo `base`. Clicking a cell adds one (mod `base`) to it and to its four
orthogonal neighbours; neighbours off the grid are skipped, nothing wraps
around. After every change the game writes `size`, `base` and the
row-major string of cell states into the page address as
`?size=<int>&base=<int>&state=<states>`. On page load it reads that query
back: `size` and `base` are taken when they parse as integers, `state` is
captured, and the grid is restored all-or-nothing when the captured state
has exactly `size * size` characters, all digits.

The model has two parts.

* **Grid model** (`grid.dfy`, module `GridModel`): the classes `Cell` and
  `Game` with their fields updated in place, as in the source. `Game` owns
  `grid: seq<seq<Cell>>` (`grid[y][x]` is column x of row y). `Valid()` says
  the grid is square and every cell knows its game and its coordinates.
  `States()` is the value view of the cell states. `Click` is proved to
  turn the states into `Boards.ClickBoard(old(States()), x, y, base)`.
  `ClickBoard` is defined cell by cell by Manhattan distance at most 1,
  independently of the source's list of five offsets.
* **Session codec** (`wire.dfy`, module `Wire`, pure; `session.dfy`, module
  `SessionCodec`, imperative): the encoder `Encode`; the pair scan `Scan`
  and the restoration condition `Restorable`; `Decode` for a whole page
  load. The `forEach` scan, the nested restoration loops and
  `parse_settings` itself are methods proved against these functions.

Helpers: `option.dfy` (an `Option` type), `text.dfy` (digits, decimal
rendering of integers, `parseInt`, `split`/`join`) and `boards.dfy` (the
value-level board and the click rule).

Details of the code that the model follows exactly:

* `parse_settings` does not write the address again after it abandons a
  restoration because of a non-digit. `init_game` has already written the
  all-zero grid, so the last query written is the same either way.
* A `state` key with no `=` sets the captured state to `undefined`. It
  overrides an earlier `state` pair.
* An empty captured state is never restored (the `state &&` test).
* A negative size is accepted, as `parseInt` accepts it. The build loops
  then make no rows, which is `Dim(size) = 0`.

## Model

| member | source | states |
|---|---|---|
| `GridModel.Cell.constructor` | src.js:15-24 | a new cell has the given game and coordinates (x, y) and state 0 |
| `GridModel.Cell.SetState` | src.js:25-28 | the state becomes the given value; nothing else of the cell changes |
| `GridModel.Cell.Increment` | src.js:29-31 | the state becomes `(state + 1) % base` of the cell's game |
| `Boards.Inc` | src.js:29-31 | an increment stays below a positive base: it adds one below `base - 1` and wraps `base - 1` to 0 |
| `Boards.IncCycle` | src.js:29-31 | `base` consecutive increments of a state in [0, base) give that state back |
| `Boards.IncNBelow` | src.js:29-31 | while no wrap-around occurs, k increments add k |
| `Boards.IncNSplit` | src.js:29-31 | k1 + k2 increments are k1 increments followed by k2 more |
| `GridModel.Game.constructor` | src.js:35-56 | a new game is valid: `Dim(size)` rows of `Dim(size)` fresh cells, `grid[y][x]` has coordinates (x, y), all states 0 |
| `GridModel.Game.GetCell` | src.js:57-61 | returns a cell exactly when 0 <= x < size and 0 <= y < size; that cell belongs to the grid and has coordinates (x, y) |
| `GridModel.Game.Click` | src.js:62-70 | the grid stays valid; the states become `ClickBoard` of the old states; the returned query encodes the new grid |
| `Boards.OffsetsArePlus` | src.js:63 | the constant `Offsets`, the source's five offsets in its order, names exactly the cells at Manhattan distance at most 1, each once |
| `Boards.ClickChangesExactlyPlus` | src.js:62-68 | with base >= 2 and states in [0, base), a click changes exactly the in-grid cells of the plus shape and keeps every state in [0, base) |
| `Boards.ClickCommutes` | src.js:62-68 | two clicks give the same grid in either order |
| `Boards.ClickIterAt` | src.js:62-68 | k clicks on one cell apply k increments to each cell of its plus shape and leave every other cell alone |
| `Boards.ClickCycle` | src.js:62-68 | clicking the same cell `base` times restores a grid whose states lie in [0, base) |
| `GridModel.Game.States` | src.js:73 | the state grid is `Dim(size)` square and entry [y][x] is the state of `grid[y][x]` |
| `GridModel.Game.Update` | src.js:71-77 | the query string is `Encode(size, base, States())`; when every state is a single digit it decodes back to this game from any prior inputs |
| `Text.NatToString` | src.js:73 | the decimal rendering is non-empty, all digits, one character exactly below 10, no leading zero |
| `Text.IntToString` | src.js:73 | the rendering starts with '-' exactly for negative numbers; all other characters are digits |
| `Wire.RowString` | src.js:73 | one row's states, rendered in decimal and concatenated, hold only digits |
| `Wire.StateString` | src.js:73 | the rows' strings concatenated top row first hold only digits, so never '&' or '=' |
| `Text.Join` | src.js:73 | a join starts with the first piece, followed by the separator when there are more pieces; one piece joins to itself |
| `Wire.Query` | src.js:73 | the three pairs joined spell `size=<size>&base=<base>&state=<state>` |
| `Wire.Encode` | src.js:73 | the query for a grid; reading it back yields exactly its `size`, `base` and `state` pairs, in that order |
| `Wire.StateStringLength` | src.js:73 | with single-digit states, the state string of an n x n grid has n * n characters |
| `Wire.StateStringAt` | src.js:73 | with single-digit states, character y * n + x of the state string is the digit of cell (x, y) |
| `Wire.CentreClickExample` | src.js:62-73 | clicking (1, 1) of a fresh 3 x 3 grid of base 2 serialises as "010111010" |
| `Wire.CornerClickExample` | src.js:62-73 | clicking (0, 0) of a fresh 2 x 2 grid of base 3 serialises as "1110" |
| `Text.Split` | src.js:92 | splitting always yields at least one piece |
| `Text.JoinSplit` | src.js:92 | joining the pieces of a split gives the string back, and no piece holds the separator |
| `Text.SplitJoin` | src.js:92 | splitting a join of separator-free pieces gives the pieces back |
| `Text.SplitCount` | src.js:95 | a string splits into more than one piece exactly when it holds the separator |
| `Wire.Pairs` | src.js:92 | at least one pair; exactly one when the query holds no '&'; no key holds '=' |
| `Wire.PairsOfPiece` | src.js:92 | a query without '&' is the single pair read from the whole query |
| `Wire.PairsOfConcat` | src.js:92 | the pairs follow the query's '&'-pieces in order: the first piece gives the first pair, and the rest are the pairs of the text after the first '&' |
| `Wire.PairOf` | src.js:92-95 | the value is missing exactly when the piece holds no '=', and the key is then the whole piece; otherwise the piece starts with key, '=' and value, and after them comes the end or another '='; neither key nor value holds '=' |
| `Wire.PairOfKeyValue` | src.js:92-95 | a piece `key=value` with no other '=' reads as exactly that key and value |
| `Wire.PairsOfQuery` | src.js:92-95 | the pairs read from an encoded query are its `size`, `base` and `state` pairs, in that order |
| `Text.ParseInt` | src.js:98 | `parseInt` succeeds exactly when the value starts with a digit, or with a sign followed by a digit |
| `Text.DigitPrefixOfRun` | src.js:98 | the digit prefix `parseInt` reads from a run of digits followed by a non-digit or the end is that run |
| `Text.ParseIntOfDigits` | src.js:98-103 | `parseInt` of an unsigned value is the value of its leading run of digits, whatever follows it ("007" gives 7, "12abc" gives 12) |
| `Text.ParseIntOfSigned` | src.js:98-103 | `parseInt` of a '-' or '+' and a run of digits gives the run's value, negated after '-', whatever follows the run |
| `Text.ParseIntOfIntToString` | src.js:98 | parsing the rendering of any integer gives that integer |
| `Text.DigitValue` | src.js:118 | a one-character parse succeeds exactly on a digit, giving its value below 10 |
| `SessionCodec.ScanSettings` | src.js:94-111 | the loop over the pairs ends with the settings `Scan` gives |
| `Wire.Apply` | src.js:96-110 | a pair changes the size only if it is a `size` pair whose value parses, and then to the parsed value; likewise the base; the captured state only for a `state` pair, to its value; a pair with an unknown key changes nothing |
| `Wire.Scan` | src.js:94-111 | the captured state after the scan is the initial one or the value of some `state` pair |
| `Wire.ScanIgnoresUnknown` | src.js:96-110 | dropping every pair with an unknown key leaves the scan's outcome unchanged |
| `Wire.ScanKeepsSize` | src.js:97-101 | later pairs none of which is a `size` pair that parses leave the size unchanged |
| `Wire.LastSizeWins` | src.js:97-101 | the last `size` pair whose value parses decides the size |
| `Wire.ScanSizeOrigin` | src.js:97-101 | the size after the scan is the initial size or the parsed value of some `size` pair |
| `Wire.ScanKeepsBase` | src.js:102-106 | later pairs none of which is a `base` pair that parses leave the base unchanged |
| `Wire.LastBaseWins` | src.js:102-106 | the last `base` pair whose value parses decides the base |
| `Wire.ScanBaseOrigin` | src.js:102-106 | the base after the scan is the initial base or the parsed value of some `base` pair |
| `Wire.ScanKeepsState` | src.js:107-109 | later pairs with no `state` key leave the captured state unchanged |
| `Wire.LastStateWins` | src.js:107-109 | the last `state` pair decides the captured state, even when it has no value |
| `SessionCodec.InitGame` | src.js:80-89 | a fresh valid game of the given size and base, all states 0, and the query that encodes it |
| `Wire.DigitAt` | src.js:124 | a restored state is a single digit |
| `Wire.DigitsBoard` | src.js:122-126 | the restored grid is n x n and every state is a single digit |
| `SessionCodec.Restore` | src.js:116-127 | aborts exactly when a non-empty state of length size * size has a non-digit; the grid becomes `DigitsBoard` when the state is restorable and is unchanged otherwise |
| `Wire.Restorable` | src.js:116-119 | a restorable state needs a nonzero size and is a captured digit string of length size * size, long enough for the restoration loops; for a positive size it is exactly the serialisation of the grid it restores |
| `Wire.MalformedStateGivesZeros` | src.js:116-121 | a state of the wrong length or with a non-digit leaves the all-zero grid |
| `Wire.Decode` | src.js:91-129 | a page load ends with a square grid of side `Dim(size)` |
| `Wire.DecodeOutcome` | src.js:116-126 | for any query: when the captured state is restorable the loaded grid is the one read from its digits, and for a positive size it serialises to exactly that state; otherwise the loaded grid is all zeros |
| `Wire.ScanQuery` | src.js:92-111 | scanning an encoder-shaped query takes over its size, base and state value |
| `Wire.DecodeQuery` | src.js:91-129 | decoding an encoder-shaped query takes over size and base and restores the grid exactly when the state is restorable |
| `SessionCodec.ParseSettings` | src.js:91-129 | the game left behind is `Decode` of the query after the '?', and the last query written encodes that game |
| `Wire.DigitsBoardOfStateString` | src.js:122-126 | reading back the state string of a single-digit grid gives that grid |
| `Wire.StateStringOfDigitsBoard` | src.js:122-126 | serialising a grid restored from a digit string of length n * n gives that string |
| `Wire.DecodeEncode` | src.js:73 | decoding the encoding of a single-digit grid restores size, base and grid, whatever the inputs held |
| `Wire.ReencodeDecoded` | src.js:128 | for a positive size and a digit string of length size * size, the restored game encodes to the same query |

## Left out

- DOM rendering: `element`, the `<table>`/`<tr>`/`<td>` elements, the `gradient` class and the `data-state` attribute (src.js:1-12, 19, 27, 41-44). Each row is modelled by its list of cells alone.
- Event listeners and the top-level dispatch between `parse_settings` and `init_game` (src.js:20-22, 131-141).
- Browser I/O. `window.location`, `history.replaceState`, the `window.location && window.history` guard and the `base_url` prefix (src.js:72-75) are not modelled. The address bar is the only thing `update` changes, so `GridModel.Game.Update` is a function that reads the game and returns the query string after the '?'. `parse_settings` takes `location.search` as a parameter.
- The size and base input fields (src.js:81-82, 99, 104, 114-115) become integer parameters and the game's `size` and `base`.
- `SessionCodec.ParseSettings`: JavaScript writes the raw value string into the input and reads it back by numeric coercion. The model uses the integer `parseInt` gave. So values such as "3abc" or "2.5", which parse but are not plain integers, are not modelled as the browser would treat them.
- `Text.ParseInt`: leading whitespace and the `0x` hexadecimal prefix are not modelled, and neither is rounding: `parseInt` returns a double, which is exact only up to 2^53. Otherwise it is `parseInt`'s sign-and-digit-prefix rule.
- `Text.NatToString` and `Text.IntToString` always write every digit. JavaScript's number-to-string switches to exponent notation from 1e21 on, and it loses precision above 2^53.
- `encodeURIComponent` and `decodeURIComponent` are the identity. This is exact for digits, '-' and the three key names. `decodeURIComponent` throws on a malformed escape, and that exception is not modelled. A percent-escaped value is not decoded either. For `size=2&state=%31%32%33%34` the source restores the grid 1, 2 / 3, 4, but the model sees a 12-character state holding non-digits and leaves the grid all zeros.
- `GridModel.Cell.Increment`: requires `base != 0`. The source accepts a base of 0: "base=0" parses (src.js:103-105), and an increment then makes the state `NaN`, which has no counterpart among the model's integer states.
- `GridModel.Game.Click`: requires `base != 0` for the same reason. With a base of 0 a click turns the plus-shaped cells it reaches into `NaN` (src.js:62-69). The model does not cover that case.
- `Boards.Inc`, `Boards.ClickBoard`, `Boards.ClickCommutes`, `Boards.IncNSplit` and `Boards.ClickIterAt` require `base != 0` for the same reason.
- The round trip is stated for grids whose states are all single digits. These include every grid with states in [0, base) for base <= 10. With base > 10 a state of two digits breaks the one-character-per-cell layout.
- `Wire.ReencodeDecoded` requires a positive size. With a negative size whose square equals the state's length, the length test passes but the restoration loops run zero times. The address then gets an empty state, so the state string does not survive.
- Lengths are counted differently. A Dafny `string` counts Unicode scalar values, but the length test and the per-character split in `parse_settings` count UTF-16 code units. The outcome is the same, because a character outside the Basic Multilingual Plane is never a digit. Only `Restore`'s `aborted` flag can differ, and its only effect is whether the same query is written a second time.
- `console.log` (src.js:117).

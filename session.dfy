/**
 * Page load: `parse_settings` scans the query's key/value pairs, builds a
 * fresh game from the resulting size and base (`init_game`), restores the
 * captured state all-or-nothing, and writes the query string back.
 */
module SessionCodec {
  import opened Optional
  import opened Text
  import opened Boards
  import opened Wire
  import opened GridModel

  /**
   * The `forEach` over the pairs: `size` and `base` are taken when their
   * value parses, `state` is captured verbatim, other keys are ignored.
   */
  method ScanSettings(pairs: seq<Pair>, size0: int, base0: int) returns (s: Settings)
    ensures s == Scan(pairs, Settings(size0, base0, None))
  {
    var size, base, state := size0, base0, None;
    var k := 0;
    while k < |pairs|
      invariant k <= |pairs|
      invariant Settings(size, base, state) == Scan(pairs[..k], Settings(size0, base0, None))
    {
      var key, value := pairs[k].key, pairs[k].value;
      if key == "size" {
        if value.Some? && ParseInt(value.value).Some? {
          size := ParseInt(value.value).value;
        }
      } else if key == "base" {
        if value.Some? && ParseInt(value.value).Some? {
          base := ParseInt(value.value).value;
        }
      } else if key == "state" {
        state := value;
      }
      assert pairs[..k + 1][..k] == pairs[..k];
      k := k + 1;
    }
    assert pairs[..k] == pairs;
    s := Settings(size, base, state);
  }

  /** `init_game`: a fresh game of the given size and base, written to the address bar. */
  method InitGame(size: int, base: int) returns (game: Game, query: string)
    ensures fresh(game) && fresh(game.Cells()) && game.Valid()
    ensures game.size == size && game.base == base && game.States() == Zeros(Dim(size))
    ensures query == Encode(size, base, Zeros(Dim(size)))
  {
    game := new Game(size, base);
    query := game.Update();
  }

  /**
   * The restoration step of `parse_settings`. Nothing happens unless a
   * non-empty state of length size * size was captured; if then some
   * character is not a digit the restoration is abandoned (`aborted`);
   * otherwise every cell gets the digit at y * size + x, with no clamping
   * to the base.
   */
  method Restore(game: Game, state: Option<string>) returns (aborted: bool)
    requires game.Valid()
    modifies game.Cells()
    ensures game.Valid()
    ensures aborted <==> state.Some? && 0 < |state.value| == game.size * game.size && !AllDigits(state.value)
    ensures game.States() == if Restorable(state, game.size)
      then DigitsBoard(state.value, Dim(game.size)) else old(game.States())
  {
    aborted := false;
    if state.Some? && 0 < |state.value| && |state.value| == game.size * game.size {
      var st := state.value;
      var digits := seq(|st|, i requires 0 <= i < |st| => DigitValue(st[i]));
      if exists i | 0 <= i < |digits| :: digits[i].None? {
        aborted := true;
        return;
      }
      forall i | 0 <= i < |st| ensures IsDigit(st[i]) {
        assert digits[i].Some?;
      }
      var n := Dim(game.size);
      ghost var target := DigitsBoard(st, n);
      var y := 0;
      while y < game.size
        invariant y <= n
        invariant forall j, i :: 0 <= j < n && 0 <= i < n ==>
          game.grid[j][i].state == if j < y then target[j][i] else old(game.grid[j][i].state)
      {
        var x := 0;
        while x < game.size
          invariant x <= n
          invariant forall j, i :: 0 <= j < n && 0 <= i < n ==>
            game.grid[j][i].state == if j < y || (j == y && i < x) then target[j][i]
                                     else old(game.grid[j][i].state)
        {
          var cell := game.GetCell(x, y);
          IndexInSquare(y, x, n);
          cell.value.SetState(digits[y * game.size + x].value);
          x := x + 1;
        }
        y := y + 1;
      }
      forall j | 0 <= j < n ensures game.States()[j] == target[j] {
      }
    }
  }

  /**
   * `parse_settings`, given `window.location.search` and the values the
   * size and base inputs hold: the game it leaves behind is the decoding of
   * the query, and the last query string written is that game's encoding.
   */
  method ParseSettings(search: string, sizeInput: int, baseInput: int) returns (game: Game, query: string)
    ensures fresh(game) && game.Valid()
    ensures Session(game.size, game.base, game.States())
         == Decode(if |search| == 0 then "" else search[1..], sizeInput, baseInput)
    ensures query == Encode(game.size, game.base, game.States())
  {
    var q := if |search| == 0 then "" else search[1..];
    var pairs := Pairs(q);
    var settings := ScanSettings(pairs, sizeInput, baseInput);
    ghost var restored := if Restorable(settings.state, settings.size)
      then DigitsBoard(settings.state.value, Dim(settings.size)) else Zeros(Dim(settings.size));
    DecodeSteps(q, sizeInput, baseInput, settings);
    ghost var outcome := Decode(q, sizeInput, baseInput);
    assert outcome == Session(settings.size, settings.base, restored);
    game, query := InitGame(settings.size, settings.base);
    var aborted := Restore(game, settings.state);
    assert game.States() == restored;
    if !aborted {
      query := game.Update();
    }
  }
}

/**
 * The session codec's wire format, as pure functions: the query string that
 * `Game.update` writes (`size=<int>&base=<int>&state=<states>`), the
 * key/value scan of `parse_settings`, and the all-or-nothing restoration of
 * the captured state string.
 */
module Wire {
  import opened Optional
  import opened Text
  import opened Boards

  /** The pieces one after another, with no separator. */
  function Concat(parts: seq<string>): string {
    if |parts| == 0 then "" else parts[0] + Concat(parts[1..])
  }

  /** One row's states in decimal, left to right, with no separator. */
  function RowString(row: seq<nat>): (s: string)
    ensures AllDigits(s)
  {
    var cells := seq(|row|, i requires 0 <= i < |row| => NatToString(row[i]));
    ConcatDigits(cells);
    Concat(cells)
  }

  /**
   * The `state` value of the query string: every row's string, top row
   * first. It holds only digits, so never '&' or '='.
   */
  function StateString(b: Board): (s: string)
    ensures AllDigits(s)
  {
    var rows := seq(|b|, y requires 0 <= y < |b| => RowString(b[y]));
    ConcatDigits(rows);
    Concat(rows)
  }

  /**
   * The query string for a given size, base and state value: the three
   * `key=value` pairs joined by '&', which spells `size=<size>&base=<base>&state=<state>`.
   */
  function Query(size: int, base: int, state: string): (q: string)
    ensures q == "size=" + IntToString(size) + "&base=" + IntToString(base) + "&state=" + state
  {
    var zs, bs := IntToString(size), IntToString(base);
    var pairs := [Join(["size", zs], '='), Join(["base", bs], '='), Join(["state", state], '=')];
    assert pairs[0] == "size=" + zs by {
      JoinTwo("size", zs, '=');
    }
    assert pairs[1] == "base=" + bs by {
      JoinTwo("base", bs, '=');
    }
    assert pairs[2] == "state=" + state by {
      JoinTwo("state", state, '=');
    }
    assert Join(pairs, '&') == "size=" + zs + "&base=" + bs + "&state=" + state by {
      JoinThree(pairs[0], pairs[1], pairs[2], '&');
      assert "&" + "base=" == "&base=" && "&" + "state=" == "&state=";
    }
    Join(pairs, '&')
  }

  /**
   * What `Game.update` hands to the address bar, after the '?'. The reader
   * of the query finds exactly its `size`, `base` and `state` pairs, in that order.
   */
  function Encode(size: int, base: int, b: Board): (q: string)
    ensures Pairs(q) == [Pair("size", Some(IntToString(size))), Pair("base", Some(IntToString(base))),
                         Pair("state", Some(StateString(b)))]
  {
    PairsOfQuery(size, base, StateString(b));
    Query(size, base, StateString(b))
  }

  lemma {:induction false} ConcatDigits(parts: seq<string>)
    requires forall k :: 0 <= k < |parts| ==> AllDigits(parts[k])
    ensures AllDigits(Concat(parts))
  {
    if |parts| > 0 {
      ConcatDigits(parts[1..]);
    }
  }

  lemma {:induction false} ConcatLength(parts: seq<string>, w: nat)
    requires forall k :: 0 <= k < |parts| ==> |parts[k]| == w
    ensures |Concat(parts)| == |parts| * w
  {
    if |parts| > 0 {
      ConcatLength(parts[1..], w);
      assert |parts| * w == w + (|parts| - 1) * w;
    }
  }

  /** Concatenating pieces of width `w` lays piece k's character i at k * w + i. */
  lemma {:induction false} ConcatAt(parts: seq<string>, w: nat, k: nat, i: nat)
    requires forall j :: 0 <= j < |parts| ==> |parts[j]| == w
    requires k < |parts| && i < w
    ensures k * w + i < |Concat(parts)| && Concat(parts)[k * w + i] == parts[k][i]
  {
    ConcatLength(parts, w);
    if k > 0 {
      ConcatAt(parts[1..], w, k - 1, i);
      assert k * w + i == w + ((k - 1) * w + i);
    }
  }

  /** A row of single-digit states renders as one digit per cell. */
  lemma RowStringAt(row: seq<nat>, x: nat)
    requires x < |row| && row[x] < 10
    requires forall i :: 0 <= i < |row| ==> row[i] < 10
    ensures |RowString(row)| == |row| && RowString(row)[x] == DigitChar(row[x])
  {
    var cells := seq(|row|, i requires 0 <= i < |row| => NatToString(row[i]));
    ConcatAt(cells, 1, x, 0);
    ConcatLength(cells, 1);
  }

  /** When every state is a single digit, the state string has n * n characters. */
  lemma StateStringLength(b: Board, n: nat)
    requires IsSquare(b, n) && InRange(b, 10)
    ensures |StateString(b)| == n * n
  {
    var rows := seq(|b|, y requires 0 <= y < |b| => RowString(b[y]));
    forall y | 0 <= y < n ensures |rows[y]| == n {
      ConcatLength(seq(|b[y]|, i requires 0 <= i < |b[y]| => NatToString(b[y][i])), 1);
    }
    ConcatLength(rows, n);
  }

  /**
   * When every state is a single digit (as it is for base <= 10), character
   * y * n + x of the state string is cell (x, y).
   */
  lemma StateStringAt(b: Board, n: nat, y: nat, x: nat)
    requires IsSquare(b, n) && InRange(b, 10) && y < n && x < n
    ensures y * n + x < |StateString(b)| && StateString(b)[y * n + x] == DigitChar(b[y][x])
  {
    var rows := seq(|b|, y requires 0 <= y < |b| => RowString(b[y]));
    forall j | 0 <= j < n ensures |rows[j]| == n {
      RowStringAt(b[j], 0);
    }
    ConcatAt(rows, n, y, x);
    RowStringAt(b[y], x);
  }

  lemma IndexInSquare(y: nat, x: nat, n: nat)
    requires y < n && x < n
    ensures y * n + x < n * n
  {
    assert y * n <= (n - 1) * n;
  }

  /** The state at row y, column x of a restored grid: the digit at y * n + x. */
  function DigitAt(st: string, n: nat, y: nat, x: nat): (d: nat)
    requires AllDigits(st) && n * n <= |st| && y < n && x < n
    ensures d < 10
  {
    IndexInSquare(y, x, n);
    DigitValue(st[y * n + x]).value
  }

  /** The grid the nested restoration loops of `parse_settings` produce from a digit string. */
  function DigitsBoard(st: string, n: nat): (b: Board)
    requires AllDigits(st) && n * n <= |st|
    ensures IsSquare(b, n) && InRange(b, 10)
  {
    seq(n, y requires 0 <= y < n => seq(n, x requires 0 <= x < n => DigitAt(st, n, y, x)))
  }

  /** Reading back a state string of single digits gives the grid that was written. */
  lemma DigitsBoardOfStateString(b: Board, n: nat)
    requires IsSquare(b, n) && InRange(b, 10)
    ensures AllDigits(StateString(b)) && |StateString(b)| == n * n
    ensures DigitsBoard(StateString(b), n) == b
  {
    StateStringLength(b, n);
    var r := DigitsBoard(StateString(b), n);
    forall y | 0 <= y < n ensures r[y] == b[y] {
      forall x | 0 <= x < n ensures r[y][x] == b[y][x] {
        StateStringAt(b, n, y, x);
        assert DigitValue(DigitChar(b[y][x])).value == b[y][x];
      }
    }
  }

  /** The row and column of position k in a row-major n x n layout. */
  lemma RowColumn(k: nat, n: nat) returns (y: nat, x: nat)
    requires k < n * n
    ensures y < n && x < n && k == y * n + x
  {
    y, x := k / n, k % n;
    assert y * n <= k;
  }

  /** Re-serialising a grid restored from a digit string of length n * n gives that string back. */
  lemma StateStringOfDigitsBoard(st: string, n: nat)
    requires AllDigits(st) && |st| == n * n
    ensures StateString(DigitsBoard(st, n)) == st
  {
    var b := DigitsBoard(st, n);
    StateStringLength(b, n);
    var s := StateString(b);
    forall k | 0 <= k < |st| ensures s[k] == st[k] {
      var y, x := RowColumn(k, n);
      StateStringAt(b, n, y, x);
      assert b[y][x] == DigitValue(st[y * n + x]).value;
    }
  }

  /** A key/value pair of the query: the text before the first '=', and the text up to a second one. */
  datatype Pair = Pair(key: string, value: Option<string>)

  /**
   * A piece of the query split at '=': the key is the text before the first
   * '=' (the whole piece when there is none), the value the text after it up
   * to the next '=' or the end.
   */
  function PairOf(bit: string): (p: Pair)
    ensures '=' !in p.key && (p.value.Some? ==> '=' !in p.value.value)
    ensures p.value.None? <==> '=' !in bit
    ensures p.value.None? ==> p.key == bit
    ensures p.value.Some? ==> p.key + "=" + p.value.value <= bit
    ensures p.value.Some? ==>
      var n := |p.key| + 1 + |p.value.value|;
      n == |bit| || bit[n] == '='
  {
    var kv := Split(bit, '=');
    JoinSplit(bit, '=');
    SplitCount(bit, '=');
    if |kv| > 1 then
      var tail := Join(kv[1..], '=');
      assert bit == kv[0] + "=" + tail;
      assert kv[1..][0] == kv[1];
      Pair(kv[0], Some(kv[1]))
    else
      Pair(kv[0], None)
  }

  /** The pairs of a query (the text after the '?'): split at '&', then each piece at '='. */
  function Pairs(query: string): (r: seq<Pair>)
    ensures 0 < |r|
    ensures |r| == 1 <==> '&' !in query
    ensures forall k :: 0 <= k < |r| ==> '=' !in r[k].key
  {
    var bits := Split(query, '&');
    SplitCount(query, '&');
    seq(|bits|, k requires 0 <= k < |bits| => PairOf(bits[k]))
  }

  /** A query without '&' is a single pair. */
  lemma PairsOfPiece(q: string)
    requires '&' !in q
    ensures Pairs(q) == [PairOf(q)]
  {
    SplitWithoutSep(q, '&');
  }

  /** The pairs of a query are read piece by piece in order: the first '&'-piece gives the first pair. */
  lemma PairsOfConcat(a: string, b: string)
    requires '&' !in a
    ensures Pairs(a + "&" + b) == [PairOf(a)] + Pairs(b)
  {
    SplitAfterPiece(a, b, '&');
  }

  /** The size and base inputs and the captured `state` value while the pairs are scanned. */
  datatype Settings = Settings(size: int, base: int, state: Option<string>)

  /** Whether a value is applied to the size or base input: it is present and `parseInt` succeeds on it. */
  predicate Parses(value: Option<string>) {
    value.Some? && ParseInt(value.value).Some?
  }

  /** The effect of one pair: the body of the `switch` in `parse_settings`. */
  function Apply(s: Settings, p: Pair): (r: Settings)
    ensures r.size != s.size ==> SetsSize(p) && r.size == ParseInt(p.value.value).value
    ensures r.base != s.base ==> SetsBase(p) && r.base == ParseInt(p.value.value).value
    ensures r.state != s.state ==> p.key == "state" && r.state == p.value
    ensures !Known(p) ==> r == s
  {
    if p.key == "size" then
      if Parses(p.value) then s.(size := ParseInt(p.value.value).value) else s
    else if p.key == "base" then
      if Parses(p.value) then s.(base := ParseInt(p.value.value).value) else s
    else if p.key == "state" then
      s.(state := p.value)
    else
      s
  }

  /** The settings after the `forEach` over the pairs, in order. */
  function Scan(pairs: seq<Pair>, init: Settings): (r: Settings)
    ensures r.state == init.state || exists k :: 0 <= k < |pairs| && pairs[k].key == "state" && pairs[k].value == r.state
  {
    if |pairs| == 0 then init
    else
      var front := pairs[..|pairs| - 1];
      assert forall k :: 0 <= k < |front| ==> front[k] == pairs[k];
      Apply(Scan(front, init), pairs[|pairs| - 1])
  }

  predicate Known(p: Pair) {
    p.key == "size" || p.key == "base" || p.key == "state"
  }

  function KnownOnly(pairs: seq<Pair>): (r: seq<Pair>)
    ensures forall k :: 0 <= k < |r| ==> Known(r[k])
  {
    if |pairs| == 0 then []
    else
      var last := pairs[|pairs| - 1];
      KnownOnly(pairs[..|pairs| - 1]) + if Known(last) then [last] else []
  }

  /** Pairs with unknown keys leave the size, base and captured state untouched. */
  lemma {:induction false} ScanIgnoresUnknown(pairs: seq<Pair>, init: Settings)
    ensures Scan(pairs, init) == Scan(KnownOnly(pairs), init)
  {
    if |pairs| > 0 {
      var front, last := pairs[..|pairs| - 1], pairs[|pairs| - 1];
      ScanIgnoresUnknown(front, init);
      assert Scan(pairs, init) == Apply(Scan(front, init), last);
      if Known(last) {
        var k := KnownOnly(front) + [last];
        assert KnownOnly(pairs) == k;
        assert k[..|k| - 1] == KnownOnly(front);
      } else {
        assert KnownOnly(pairs) == KnownOnly(front) + [];
        assert KnownOnly(front) + [] == KnownOnly(front);
      }
    }
  }

  /** A `size` pair whose value parses: the only kind that changes the size. */
  predicate SetsSize(p: Pair) {
    p.key == "size" && Parses(p.value)
  }

  /** A `base` pair whose value parses: the only kind that changes the base. */
  predicate SetsBase(p: Pair) {
    p.key == "base" && Parses(p.value)
  }

  /** The size set earlier survives later pairs none of which sets the size. */
  lemma {:induction false} ScanKeepsSize(pre: seq<Pair>, post: seq<Pair>, init: Settings)
    requires forall k :: 0 <= k < |post| ==> !SetsSize(post[k])
    ensures Scan(pre + post, init).size == Scan(pre, init).size
  {
    if |post| > 0 {
      var front := post[..|post| - 1];
      ScanKeepsSize(pre, front, init);
      assert (pre + post)[..|pre + post| - 1] == pre + front;
    } else {
      assert pre + post == pre;
    }
  }

  /** The base set earlier survives later pairs none of which sets the base. */
  lemma {:induction false} ScanKeepsBase(pre: seq<Pair>, post: seq<Pair>, init: Settings)
    requires forall k :: 0 <= k < |post| ==> !SetsBase(post[k])
    ensures Scan(pre + post, init).base == Scan(pre, init).base
  {
    if |post| > 0 {
      var front := post[..|post| - 1];
      ScanKeepsBase(pre, front, init);
      assert (pre + post)[..|pre + post| - 1] == pre + front;
    } else {
      assert pre + post == pre;
    }
  }

  /** The state captured earlier survives later pairs none of which has the key `state`. */
  lemma {:induction false} ScanKeepsState(pre: seq<Pair>, post: seq<Pair>, init: Settings)
    requires forall k :: 0 <= k < |post| ==> post[k].key != "state"
    ensures Scan(pre + post, init).state == Scan(pre, init).state
  {
    if |post| > 0 {
      var front := post[..|post| - 1];
      ScanKeepsState(pre, front, init);
      assert (pre + post)[..|pre + post| - 1] == pre + front;
    } else {
      assert pre + post == pre;
    }
  }

  /** The last `state` pair decides the captured state, even when it carries no value. */
  lemma LastStateWins(pre: seq<Pair>, v: Option<string>, post: seq<Pair>, init: Settings)
    requires forall k :: 0 <= k < |post| ==> post[k].key != "state"
    ensures Scan(pre + [Pair("state", v)] + post, init).state == v
  {
    var p := pre + [Pair("state", v)];
    ScanKeepsState(p, post, init);
    assert p[..|p| - 1] == pre;
  }

  /** The size after the scan is the initial one or the parsed value of some `size` pair. */
  lemma {:induction false} ScanSizeOrigin(pairs: seq<Pair>, init: Settings)
    ensures var r := Scan(pairs, init);
      r.size == init.size ||
      exists k :: 0 <= k < |pairs| && SetsSize(pairs[k]) && ParseInt(pairs[k].value.value).value == r.size
  {
    if |pairs| > 0 {
      var front := pairs[..|pairs| - 1];
      ScanSizeOrigin(front, init);
      var r := Scan(front, init);
      if Scan(pairs, init).size == r.size && r.size != init.size {
        var k :| 0 <= k < |front| && SetsSize(front[k]) && ParseInt(front[k].value.value).value == r.size;
        assert pairs[k] == front[k];
      }
    }
  }

  /** The last `size` pair whose value parses decides the size. */
  lemma LastSizeWins(pre: seq<Pair>, p: Pair, post: seq<Pair>, init: Settings)
    requires SetsSize(p)
    requires forall k :: 0 <= k < |post| ==> !SetsSize(post[k])
    ensures Scan(pre + [p] + post, init).size == ParseInt(p.value.value).value
  {
    var q := pre + [p];
    ScanKeepsSize(q, post, init);
    assert q[..|q| - 1] == pre;
  }

  /** The last `base` pair whose value parses decides the base. */
  lemma LastBaseWins(pre: seq<Pair>, p: Pair, post: seq<Pair>, init: Settings)
    requires SetsBase(p)
    requires forall k :: 0 <= k < |post| ==> !SetsBase(post[k])
    ensures Scan(pre + [p] + post, init).base == ParseInt(p.value.value).value
  {
    var q := pre + [p];
    ScanKeepsBase(q, post, init);
    assert q[..|q| - 1] == pre;
  }

  /** The base after the scan is the initial one or the parsed value of some `base` pair. */
  lemma {:induction false} ScanBaseOrigin(pairs: seq<Pair>, init: Settings)
    ensures var r := Scan(pairs, init);
      r.base == init.base ||
      exists k :: 0 <= k < |pairs| && SetsBase(pairs[k]) && ParseInt(pairs[k].value.value).value == r.base
  {
    if |pairs| > 0 {
      var front := pairs[..|pairs| - 1];
      ScanBaseOrigin(front, init);
      var r := Scan(front, init);
      if Scan(pairs, init).base == r.base && r.base != init.base {
        var k :| 0 <= k < |front| && SetsBase(front[k]) && ParseInt(front[k].value.value).value == r.base;
        assert pairs[k] == front[k];
      }
    }
  }

  /**
   * The condition under which `parse_settings` restores the grid: a state
   * was captured, it is not empty, its length is size * size, and every
   * character parses as a digit.
   */
  predicate Restorable(state: Option<string>, size: int): (r: bool)
    ensures r ==> size != 0
    ensures r ==> state.Some? && AllDigits(state.value) && |state.value| == size * size
    ensures r ==> Dim(size) * Dim(size) <= |state.value|
    ensures r && 0 < size ==> StateString(DigitsBoard(state.value, size)) == state.value
  {
    var ok := state.Some? && |state.value| > 0 && |state.value| == size * size && AllDigits(state.value);
    if ok && 0 < size then
      StateStringOfDigitsBoard(state.value, size);
      ok
    else
      ok
  }

  /** Size, base and grid that a page load ends with. */
  datatype Session = Session(size: int, base: int, board: Board)

  /**
   * Decoding of a query string, starting from the size and base the inputs
   * already hold: the grid is either the freshly built all-zero one, or one
   * whose state string is exactly the captured state.
   */
  function Decode(query: string, size0: int, base0: int): (r: Session)
    ensures IsSquare(r.board, Dim(r.size))
  {
    var s := Scan(Pairs(query), Settings(size0, base0, None));
    var n := Dim(s.size);
    if Restorable(s.state, s.size) then
      assert n * n <= |s.state.value|;
      Session(s.size, s.base, DigitsBoard(s.state.value, n))
    else
      Session(s.size, s.base, Zeros(n))
  }

  /** Decoding in two steps: the scan of the pairs, then the restoration. */
  lemma DecodeSteps(query: string, size0: int, base0: int, s: Settings)
    requires s == Scan(Pairs(query), Settings(size0, base0, None))
    ensures Decode(query, size0, base0) == Session(s.size, s.base,
      if Restorable(s.state, s.size) then DigitsBoard(s.state.value, Dim(s.size)) else Zeros(Dim(s.size)))
  {
  }

  /**
   * The grid a decode ends with: restored from the captured state exactly
   * when that state is restorable, and then serialising back to it for a
   * positive size; the freshly built all-zero grid otherwise.
   */
  lemma DecodeOutcome(query: string, size0: int, base0: int)
    ensures var r := Decode(query, size0, base0);
      var captured := Scan(Pairs(query), Settings(size0, base0, None)).state;
      (Restorable(captured, r.size) ==> r.board == DigitsBoard(captured.value, Dim(r.size)))
      && (!Restorable(captured, r.size) ==> r.board == Zeros(Dim(r.size)))
      && (Restorable(captured, r.size) && 0 < r.size ==> StateString(r.board) == captured.value)
  {
    var s := Scan(Pairs(query), Settings(size0, base0, None));
    DecodeSteps(query, size0, base0, s);
  }

  /** A piece `key=value` with no other '=' reads as that key and value. */
  lemma PairOfKeyValue(key: string, value: string)
    requires '=' !in key && '=' !in value
    ensures PairOf(key + "=" + value) == Pair(key, Some(value))
  {
    SplitAfterPiece(key, value, '=');
    SplitWithoutSep(value, '=');
  }

  /** A decimal rendering holds neither separator of the query. */
  lemma IntToStringPlain(n: int)
    ensures '=' !in IntToString(n) && '&' !in IntToString(n)
  {
    var s := IntToString(n);
    assert forall i :: 1 <= i < |s| ==> s[1..][i - 1] == s[i];
  }

  /** The pairs read from a query written by the encoder are its three pairs. */
  lemma PairsOfQuery(size: int, base: int, st: string)
    requires '&' !in st && '=' !in st
    ensures Pairs(Query(size, base, st))
         == [Pair("size", Some(IntToString(size))), Pair("base", Some(IntToString(base))), Pair("state", Some(st))]
  {
    var zs, bs := IntToString(size), IntToString(base);
    var a, b, c := "size" + "=" + zs, "base" + "=" + bs, "state" + "=" + st;
    QueryPieces(size, base, st);
    assert Pairs(a + "&" + (b + "&" + c)) == [PairOf(a), PairOf(b), PairOf(c)] by {
      IntToStringPlain(size);
      IntToStringPlain(base);
      PairsOfThree(a, b, c);
    }
    assert PairOf(a) == Pair("size", Some(zs)) by {
      IntToStringPlain(size);
      PairOfKeyValue("size", zs);
    }
    assert PairOf(b) == Pair("base", Some(bs)) by {
      IntToStringPlain(base);
      PairOfKeyValue("base", bs);
    }
    PairOfKeyValue("state", st);
  }

  lemma QueryPieces(size: int, base: int, st: string)
    ensures Query(size, base, st)
         == ("size" + "=" + IntToString(size)) + "&" + (("base" + "=" + IntToString(base)) + "&" + ("state" + "=" + st))
  {
    var zs, bs := IntToString(size), IntToString(base);
    assert "size" + "=" == "size=" && "&" + "base" + "=" == "&base=" && "&" + "state" + "=" == "&state=";
    var b, c := "base" + "=" + bs, "state" + "=" + st;
    assert "&" + (b + "&" + c) == ("&" + "base" + "=") + bs + ("&" + "state" + "=") + st;
  }

  lemma PairsOfThree(a: string, b: string, c: string)
    requires '&' !in a && '&' !in b && '&' !in c
    ensures Pairs(a + "&" + (b + "&" + c)) == [PairOf(a), PairOf(b), PairOf(c)]
  {
    PairsOfPiece(c);
    PairsOfConcat(b, c);
    PairsOfConcat(a, b + "&" + c);
  }

  /** Scanning a query of the encoder's shape takes over its size, base and state. */
  lemma ScanQuery(size: int, base: int, st: string, init: Settings)
    requires '&' !in st && '=' !in st
    ensures Scan(Pairs(Query(size, base, st)), init) == init.(size := size, base := base, state := Some(st))
  {
    PairsOfQuery(size, base, st);
    ParseIntOfIntToString(size);
    ParseIntOfIntToString(base);
    var p0, p1, p2 := Pair("size", Some(IntToString(size))), Pair("base", Some(IntToString(base))), Pair("state", Some(st));
    var ps := [p0, p1, p2];
    assert ps[..2] == [p0, p1] && [p0, p1][..1] == [p0] && [p0][..0] == [];
    assert Scan([p0], init) == init.(size := size);
    assert Scan([p0, p1], init) == init.(size := size, base := base);
    assert Scan(ps, init) == Apply(init.(size := size, base := base), p2);
  }

  /**
   * Decoding a query of the encoder's shape: size and base are taken over,
   * and the grid is restored from the state value exactly when it is
   * restorable.
   */
  lemma DecodeQuery(size: int, base: int, st: string, size0: int, base0: int)
    requires '&' !in st && '=' !in st
    ensures Decode(Query(size, base, st), size0, base0).size == size
    ensures Decode(Query(size, base, st), size0, base0).base == base
    ensures Decode(Query(size, base, st), size0, base0).board
         == if Restorable(Some(st), size) then DigitsBoard(st, Dim(size)) else Zeros(Dim(size))
  {
    ScanQuery(size, base, st, Settings(size0, base0, None));
    DecodeSteps(Query(size, base, st), size0, base0, Settings(size, base, Some(st)));
  }

  /**
   * Round trip: decoding what the encoder writes for a grid of single-digit
   * states restores that size, base and grid, whatever the inputs held before.
   */
  lemma DecodeEncode(size: int, base: int, b: Board, size0: int, base0: int)
    requires IsSquare(b, Dim(size)) && InRange(b, 10)
    ensures Decode(Encode(size, base, b), size0, base0) == Session(size, base, b)
  {
    var n := Dim(size);
    DigitsBoardOfStateString(b, n);
    assert '&' !in StateString(b) && '=' !in StateString(b);
    DecodeQuery(size, base, StateString(b), size0, base0);
    if n == 0 {
      assert b == [] == Zeros(0);
    }
  }

  /**
   * For a digit string of length size * size, the restored grid serialises
   * back to the same query string.
   */
  lemma ReencodeDecoded(size: int, base: int, st: string, size0: int, base0: int)
    requires 0 < size && AllDigits(st) && |st| == size * size
    ensures var r := Decode(Query(size, base, st), size0, base0);
      Encode(r.size, r.base, r.board) == Query(size, base, st)
  {
    assert '&' !in st && '=' !in st;
    DecodeQuery(size, base, st, size0, base0);
    StateStringOfDigitsBoard(st, size);
  }

  /**
   * A captured state of the wrong length or with a non-digit character is
   * dropped as a whole: the grid is the all-zero one.
   */
  lemma MalformedStateGivesZeros(size: int, base: int, st: string, size0: int, base0: int)
    requires '&' !in st && '=' !in st
    requires |st| != size * size || exists i :: 0 <= i < |st| && !IsDigit(st[i])
    ensures Decode(Query(size, base, st), size0, base0) == Session(size, base, Zeros(Dim(size)))
  {
    DecodeQuery(size, base, st, size0, base0);
  }

  /** A click in the centre of a 3 x 3 grid of base 2 lights the plus shape. */
  lemma CentreClickExample()
    ensures StateString(ClickBoard(Zeros(3), 1, 1, 2)) == "010111010"
  {
    var b := ClickBoard(Zeros(3), 1, 1, 2);
    assert InRange(b, 10);
    StateStringLength(b, 3);
    StateStringAt(b, 3, 0, 0); StateStringAt(b, 3, 0, 1); StateStringAt(b, 3, 0, 2);
    StateStringAt(b, 3, 1, 0); StateStringAt(b, 3, 1, 1); StateStringAt(b, 3, 1, 2);
    StateStringAt(b, 3, 2, 0); StateStringAt(b, 3, 2, 1); StateStringAt(b, 3, 2, 2);
  }

  /** A click in the corner of a 2 x 2 grid of base 3 skips the two off-grid neighbours. */
  lemma CornerClickExample()
    ensures StateString(ClickBoard(Zeros(2), 0, 0, 3)) == "1110"
  {
    var b := ClickBoard(Zeros(2), 0, 0, 3);
    assert InRange(b, 10);
    StateStringLength(b, 2);
    StateStringAt(b, 2, 0, 0); StateStringAt(b, 2, 0, 1);
    StateStringAt(b, 2, 1, 0); StateStringAt(b, 2, 1, 1);
  }
}

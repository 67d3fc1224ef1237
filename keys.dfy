/** The canonical slot key `${row}-${col}`: the decimal rendering of the two
    integers joined by a dash, as JavaScript's template string produces it
    for integer-valued numbers. */
module Keys {
  import opened Records

  predicate IsDigit(ch: char) {
    '0' <= ch <= '9'
  }

  predicate AllDigits(s: string) {
    forall i :: 0 <= i < |s| ==> IsDigit(s[i])
  }

  function Digit(d: int): (ch: char)
    requires 0 <= d < 10
    ensures IsDigit(ch) && ch as int - '0' as int == d
  {
    (48 + d) as char
  }

  /** Decimal numeral of a natural number, with no leading zero. */
  function NatToString(n: nat): (s: string)
    ensures |s| >= 1 && AllDigits(s)
    ensures n >= 10 <==> |s| >= 2
    ensures s[0] == '0' <==> n == 0
    decreases n
  {
    if n < 10 then [Digit(n)] else NatToString(n / 10) + [Digit(n % 10)]
  }

  /** The numeral of an integer: a leading '-' for a negative number. */
  function IntToString(n: int): (s: string)
    ensures |s| >= 1
    ensures s[0] == '-' <==> n < 0
    ensures n < 0 ==> AllDigits(s[1..])
    ensures n >= 0 ==> AllDigits(s)
  {
    if n < 0 then "-" + NatToString(-n) else NatToString(n)
  }

  /** Reads back a string of decimal digits. */
  function ParseNat(s: string): nat
    requires AllDigits(s)
  {
    if s == [] then 0
    else ParseNat(s[..|s| - 1]) * 10 + (s[|s| - 1] as int - '0' as int)
  }

  function ParseInt(s: string): int
    requires |s| >= 1
    requires s[0] == '-' ==> AllDigits(s[1..])
    requires s[0] != '-' ==> AllDigits(s)
  {
    if s[0] == '-' then -(ParseNat(s[1..]) as int) else ParseNat(s)
  }

  lemma {:induction false} NatRoundTrip(n: nat)
    ensures ParseNat(NatToString(n)) == n
    decreases n
  {
    var s := NatToString(n);
    if n >= 10 {
      NatRoundTrip(n / 10);
      assert s[..|s| - 1] == NatToString(n / 10);
    }
  }

  lemma IntRoundTrip(n: int)
    ensures ParseInt(IntToString(n)) == n
  {
    var s := IntToString(n);
    if n < 0 {
      assert s[1..] == NatToString(-n);
      NatRoundTrip(-n);
    } else {
      NatRoundTrip(n);
    }
  }

  /** The key under which the wish at (row, col) is stored and looked up:
      the row's numeral, then a dash, then the column's numeral. */
  function SlotKey(row: int, col: int): string {
    IntToString(row) + "-" + IntToString(col)
  }

  /** The key of the slot a wish names. */
  function KeyOf(w: Wish): string {
    SlotKey(w.grid_row, w.grid_col)
  }

  /** A key reads back as its position: the text before the dash that ends
      the row's numeral parses as the row, the text after it as the column. */
  lemma SlotKeyReadsBack(row: int, col: int)
    ensures ParseInt(SlotKey(row, col)[..|IntToString(row)|]) == row
    ensures ParseInt(SlotKey(row, col)[|IntToString(row)| + 1..]) == col
  {
    var key := SlotKey(row, col);
    assert key[..|IntToString(row)|] == IntToString(row);
    assert key[|IntToString(row)| + 1..] == IntToString(col);
    IntRoundTrip(row);
    IntRoundTrip(col);
  }

  lemma DigitsBeforeDash(a: string, x: string, b: string, y: string)
    requires AllDigits(b) && |a| < |b|
    ensures (a + "-" + x)[|a|] != (b + "-" + y)[|a|]
  {
    assert (b + "-" + y)[|a|] == b[|a|];
  }

  /** A dash after a run of digits marks where the run ends. */
  lemma {:induction false} SplitAtDash(a: string, x: string, b: string, y: string)
    requires AllDigits(a) && AllDigits(b)
    requires a + "-" + x == b + "-" + y
    ensures a == b && x == y
  {
    var s := a + "-" + x;
    if |a| < |b| {
      DigitsBeforeDash(a, x, b, y);
    } else if |b| < |a| {
      DigitsBeforeDash(b, y, a, x);
    }
    assert a == s[..|a|];
    assert x == s[|a| + 1..];
  }

  /** A key splits back into the numerals of its row and its column. */
  lemma SameSignRow(r1: int, c1: int, r2: int, c2: int)
    requires SlotKey(r1, c1) == SlotKey(r2, c2)
    ensures r1 < 0 <==> r2 < 0
  {
    assert SlotKey(r1, c1)[0] == IntToString(r1)[0];
    assert SlotKey(r2, c2)[0] == IntToString(r2)[0];
  }

  /** A key is the optional sign of the row, then the row's digits, a
      dash and the column's numeral. */
  lemma KeyShape(r: int, c: int)
    ensures r < 0 ==> SlotKey(r, c) == "-" + (NatToString(-r) + "-" + IntToString(c))
    ensures r >= 0 ==> SlotKey(r, c) == NatToString(r) + "-" + IntToString(c)
  {
    if r < 0 {
      assert IntToString(r) == "-" + NatToString(-r);
      assert "-" + NatToString(-r) + "-" + IntToString(c) == "-" + (NatToString(-r) + "-" + IntToString(c));
    }
  }

  lemma NumeralsOfKey(r1: int, c1: int, r2: int, c2: int)
    requires SlotKey(r1, c1) == SlotKey(r2, c2)
    ensures NatToString(if r1 < 0 then -r1 else r1) == NatToString(if r2 < 0 then -r2 else r2)
    ensures IntToString(c1) == IntToString(c2)
  {
    SameSignRow(r1, c1, r2, c2);
    KeyShape(r1, c1);
    KeyShape(r2, c2);
    var a1: nat, a2: nat := if r1 < 0 then -r1 else r1, if r2 < 0 then -r2 else r2;
    var t1, t2 := NatToString(a1) + "-" + IntToString(c1), NatToString(a2) + "-" + IntToString(c2);
    if r1 < 0 {
      assert t1 == ("-" + t1)[1..];
      assert t2 == ("-" + t2)[1..];
    }
    assert t1 == t2;
    SplitAtDash(NatToString(a1), IntToString(c1), NatToString(a2), IntToString(c2));
  }

  /** Distinct positions never share a key, for every pair of integers,
      including negative columns: (1, -1) gives "1--1" and (1, 1) "1-1". */
  lemma SlotKeyInjective(r1: int, c1: int, r2: int, c2: int)
    requires SlotKey(r1, c1) == SlotKey(r2, c2)
    ensures r1 == r2 && c1 == c2
  {
    SameSignRow(r1, c1, r2, c2);
    NumeralsOfKey(r1, c1, r2, c2);
    NatRoundTrip(if r1 < 0 then -r1 else r1);
    NatRoundTrip(if r2 < 0 then -r2 else r2);
    IntRoundTrip(c1);
    IntRoundTrip(c2);
  }

  lemma KeyOfInjective(w1: Wish, w2: Wish)
    requires KeyOf(w1) == KeyOf(w2)
    ensures w1.grid_row == w2.grid_row && w1.grid_col == w2.grid_col
  {
    SlotKeyInjective(w1.grid_row, w1.grid_col, w2.grid_row, w2.grid_col);
  }
}

/**
 * The console of src/kernel.cpp as values: an 80x24 grid of cells, a cursor
 * and the current attribute, and what initialisation, one character and a
 * run of characters do to them.
 */
module Terminal {
  import opened VgaCell

  const Width: nat := 80
  /** The source's grid is 24 rows high, one less than the usual 25. */
  const Height: nat := 24
  const Cells: nat := Width * Height

  /** The write position: `term_row` and `term_column`. */
  datatype Cursor = Cursor(row: nat, column: nat)

  const Origin := Cursor(0, 0)

  predicate InBounds(c: Cursor) { c.row < Height && c.column < Width }

  /** The buffer index `y * 80 + x` of a position: it lies inside the buffer. */
  function Linear(c: Cursor): (i: nat)
    requires InBounds(c)
    ensures i < Cells
  {
    c.row * Width + c.column
  }

  /** Row and column are recovered from the buffer index by division and remainder. */
  lemma LinearDecode(c: Cursor)
    requires InBounds(c)
    ensures Linear(c) / Width == c.row && Linear(c) % Width == c.column
  {
  }

  /** Distinct positions of the grid have distinct buffer indices. */
  lemma LinearInjective(c: Cursor, d: Cursor)
    requires InBounds(c) && InBounds(d) && Linear(c) == Linear(d)
    ensures c == d
  {
    LinearDecode(c);
    LinearDecode(d);
  }

  /**
   * The cursor step of term_putchar: the column is incremented; on reaching the
   * width it goes back to 0 and the row is incremented; on reaching the height
   * the row goes back to 0 (no scrolling). In buffer indices this is a step
   * forward modulo the grid size.
   */
  function Advance(c: Cursor): (r: Cursor)
    requires InBounds(c)
    ensures InBounds(r)
    ensures Linear(r) == if Linear(c) + 1 == Cells then 0 else Linear(c) + 1
  {
    if c.column + 1 == Width then
      if c.row + 1 == Height then Cursor(0, 0) else Cursor(c.row + 1, 0)
    else
      Cursor(c.row, c.column + 1)
  }

  /** The cursor after `n` steps. */
  function AdvanceN(c: Cursor, n: nat): (r: Cursor)
    requires InBounds(c)
    ensures InBounds(r)
  {
    if n == 0 then c else Advance(AdvanceN(c, n - 1))
  }

  lemma ModSucc(a: nat)
    ensures (if a % Cells + 1 == Cells then 0 else a % Cells + 1) == (a + 1) % Cells
  {
  }

  lemma ModCells(a: nat)
    requires a < Cells
    ensures (a + Cells) % Cells == a
  {
  }

  /** `n` steps move the buffer index `n` places forward, modulo the grid size. */
  lemma {:induction false} AdvanceNLinear(c: Cursor, n: nat)
    requires InBounds(c)
    ensures Linear(AdvanceN(c, n)) == (Linear(c) + n) % Cells
  {
    if n > 0 {
      var p := AdvanceN(c, n - 1);
      AdvanceNLinear(c, n - 1);
      ModSucc(Linear(c) + n - 1);
      assert AdvanceN(c, n) == Advance(p);
    }
  }

  /** Before the end of the grid is reached, `n` steps move the buffer index exactly `n` places forward. */
  lemma {:induction false} AdvanceNIndex(c: Cursor, n: nat)
    requires InBounds(c) && Linear(c) + n < Cells
    ensures Linear(AdvanceN(c, n)) == Linear(c) + n
  {
    if n > 0 {
      AdvanceNIndex(c, n - 1);
    }
  }

  /** Steps compose: `a` steps followed by `b` steps are `a + b` steps. */
  lemma {:induction false} AdvanceNAdd(c: Cursor, a: nat, b: nat)
    requires InBounds(c)
    ensures AdvanceN(AdvanceN(c, a), b) == AdvanceN(c, a + b)
  {
    if b > 0 {
      AdvanceNAdd(c, a, b - 1);
    }
  }

  lemma GridArith(n: nat)
    ensures (n % Cells) / Width == (n / Width) % Height
    ensures (n % Cells) % Width == n % Width
  {
    var q, k := n / Cells, n % Cells;
    assert n == Cells * q + k;
    var a, b := k / Width, k % Width;
    assert k == Width * a + b && a < Height;
    assert n == Width * (Height * q + a) + b;
    assert n / Width == Height * q + a;
    assert n % Width == b;
  }

  /** From the top left corner, `n` steps leave the cursor at column n mod 80 of row (n div 80) mod 24. */
  lemma {:induction false} AdvanceFromOrigin(n: nat)
    ensures AdvanceN(Origin, n) == Cursor((n / Width) % Height, n % Width)
  {
    var r := AdvanceN(Origin, n);
    AdvanceNLinear(Origin, n);
    GridArith(n);
    LinearDecode(r);
    assert Linear(r) == n % Cells;
  }

  /** A whole screen of steps brings every cursor back to where it started. */
  lemma {:induction false} FullWrap(c: Cursor)
    requires InBounds(c)
    ensures AdvanceN(c, Cells) == c
  {
    AdvanceNLinear(c, Cells);
    ModCells(Linear(c));
    LinearInjective(AdvanceN(c, Cells), c);
  }

  /** The console state: cursor, current attribute (`term_color`) and the cell buffer. */
  datatype Screen = Screen(cursor: Cursor, color: byte, cells: seq<word>)

  predicate Valid(s: Screen) { InBounds(s.cursor) && |s.cells| == Cells }

  /** The blank cell written everywhere by term_init. */
  function Blank(): (w: word)
    ensures CellChar(w) == Space && CellAttr(w) == 0x1F
  {
    Entry(Space, MakeColor(White, Blue))
  }

  /** The state term_init leaves: cursor at the origin, white on blue, every cell blank. */
  function Initial(): (s: Screen)
    ensures Valid(s) && s.cursor == Origin && s.color == 0x1F
    ensures forall i :: 0 <= i < Cells ==> s.cells[i] == Blank()
  {
    Screen(Origin, MakeColor(White, Blue), seq(Cells, _ => Blank()))
  }

  /** term_putchar on values: the cell under the cursor gets the character in the current attribute, then the cursor steps. */
  function Putc(s: Screen, ch: byte): (r: Screen)
    requires Valid(s)
    ensures Valid(r)
  {
    Screen(Advance(s.cursor), s.color, s.cells[Linear(s.cursor) := Entry(ch, s.color)])
  }

  /** term_writestr on values: term_putchar applied to each byte in order. */
  function Puts(s: Screen, str: seq<byte>): (r: Screen)
    requires Valid(s)
    ensures Valid(r)
    ensures r.color == s.color
    ensures r.cursor == AdvanceN(s.cursor, |str|)
    decreases |str|
  {
    if str == [] then s else Putc(Puts(s, str[..|str| - 1]), str[|str| - 1])
  }

  /** One character writes exactly the cell under the cursor, in the current attribute, and moves the cursor one place. */
  lemma PutcEffect(s: Screen, ch: byte)
    requires Valid(s)
    ensures CellChar(Putc(s, ch).cells[Linear(s.cursor)]) == ch
    ensures CellAttr(Putc(s, ch).cells[Linear(s.cursor)]) == s.color
    ensures forall j :: 0 <= j < Cells && j != Linear(s.cursor) ==> Putc(s, ch).cells[j] == s.cells[j]
    ensures Linear(Putc(s, ch).cursor) == (Linear(s.cursor) + 1) % Cells
    ensures Putc(s, ch).color == s.color
  {
    ModSucc(Linear(s.cursor));
  }

  /** After term_setcolor(c), the next character is written with attribute exactly `c`, whatever the previous one. */
  lemma SetColorThenPutc(s: Screen, c: byte, ch: byte)
    requires Valid(s)
    ensures CellAttr(Putc(s.(color := c), ch).cells[Linear(s.cursor)]) == c
  {
  }

  /** Extending a run by one more byte of the same string is one more character. */
  lemma PutsLast(s: Screen, str: seq<byte>, i: nat)
    requires Valid(s) && i < |str|
    ensures Puts(s, str[..i + 1]) == Putc(Puts(s, str[..i]), str[i])
  {
    assert str[..i + 1][..i] == str[..i];
  }

  /** Writing a concatenation is writing its parts one after the other. */
  lemma {:induction false} PutsAppend(s: Screen, a: seq<byte>, b: seq<byte>)
    requires Valid(s)
    ensures Puts(s, a + b) == Puts(Puts(s, a), b)
    decreases |b|
  {
    if b == [] {
      assert a + b == a;
    } else {
      var b' := b[..|b| - 1];
      assert (a + b)[..|a + b| - 1] == a + b';
      PutsAppend(s, a, b');
    }
  }

  /**
   * A run that does not pass the end of the grid puts byte k at index
   * Linear(cursor) + k in the current attribute, and leaves every other cell as it was.
   */
  lemma {:induction false} PutsCellAt(s: Screen, str: seq<byte>, j: nat)
    requires Valid(s) && Linear(s.cursor) + |str| <= Cells && j < Cells
    ensures Puts(s, str).cells[j] ==
            if Linear(s.cursor) <= j < Linear(s.cursor) + |str| then Entry(str[j - Linear(s.cursor)], s.color)
            else s.cells[j]
    decreases |str|
  {
    if str != [] {
      var n := |str| - 1;
      var l := Linear(s.cursor);
      var prefix := str[..n];
      var p := Puts(s, prefix);
      PutsCellAt(s, prefix, j);
      AdvanceNIndex(s.cursor, n);
      assert Puts(s, str) == Putc(p, str[n]);
      if l <= j < l + n {
        assert prefix[j - l] == str[j - l];
      }
    }
  }

  /** On the freshly initialised grid, a message shorter than a row occupies the first cells of row 0 in white on blue and nothing else. */
  lemma PutsOnInitial(str: seq<byte>)
    requires |str| < Width
    ensures Puts(Initial(), str) ==
            Screen(Cursor(0, |str|), 0x1F,
                   seq(Cells, i requires 0 <= i < Cells => if i < |str| then Entry(str[i], 0x1F) else Blank()))
  {
    var s := Initial();
    var r := Puts(s, str);
    var g := seq(Cells, i requires 0 <= i < Cells => if i < |str| then Entry(str[i], 0x1F) else Blank());
    AdvanceNIndex(Origin, |str|);
    LinearInjective(r.cursor, Cursor(0, |str|));
    forall i | 0 <= i < Cells
      ensures r.cells[i] == g[i]
    {
      PutsCellAt(s, str, i);
    }
    assert r.cells == g;
  }

  /** From the origin, a string of exactly one row leaves the cursor at the start of row 1. */
  lemma FullRow(s: Screen, str: seq<byte>)
    requires Valid(s) && s.cursor == Origin && |str| == Width
    ensures Puts(s, str).cursor == Cursor(1, 0)
  {
    AdvanceNIndex(s.cursor, |str|);
    LinearInjective(Puts(s, str).cursor, Cursor(1, 0));
  }

  /** A string as long as the whole grid brings the cursor back to where it was. */
  lemma FullScreen(s: Screen, str: seq<byte>)
    requires Valid(s) && |str| == Cells
    ensures Puts(s, str).cursor == s.cursor
  {
    FullWrap(s.cursor);
  }
}

/**
 * The VGA console of src/kernel.cpp as a mutable object: the `vga` record with
 * its cursor, colour and cell buffer, and the operations that update it in place.
 * The buffer is injected at initialisation instead of being bound to the
 * hardware address of the text framebuffer.
 */
module Kernel {
  import opened VgaCell
  import opened CString
  import opened Terminal

  class Console {
    var row: nat
    var column: nat
    var color: byte
    var buf: array<word>

    /** The console invariant: the buffer covers the grid and the cursor lies inside it. */
    predicate Valid()
      reads this
    {
      buf.Length == Cells && row < Height && column < Width
    }

    /** The state of this console as a value. */
    ghost function View(): (s: Screen)
      reads this, buf
    {
      Screen(Cursor(row, column), color, buf[..])
    }

    /**
     * term_init: resets the cursor, selects white on blue, binds the buffer and
     * fills all 80*24 cells with a blank using a running index.
     */
    constructor Init(buffer: array<word>)
      requires buffer.Length == Cells
      modifies buffer
      ensures Valid() && buf == buffer
      ensures row == 0 && column == 0 && color == MakeColor(White, Blue)
      ensures forall i :: 0 <= i < Cells ==> buf[i] == Entry(Space, color)
      ensures View() == Initial()
    {
      row, column := 0, 0;
      color := MakeColor(White, Blue);
      buf := buffer;
      new;
      var index: nat := 0;
      for y := 0 to Height
        invariant buf == buffer && row == 0 && column == 0 && color == MakeColor(White, Blue)
        invariant index == y * Width
        invariant forall i :: 0 <= i < index ==> buf[i] == Entry(Space, color)
      {
        for x := 0 to Width
          invariant buf == buffer && row == 0 && column == 0 && color == MakeColor(White, Blue)
          invariant index == y * Width + x
          invariant forall i :: 0 <= i < index ==> buf[i] == Entry(Space, color)
        {
          buf[index] := Entry(Space, color);
          index := index + 1;
        }
      }
      assert index == Cells;
      assert buf[..] == Initial().cells;
    }

    /** term_setcolor: changes only the current attribute. */
    method SetColor(c: byte)
      modifies this`color
      ensures color == c
      ensures View() == old(View()).(color := c)
    {
      color := c;
    }

    /** term_putentry: writes one cell at index y*80+x and nothing else. */
    method PutEntry(c: byte, attr: byte, x: nat, y: nat)
      requires Valid() && x < Width && y < Height
      modifies buf
      ensures View() == old(View()).(cells := old(buf[..])[y * Width + x := Entry(c, attr)])
    {
      buf[y * Width + x] := Entry(c, attr);
    }

    /** term_putchar: writes at the cursor in the current attribute, then advances the cursor with wrap-around. */
    method PutChar(c: byte)
      requires Valid()
      modifies this`row, this`column, buf
      ensures Valid()
      ensures View() == Putc(old(View()), c)
    {
      PutEntry(c, color, column, row);
      column := column + 1;
      if column == Width {
        column := 0;
        row := row + 1;
        if row == Height {
          row := 0;
        }
      }
    }

    /**
     * term_writestr: the body of term_putchar, inlined in a loop over the bytes
     * before the first NUL; the result is that of term_putchar on each of them.
     */
    method WriteString(data: seq<byte>)
      requires Valid() && Terminated(data)
      modifies this`row, this`column, buf
      ensures Valid()
      ensures color == old(color)
      ensures View() == Puts(old(View()), Contents(data))
      ensures Length(data) == 0 ==> View() == old(View())
    {
      var datalen := Strlen(data);
      ghost var start := View();
      for i := 0 to datalen
        invariant Valid()
        invariant View() == Puts(start, data[..i])
      {
        var c := data[i];
        ghost var before := View();
        PutEntry(c, color, column, row);
        column := column + 1;
        if column == Width {
          column := 0;
          row := row + 1;
          if row == Height {
            row := 0;
          }
        }
        assert View() == Putc(before, c);
        PutsLast(start, data, i);
      }
    }
  }

  /** Reads a character string as the bytes a C compiler stores for it. */
  function Bytes(s: string): (b: seq<byte>)
    ensures |b| == |s|
  {
    seq(|s|, i requires 0 <= i < |s| => (s[i] as int % 256) as byte)
  }

  /** The message _kernel_main writes, without its terminating NUL: 27 bytes. */
  const Greeting: seq<byte> := Bytes("Hello, world! >>Simple OS<<")

  lemma GreetingLength()
    ensures |Greeting| == 27
  {
  }

  /** No byte of the message is zero, so strlen of the literal stops at its terminator. */
  lemma GreetingHasNoNul()
    ensures 0 !in Greeting
  {
  }

  /** The screen after the boot sequence: the message in cells 0..26 in white on blue, the rest blank, the cursor at row 0, column 27. */
  function Greeted(): (s: Screen)
    ensures Valid(s)
  {
    Screen(Cursor(0, 27), 0x1F,
           seq(Cells, i requires 0 <= i < Cells =>
             if i < |Greeting| then Entry(Greeting[i], 0x1F) else Blank()))
  }

  /** Initialising and then writing the message produces exactly the greeted screen. */
  lemma GreetingScreen()
    ensures Puts(Initial(), Greeting) == Greeted()
  {
    GreetingLength();
    PutsOnInitial(Greeting);
  }

  /** _kernel_main without its idle loop: term_init on the buffer, then term_writestr of the message. */
  method KernelMain(vram: array<word>) returns (console: Console)
    requires vram.Length == Cells
    modifies vram
    ensures console.Valid() && console.buf == vram
    ensures console.View() == Greeted()
  {
    console := new Console.Init(vram);
    GreetingHasNoNul();
    ContentsOfLiteral(Greeting);
    console.WriteString(Greeting + [0]);
    GreetingScreen();
  }
}

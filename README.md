# VGA text-mode console

A model of the text console of a minimal x86 kernel (`src/kernel.cpp`). The console keeps a
cursor (`term_row`, `term_column`), a current attribute byte (`term_color`) and a buffer of
80 x 24 sixteen-bit cells. Each cell holds a character byte in its low byte and an attribute byte in
its high byte. An attribute packs a foreground colour in its low nibble and a background colour in
its high nibble. `term_init` clears the grid to white-on-blue blanks. `term_putchar` writes at the
cursor and advances it. The cursor wraps to the next row at column 80 and back to row 0 at row 24,
with no scrolling. `term_writestr` does the same for every byte of a NUL-terminated string.
The boot entry `_kernel_main` initialises the console and writes `Hello, world! >>Simple OS<<`.

Layout:

- `cell.dfy`, module `VgaCell`: `make_color` and `vga_entry` as 8- and 16-bit bit-vector functions,
  and their decoders.
- `cstring.dfy`, module `CString`: C strings as byte sequences with a terminator, and `strlen` as a
  method with a loop.
- `terminal.dfy`, module `Terminal`: the console state as a value (`Screen`), the cursor step, and
  the effect of one character (`Putc`) and of a run of characters (`Puts`). It also holds the
  lemmas about wrap-around and about which cells are written.
- `kernel.dfy`, module `Kernel`: the `vga` record as the class `Console`, whose methods update the
  cursor, colour and buffer in place and are proved against `Terminal`; and `_kernel_main`.

The buffer address `0xB8000` becomes an array handed to the constructor. Bytes are `bv8` and cells
`bv16`. The invariants of the nested loops in `Console.Init` show that the running index reaches exactly
80 * 24, so no write falls outside the grid. Eight- and sixteen-bit arithmetic is exactly the C evaluation of `fg | bg << 4` and
`c | color << 8` followed by the truncation to `uint8_t`/`uint16_t`.

The message literal in `_kernel_main` is 27 bytes. Its terminating NUL is not written, so the
cursor ends at row 0, column 27.

`term_writestr` repeats the body of `term_putchar` instead of calling it. `Console.WriteString`
mirrors that. Its contract is `Puts`, the fold of `Putc`, and `Putc` is the contract of
`Console.PutChar`. So the string write is proved equal to putchar applied to each byte in order.

## Model

| member | source | states |
|---|---|---|
| VgaCell.MakeColor | src/kernel.cpp:34-36 | for fg, bg < 16 the low nibble is fg and the high nibble is bg; in general the low nibble is fg's and the high nibble is fg's high nibble or'ed with bg's low nibble (8-bit truncation) |
| VgaCell.Entry | src/kernel.cpp:38-40 | the low byte of the cell is the character and the high byte is the attribute, so decoding returns both |
| VgaCell.EntryOfDecoded | src/kernel.cpp:38-40 | every 16-bit cell is the entry of its own decoded character and attribute |
| VgaCell.EntryInjective | src/kernel.cpp:38-40 | different (character, attribute) pairs never give the same cell |
| VgaCell.DefaultColor | src/kernel.cpp:51 | white on blue is the attribute byte 0x1F |
| CString.Length | src/kernel.cpp:42-46 | the length of a terminated string is the index of a zero byte, and every byte before it is non-zero |
| CString.Contents | src/kernel.cpp:42-46 | the string's bytes contain no zero, and followed by a zero they are a prefix of the storage |
| CString.ContentsOfLiteral | src/kernel.cpp:93 | zero-free bytes followed by the terminator a literal gets have exactly those bytes as length and contents |
| CString.Strlen | src/kernel.cpp:42-46 | the loop returns the index of the first zero byte; all bytes before it are non-zero |
| Terminal.Linear | src/kernel.cpp:64 | the index y*80+x of an in-bounds position lies inside the 1920-cell buffer |
| Terminal.LinearDecode | src/kernel.cpp:64 | division of the index by 80 gives back the row and the remainder gives back the column |
| Terminal.LinearInjective | src/kernel.cpp:64 | distinct positions of the grid write distinct cells |
| Terminal.Advance | src/kernel.cpp:69-74 | the cursor step keeps row < 24 and column < 80 and moves the buffer index one forward modulo 1920 |
| Terminal.AdvanceN | src/kernel.cpp:69-74 | the cursor after n calls of the step stays inside the grid |
| Terminal.AdvanceNLinear | src/kernel.cpp:69-74 | n steps move the buffer index n forward modulo 1920 |
| Terminal.AdvanceNAdd | src/kernel.cpp:69-74 | a steps then b steps equal a + b steps |
| Terminal.AdvanceFromOrigin | src/kernel.cpp:49-50 | n steps from (0,0) leave column n mod 80 and row (n div 80) mod 24 |
| Terminal.FullWrap | src/kernel.cpp:69-74 | 80*24 steps return any cursor to its start: wrap-around without scrolling |
| Terminal.Blank | src/kernel.cpp:56 | the blank cell is a space in attribute 0x1F |
| Terminal.Initial | src/kernel.cpp:48-59 | the initial state has cursor (0,0), colour 0x1F and every one of the 1920 cells blank |
| Terminal.Putc | src/kernel.cpp:67-75 | one character on a valid state gives a valid state: cursor inside the grid, buffer of 1920 cells |
| Terminal.Puts | src/kernel.cpp:77-89 | writing a run keeps the bounds, never changes the colour, and leaves the cursor after as many steps as there are bytes |
| Terminal.PutcEffect | src/kernel.cpp:67-75 | one character writes itself in the current colour at the cursor's index, leaves every other cell and the colour alone, and steps the index |
| Terminal.SetColorThenPutc | src/kernel.cpp:61-68 | after setting colour c, the next character's cell has attribute exactly c |
| Terminal.PutsAppend | src/kernel.cpp:77-89 | writing a + b is writing a then b |
| Terminal.PutsCellAt | src/kernel.cpp:77-89 | after a run that fits before the end of the grid, each cell holds byte k in the current colour if its index is cursor + k, and its old value otherwise |
| Terminal.AdvanceNIndex | src/kernel.cpp:69-70 | before the end of the grid, n steps move the buffer index exactly n forward |
| Terminal.PutsOnInitial | src/kernel.cpp:48-59 | on the initialised grid, a message shorter than a row fills the first cells of row 0 in 0x1F, leaves the cursor after it and all other cells blank |
| Terminal.FullRow | src/kernel.cpp:69-72 | from (0,0), 80 bytes leave the cursor at row 1, column 0 |
| Terminal.FullScreen | src/kernel.cpp:71-73 | 1920 bytes bring the cursor back to where it was |
| Kernel.Console.Init | src/kernel.cpp:48-59 | cursor (0,0), colour white on blue, the injected buffer bound, every one of the 1920 cells blank |
| Kernel.Console.SetColor | src/kernel.cpp:61 | only the colour changes, to the given byte |
| Kernel.Console.PutEntry | src/kernel.cpp:63-65 | cell y*80+x becomes the entry of (c, colour); no other cell, the cursor and the colour are unchanged |
| Kernel.Console.PutChar | src/kernel.cpp:67-75 | the new state is Putc of the old one and the bounds invariant holds |
| Kernel.Console.WriteString | src/kernel.cpp:77-89 | the new state is Puts of the old one over the bytes before the first NUL; colour unchanged; an empty string changes nothing |
| Kernel.Bytes | src/kernel.cpp:93 | a character literal becomes a byte sequence of the same length, one byte per character |
| Kernel.GreetingLength | src/kernel.cpp:93 | the message has 27 bytes |
| Kernel.GreetingHasNoNul | src/kernel.cpp:93 | the message contains no zero byte |
| Kernel.Greeted | src/kernel.cpp:91-93 | the screen the boot sequence should leave is a valid state (cursor in the grid, 1920 cells) |
| Kernel.GreetingScreen | src/kernel.cpp:91-93 | init followed by the message gives the message in cells 0..26 in colour 0x1F, cursor (0,27), all other cells blank |
| Kernel.KernelMain | src/kernel.cpp:91-93 | the boot sequence leaves the injected buffer and cursor in exactly that screen |

## Left out

- The hardware address `0xB8000` and the `volatile` qualifier: the buffer is an array given to `Console.Init`. Binding it to the framebuffer is platform I/O.
- The endless `while (1) {}` after the message and the `extern "C"` linkage of `_kernel_main`: boot plumbing that changes no state. `KernelMain` stops after the string write.
- The colour names other than blue (1) and white (15): they are named constants 0..15 that no operation uses.
- C `char` signedness and integer promotion: characters and colours are bytes. `make_color` is modelled on all bytes with 8-bit truncation. Its nibble guarantees are stated for colours below 16.
- Out-of-range coordinates for `term_putentry`: they are undefined behaviour in the source, so `x < 80` and `y < 24` are a precondition.
- A string without a terminating NUL: `strlen` would read past the storage, so a terminator is a precondition of `Strlen` and `WriteString`.
- `size_t` overflow: row, column and index stay below 1920, so unbounded naturals give the same values.
- Terminal.PutsCellAt: describes the written cells only for runs that do not pass the end of the grid. For longer runs, which overwrite earlier cells from the top, only the cursor (`Puts`, `AdvanceFromOrigin`, `FullWrap`) is characterised.
- The global `vgaobj` is an object created by `Console.Init`. Before `term_init` the zero-initialised record has no buffer, and that state is not modelled.

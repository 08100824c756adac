# Dhrystone runtime shim, modelled in Dafny

The Dhrystone benchmark of this RISC-V pipelined CPU runs bare-metal against a
tiny C runtime. Two files make up that runtime:

- `dhrystone/syscalls.c` holds a UART-backed `printf` (`%d`, `%s`, `%c`, `%x`,
  `%%`) built from `print_string`, `print_int` and `print_hex`. It also holds
  `write`, `sbrk` and a set of link-time stubs.
- `dhrystone/stdlib.c` holds a bump allocator over a 16 KiB arena
  (`malloc`/`free`) and `strcpy`, `strcmp`, `strlen`, `memcpy` and `memset`.

This project models both files as pure Dafny and proves what the routines
promise.

- `ctypes.dfy` (module `CTypes`) defines the RV32 scalar types and the C string.
  - `CChar` is a byte; plain `char` is unsigned on RISC-V.
  - `Int32` and `UInt32` are the integer types, including `size_t`.
  - A string is a buffer that contains a NUL. `Content` is the text before the
    first NUL.
- `syscalls.dfy` (module `Syscalls`) models the UART routines.
  - `uart_putc` is a store to a memory-mapped port. Here every routine returns
    the characters it would store, in order.
  - `printf` walks the text of its format. Each variadic argument is tagged with
    the type `va_arg` reads it as.
  - `sbrk` keeps its static break in an explicit state value.
- `stdlib.dfy` (module `Stdlib`) models the allocator and the string routines.
  - The allocator's `heap_ptr` is an explicit state value: an offset into the
    arena.
  - The string and memory routines work on memory given as a byte sequence.
    Pointers are offsets into that sequence.

`malloc` is modelled exactly as the code behaves: it advances `heap_ptr` by the
aligned size before comparing it with the end of the arena. A refused request
therefore still moves the cursor. With the cursor as an unbounded offset, once
one request fails every later one fails (`Stdlib.FailureIsPermanent`).

The rounding `(size + 3) & ~3` is done in 32-bit `size_t`.
- For the three largest sizes it wraps to 0.
- Unless the arena is already exhausted, `malloc` then returns a non-NULL
  pointer to an empty region.
- `Stdlib.AlignUp` states this case explicitly.

## Model

| member | source | states |
|---|---|---|
| Syscalls.PrintString | dhrystone/syscalls.c:18-22 | print_string sends exactly the characters of the string before its NUL, and none of them is NUL |
| Syscalls.PrintIntSpec | dhrystone/syscalls.c:24-51 | print_int sends 1 to 11 characters; the first is '-' exactly for a negative value; the rest are decimal digits with no leading zero (other than a lone "0") that read back as the magnitude |
| Syscalls.PrintIntZero | dhrystone/syscalls.c:34-37 | print_int of 0 sends exactly "0" |
| Syscalls.FillDigits | dhrystone/syscalls.c:39-42 | the digit loop stores at most 12 characters, and read backwards they are the decimal digits of the magnitude, so the 12-character buffer never overflows |
| Syscalls.SendBackwards | dhrystone/syscalls.c:48-50 | the drain loop sends the buffer's stored characters from the last one back to the first, after what was sent before |
| Syscalls.PrintIntBuffer | dhrystone/syscalls.c:24-51 | the buffer-and-two-loops algorithm sends the same characters as the decimal rendering of the value: sign, then magnitude |
| Syscalls.HexLoopFull | dhrystone/syscalls.c:57-59 | the eight digits picked out by the shifts 28, 24, ..., 0 read back, most significant first, as the full 32-bit value |
| Syscalls.PrintHexSpec | dhrystone/syscalls.c:53-60 | print_hex sends exactly 10 characters: "0x" and then 8 lowercase hex digits, high nibble first, which read back as the value |
| Syscalls.PrintHexByte | dhrystone/syscalls.c:53-60 | for a value below 256, print_hex pads with six '0' digits before the value's two hex digits |
| Syscalls.Printf | dhrystone/syscalls.c:63-99 | printf returns 0 whenever its format and arguments are acceptable |
| Syscalls.LiteralText | dhrystone/syscalls.c:91-93 | a format text containing no '%' is sent verbatim and consumes no argument |
| Syscalls.ConversionDirectives | dhrystone/syscalls.c:70-82 | each conversion directive reads exactly one argument; %c sends the argument truncated to a char and %s the string without its NUL |
| Syscalls.PercentDirectives | dhrystone/syscalls.c:83-89 | a lone "%%" or unknown directive reads no argument and sends "%" or the directive as written |
| Syscalls.ConversionsAppend | dhrystone/syscalls.c:67-95 | the directives of two texts one after the other are those of the first followed by those of the second |
| Syscalls.RunAppend | dhrystone/syscalls.c:67-95 | printf keeps no state besides the argument list: the output for two texts one after the other is the output for the first text with its arguments followed by the output for the second |
| Syscalls.ArgsFitExtend | dhrystone/syscalls.c:64-65 | arguments that fit the directives still fit with extra arguments after them |
| Syscalls.ExtraArgsIgnored | dhrystone/syscalls.c:64-97 | arguments beyond those the directives read never change what is sent |
| Syscalls.SingleConversion | dhrystone/syscalls.c:63-99 | a format holding one conversion directive sends exactly that argument's conversion |
| Syscalls.PercentThenText | dhrystone/syscalls.c:83-94 | "%%" followed by plain text sends one '%' and then the text |
| Syscalls.PercentBetweenText | dhrystone/syscalls.c:83-94 | "%%" between two plain texts sends the texts verbatim around one '%' |
| Syscalls.ExampleZero | dhrystone/syscalls.c:34-37 | printf("%d", 0) sends "0" |
| Syscalls.ExampleNegative | dhrystone/syscalls.c:29-50 | printf("%d", -42) sends "-42" |
| Syscalls.ExampleHex | dhrystone/syscalls.c:53-60 | printf("%x", 255) sends "0x000000ff", leading zeros included |
| Syscalls.ExampleString | dhrystone/syscalls.c:74-76 | printf("%s", "hi") sends "hi" |
| Syscalls.ExamplePercent | dhrystone/syscalls.c:83-85 | printf("100%%done") sends "100%done" |
| Syscalls.ExampleUnknown | dhrystone/syscalls.c:86-89 | printf("%q") sends "%q" |
| Syscalls.Write | dhrystone/syscalls.c:132-138 | write sends ptr[0..len) in order whatever the file descriptor, sends nothing when len <= 0, and returns len |
| Syscalls.Sbrk | dhrystone/syscalls.c:140-153 | the first call starts the break at `_end`; every call returns the old break and moves it by incr |
| Syscalls.SbrkRegions | dhrystone/syscalls.c:140-153 | growing sbrk calls return, in order, adjacent non-overlapping regions starting at the initial break |
| Syscalls.RunAbove | dhrystone/syscalls.c:149-152 | with non-negative increments no returned address lies below the break the calls started from |
| Stdlib.AlignUp | dhrystone/stdlib.c:11 | the rounded size is a multiple of 4 and is the least one not below the request, except that the 32-bit addition wraps to 0 for the three largest sizes |
| Stdlib.Malloc | dhrystone/stdlib.c:9-22 | the cursor always advances by the rounded size; the call succeeds exactly when the advanced cursor is within the arena, and then returns the old cursor |
| Stdlib.FreeIsNoOp | dhrystone/stdlib.c:24-26 | free changes nothing that a later malloc can observe |
| Stdlib.HeapAfterAdvances | dhrystone/stdlib.c:13-14 | over any sequence of calls the cursor never moves back and keeps its alignment |
| Stdlib.RegionsInArena | dhrystone/stdlib.c:9-22 | every region returned starts at or after the cursor the calls began from, keeps the cursor's alignment and ends inside the arena |
| Stdlib.RegionsAligned | dhrystone/stdlib.c:10-13 | from program start every region returned is 4-byte aligned |
| Stdlib.RegionsDisjoint | dhrystone/stdlib.c:9-22 | a region returned ends at or before the start of every region returned later; for a non-empty request that does not wrap, the later region starts strictly after |
| Stdlib.AllSucceed | dhrystone/stdlib.c:13-21 | every call in a sequence succeeds exactly when the final cursor is within the arena |
| Stdlib.ExhaustedStaysExhausted | dhrystone/stdlib.c:14-19 | once the cursor is past the end of the arena every call returns NULL |
| Stdlib.FailureIsPermanent | dhrystone/stdlib.c:13-19 | after one malloc returns NULL every later malloc returns NULL, whatever size it asks for |
| Stdlib.Strlen | dhrystone/stdlib.c:43-47 | strlen returns the offset of the first NUL: there is a NUL there and none before it |
| Stdlib.Strcmp | dhrystone/stdlib.c:35-41 | strcmp returns a value in [-255, 255] that is zero exactly for equal strings, negative exactly when the first orders lexicographically (bytes unsigned, prefix first) before the second, and positive exactly when the second orders before the first; the value is the difference of the unsigned bytes at the first position where the strings differ or the first one ends |
| Stdlib.StopsOneLater | dhrystone/stdlib.c:36-39 | after an equal non-NUL byte, the position where the comparison of the rest stops is one further on in the whole strings, with the same result |
| Stdlib.ComparesStop | dhrystone/stdlib.c:36-40 | where the loop stops, the difference of the two bytes compares the whole strings |
| Stdlib.ComparesStep | dhrystone/stdlib.c:36-39 | past an equal non-NUL first byte, comparing the rest compares the whole strings |
| Stdlib.StrcmpExample | dhrystone/stdlib.c:40 | strcmp("a", "c") is -2, the byte difference itself and not only its sign |
| Stdlib.Strcpy | dhrystone/stdlib.c:29-33 | strcpy copies the source string with its NUL to the destination, changes no other byte, returns the destination, and the destination then holds the same string |
| Stdlib.CopiedString | dhrystone/stdlib.c:31 | a byte-for-byte copy of a string, NUL included, holds the same string |
| Stdlib.Memcpy | dhrystone/stdlib.c:49-54 | memcpy copies n bytes from the source to the destination, changes no other byte, and returns the destination |
| Stdlib.Memset | dhrystone/stdlib.c:56-60 | memset sets n bytes to the value reduced to an unsigned char, changes no other byte, and returns the start |

## Left out

- `uart_putc` (dhrystone/syscalls.c:10-15) is a volatile store to address 0x10000000. Each routine returns the sequence of characters it would store instead.
- `time`, `insn`, `read_cycles` and `read_instret` (dhrystone/stdlib.c:62-89) read hardware counters. Their values are not a function of any input.
- `scanf`, `close`, `fstat`, `isatty`, `lseek` and `read` (dhrystone/syscalls.c:101-130) are not modelled. Each returns a constant and touches nothing.
- `_exit` is not modelled because it spins forever.
- Syscalls.PrintIntSpec: INT_MIN is excluded by a precondition. `val = -val` overflows a 32-bit `int` there, which is undefined behaviour in C.
- Syscalls.PrintIntBuffer: INT_MIN is excluded for the same reason.
- Syscalls.Printf: a format whose last character before the NUL is a lone '%' is excluded. The loop would step past the terminator and read beyond the format.
- Syscalls.Printf: too few arguments, or an argument of a type other than the one the directive reads, are excluded. `va_arg` has undefined behaviour there.
- Syscalls.Printf: so is `%d` of INT_MIN.
- Syscalls.Write: a `len` larger than the buffer is excluded, because it would read out of bounds. The file descriptor is ignored, as in the source.
- Syscalls.Sbrk: addresses are unbounded integers. The 32-bit wrap of `heap_end += incr` is not modelled, and the address of `_end` is a parameter.
- Stdlib.Malloc: the cursor is an unbounded offset, so the 32-bit wrap of `heap_ptr += size` is not modelled. On the target, a single request larger than 2^32 minus the current value of `heap_ptr` already wraps it in that call. The wrapped pointer passes the `>` test at dhrystone/stdlib.c:17, so `malloc` returns non-NULL where `Malloc` returns `None`. Such arithmetic far past the arena is undefined behaviour in C.
- Stdlib.FailureIsPermanent, Stdlib.ExhaustedStaysExhausted, Stdlib.AllSucceed: these hold for the unbounded offset only. A wrapping request on the target can succeed after a failure.
- Stdlib.Strcpy: overlapping source and destination, and a destination too small for the string, are excluded by preconditions. Both are undefined behaviour in C.
- Stdlib.Memcpy: overlapping ranges and ranges outside memory are excluded, for the same reason.
- Stdlib.Strlen: a memory region with no NUL is excluded, because the loop would run off the end.
- Stdlib.Strcmp: both arguments must be strings, which is also what the loop relies on.

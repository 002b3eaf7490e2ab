# JOS kernel monitor

A model of the command interpreter of the JOS teaching kernel's monitor
(`kern/monitor.c`) with proofs about it. The model covers four parts:

- **`runcmd`**: it splits the NUL-terminated line typed at the `K>` prompt into
  whitespace-separated arguments, in place. It overwrites whitespace with NUL
  and records where each argument starts in an `argv` array of `MAXARGS`
  (16) slots. It then dispatches on the first argument through the static
  command table.
- **`mon_help`**: it lists the table.
- **`mon_kerninfo`**: it reports the virtual and physical addresses of the
  kernel's linker symbols and the kernel's memory footprint in KB.
- **`mon_backtrace`**: it walks the chain of saved frame pointers and prints one
  line per frame.

The modules follow the source:

- `CommandLine` (`command_line.dfy`) is the tokenizer half of `runcmd`.
  - `Tokenize` works in place on an `array<char>` and fills an `array<int>`
    `argv`. Its two inner loops are the methods `SkipWhitespace` and
    `SkipArgument`.
  - Each is proved against reference functions on the original line:
    - `TokenStarts` gives the argument starts, left to right.
    - `Blanked` gives the buffer after the whitespace is overwritten.
    - `StopIndex` gives where the scan stops.
- `Commands` (`commands.dfy`) holds the command table, the `strcmp` dispatch
  loop `FindCommand` (proved against the function `Find`) and `mon_help` as
  `ListCommands`.
- `Monitor` (`monitor.dfy`) is all of `runcmd`. The method `RunCmd` tokenizes
  the buffer, reads each argument back as a C string from the overwritten
  buffer, and looks up the command. It is proved equal to the reference
  meaning `Interpret` of the original line.
- `Backtrace` (`backtrace.dfy`) is `mon_backtrace` as written, as the method
  `Walk`, with the corrected walk `WalkIntended` beside it.
  - Memory is a map from byte address to 32-bit word.
  - The chain of frames is a ghost sequence that ends at the frame whose saved
    word is 0, so the walk terminates.
- `KernInfo` (`kerninfo.dfy`) is the arithmetic of `mon_kerninfo`: 32-bit
  physical addresses and the footprint `ROUNDUP(end - entry, 1024) / 1024`.
- `Uint32` (`uint32.dfy`) holds the `uint32_t` arithmetic both of these use:
  the 32-bit word type, wrapping addition, and the signed reading of a word
  printed with `%d`.

Pointer and integer details:

- A pointer into the command buffer is its index.
- The null pointer in `argv` is `-1`.
- `uint32_t` arithmetic wraps explicitly modulo 2^32.
- A value printed with `%d` is read back as a two's-complement `int`.

The command table holds only `help`, `kerninfo` and `show`
(kern/monitor.c:25-29). `mon_backtrace` is defined but has no entry, so the
model, like the code, treats the word `backtrace` as an unknown command.

## Model

| member | source | states |
|---|---|---|
| CommandLine.Strlen | kern/monitor.c:123-126 | the scan ends at the first NUL of the line: the index returned holds NUL and no earlier character does |
| CommandLine.StartsBelow | kern/monitor.c:121-136 | every recorded argument start is a character that is neither whitespace nor NUL, at the start of the line or right after whitespace |
| CommandLine.StartsBelowIncreasing | kern/monitor.c:121-136 | arguments are recorded left to right: the starts are strictly increasing |
| CommandLine.StartsBelowComplete | kern/monitor.c:121-136 | no argument is skipped: every position that starts a run of non-whitespace is recorded |
| CommandLine.StartsBelowPrefix | kern/monitor.c:121-136 | scanning further only appends starts; those already recorded never change |
| CommandLine.TokenEnd | kern/monitor.c:134-135 | an argument extends to the first whitespace or NUL after its start, with no whitespace or NUL inside it |
| CommandLine.CStrAt | kern/monitor.c:143 | reading `argv[k]` as a C string yields the characters up to the next NUL, none of them NUL |
| CommandLine.NoTokensIffBlank | kern/monitor.c:121-126 | a line has no arguments if and only if every character before its NUL is whitespace |
| CommandLine.ArgumentIsTerminated | kern/monitor.c:123-135 | once whitespace is overwritten with NUL, the C string at each recorded start is exactly that argument's text, non-empty and free of whitespace |
| CommandLine.StopAtEnd | kern/monitor.c:125-137 | when the scan reaches the NUL, the starts recorded are all of the line's arguments, fewer than MAXARGS, and the buffer has all of its whitespace overwritten |
| CommandLine.StopAtExtraToken | kern/monitor.c:129-132 | when a 16th argument is found, the line has at least MAXARGS arguments, the 15 recorded are its first 15, and the buffer is overwritten only up to the 16th |
| CommandLine.FirstExtraToken | kern/monitor.c:129-132 | the argument found with MAXARGS-1 already recorded is the line's 16th argument, where the scan stops |
| CommandLine.SkipWhitespace | kern/monitor.c:122-124 | the loop overwrites the whitespace run with NUL and stops at the NUL or at the start of an argument, without passing any argument start |
| CommandLine.SkipArgument | kern/monitor.c:133-135 | the loop stops at the end of the argument, and exactly that one start was passed |
| CommandLine.Tokenize | kern/monitor.c:118-137 | `argv` holds the line's argument starts in order. With more than MAXARGS-1 arguments, the too-many flag is set and 15 starts are kept. Otherwise `argv[argc]` is the null sentinel. The buffer is the line with the scanned whitespace overwritten by NUL and every other character kept |
| Commands.HandlerStatus | kern/monitor.c:33-63 | every command in the table returns a non-negative value |
| Commands.FindFrom | kern/monitor.c:142-145 | the lookup finds the first entry whose name equals the word, and finds none exactly when no name equals it |
| Commands.FindCommand | kern/monitor.c:142-145 | the dispatch loop returns the first entry whose name compares equal to `argv[0]`, or none if no name matches |
| Commands.ListCommands | kern/monitor.c:33-41 | `help` prints one `name - description` line per table entry, in table order, and returns 0 |
| Commands.HelpListsEveryCommand | kern/monitor.c:38-39 | every word the dispatcher accepts is listed by `help`, on the line of the entry it runs |
| Commands.TableLookups | kern/monitor.c:25-29 | `help`, `kerninfo` and `show` each reach their own entry, and `backtrace` reaches none |
| Monitor.RunCmd | kern/monitor.c:111-148 | the outcome is the reference meaning of the original line (too many arguments, empty line, unknown command, or the first matching command with its arguments); the result is that command's return value, else 0; the buffer is left with its scanned whitespace overwritten |
| Monitor.MonitorNeverExits | kern/monitor.c:160-165 | with this table `runcmd` never returns a negative value, so the monitor loop never exits |
| Monitor.BlankLineRunsNothing | kern/monitor.c:140-141 | a line is treated as empty, running nothing and returning 0, exactly when it is empty or all whitespace |
| Monitor.BacktraceIsUnknown | kern/monitor.c:142-147 | a line with 1 to 15 arguments whose first is `backtrace` is an unknown command |
| Monitor.BacktraceLine | kern/monitor.c:142-147 | the line `backtrace` on its own reports an unknown command |
| Uint32.Add32 | kern/monitor.c:84-85 | `uint32_t` addition gives a 32-bit value congruent to the sum |
| Backtrace.SignedDiff | kern/monitor.c:94 | the offset `*eip - eip_fn_addr` printed with `%d` is a 32-bit signed value congruent to the difference |
| Backtrace.ArgSlot | kern/monitor.c:85-93 | argument `j` is read from byte address `*last_ebp + 8 + 16*j` modulo 2^32, because `args + j*size` on a `uint32_t *` moves `j*size` words |
| Backtrace.EmitLine | kern/monitor.c:84-94 | the line printed for a frame shows that frame's pointer, the return address read at `*last_ebp + 4`, the five words at the argument slots, the symbol the resolver gives for that return address, and the offset from the function's start as a signed 32-bit value |
| Backtrace.Walk | kern/monitor.c:65-102 | one line per frame of the chain and then stop after the frame whose saved word is 0. Line `k` reads its return address and arguments through `last_ebp`, which is frame `k-1`, or frame 0 for the first line. Returns 0 |
| Backtrace.ChainIsUnique | kern/monitor.c:83-99 | the frames visited, and so the number of lines, are fixed by memory and the starting frame pointer |
| Backtrace.FirstTwoLinesAgree | kern/monitor.c:76-98 | because `last_ebp` starts equal to `ebp`, the first two lines print the same return address, read from `*ebp0 + 4`, and the same arguments |
| Backtrace.AsWrittenAgreesFromSecondFrame | kern/monitor.c:84-93 | from the second frame on, a line as written has the frame's own return address, symbol, offset and first argument, but argument `j` lies `16*j` bytes above the first |
| Backtrace.SampleStackDiscrepancies | kern/monitor.c:84-98 | on a two-frame stack the first line shows the caller's return address, and the second line shows, in the second argument's place, the word 16 bytes above the first argument (at 0x218 instead of 0x20C) |
| Backtrace.IntendedLine | kern/monitor.c:84-94 | a corrected line takes the return address from `ebp[1]` and the arguments from `ebp[2]` to `ebp[6]` of its own frame |
| Backtrace.WalkIntended | kern/monitor.c:83-99 | the corrected walk emits one corrected line per frame of the chain, in order |
| Uint32.Signed32 | kern/monitor.c:54-55 | a 32-bit value read as `int` is congruent to it and in the signed 32-bit range |
| KernInfo.RoundUpKB | kern/monitor.c:55 | `ROUNDUP(a, 1024)` in 32 bits is a multiple of 1024 below 2^32, and when `a + 1023` does not wrap it is the least multiple of 1024 at or above `a` |
| KernInfo.Phys | kern/monitor.c:50-53 | `sym - KERNBASE` is printed as the 32-bit address congruent to the difference |
| KernInfo.Footprint | kern/monitor.c:54-55 | for an image of up to 2 GiB minus 1 KiB the footprint is the kernel's size in KB rounded up: the least `k` with `k*1024 >= end - entry` |
| KernInfo.Info | kern/monitor.c:48-56 | `mon_kerninfo` prints `_start` as it is; `entry`, `etext`, `edata` and `end` both as they are and as the 32-bit addresses `sym - KERNBASE`; and, for an image of at most `0x7FFF_FC00` bytes, the footprint as the size in KB rounded up |
| KernInfo.FootprintSmallCases | kern/monitor.c:54-55 | an empty image takes 0 KB, 1 to 1024 bytes take 1 KB, and 1025 bytes take 2 KB |

## Left out

- The printing is not modelled. `ListCommands`, `Walk` and `Info` return the content of their `cprintf` lines as values, but the format strings and the console output are left out.
- `readline` and the banner lines of `monitor` (kern/monitor.c:155-157) are console I/O and are left out.
- The "Too many arguments" and "Unknown command" messages are not printed. `RunCmd` returns which outcome happened instead.
- The read-eval loop of `monitor` (kern/monitor.c:160-165) is not a method. It only calls `runcmd` until a negative value comes back; `Monitor.MonitorNeverExits` states that this never happens.
- Monitor.RunCmd: reports which command runs and with which arguments, and returns that command's status; it does not run the command's printing.
- `mon_show` (kern/monitor.c:59-63) is not modelled: it prints a constant string and returns 0, which `Commands.HandlerStatus` records.
- `read_ebp()` is inline assembly. It is modelled as the parameter `ebp0` of `Walk`.
- `debuginfo_eip` has no body in this source. It is modelled as the parameter function `resolve`.
- The `Trapframe` argument is never read by these commands, so it is not modelled.
- The linker symbols `_start`, `entry`, `etext`, `edata`, `end` and `KERNBASE` are integer parameters.
- `ROUNDUP` is defined in inc/types.h, which is not part of this model. It is taken as the usual JOS definition: computed in `uint32_t`, rounding `a + n - 1` down to a multiple of `n`.
- KernInfo.Footprint: characterised only for a kernel image of at most `0x7FFF_FC00` bytes (2 GiB minus 1 KiB). Above that the rounded size reads as a negative `ptrdiff_t`, and from 2 GiB on so does the difference itself. `KernInfo.Info` inherits this bound.
- KernInfo.Info: states the footprint only for an image of at most `0x7FFF_FC00` bytes, the bound of `KernInfo.Footprint`. Its virtual-address fields are the symbols themselves, as printed in the first column of kern/monitor.c:50-53.
- A fault on unreadable memory during the backtrace is not modelled. The walk requires every word it reads to be readable.
- A cyclic or corrupted frame chain is not modelled. The walk requires the chain to end in a frame whose saved word is 0, as a sequence of frames.
- The prototypes in kern/monitor.h (`b16to10`, `parse_perms`, `format_flags`, `hexdump`, `mon_dbg`) have no bodies in this source and are not modelled.
- `CMDBUF_SIZE` (kern/monitor.c:14) is defined but never used; the buffer is any NUL-terminated array.

## Findings

| source | as written | input that shows it | evidently intended | confidence | as-written member | corrected member |
|---|---|---|---|---|---|---|
| kern/monitor.c:76-98 | `last_ebp` starts equal to `ebp`, so the first line reads the return address and arguments at `*ebp + 4`, which belong to the caller's frame, and the first two lines repeat them | frames 0x100 then 0x200, with own return addresses 0xAAA and 0xBBB: the first line prints 0xBBB | each line reads its own frame: the return address at `ebp[1]`, arguments at `ebp[2]` to `ebp[6]` | not executed | Backtrace.SampleStackDiscrepancies | Backtrace.WalkIntended |
| kern/monitor.c:93 | `args + size` on a `uint32_t *` steps `size` words (16 bytes), so arguments 2 to 5 come from every fourth word | frame 0x200 with 1 at 0x20C and 2 at 0x218: its second argument prints as 2 | consecutive words `args[0]` to `args[4]` | not executed | Backtrace.AsWrittenAgreesFromSecondFrame | Backtrace.WalkIntended |

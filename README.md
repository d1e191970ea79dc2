# Pintos user-program loader, argument passing, wait and system-call gate

This project models the core of the user-program support of a Pintos
kernel: `src/userprog/process.c` and `src/userprog/syscall.c`. Every
contract in the "## Model" table is proved by the Dafny verifier. The
statements about the C source, about the Pintos headers it relies on and
about what its authors intended are readings of its text. Nothing was
executed.

What is modelled:

- **ELF checks.** `load` reads an ELF32 executable. It checks the
  executable header (magic, type, machine, version, program-header size
  and count). It walks the program headers and rejects dynamic-linking
  segments. It validates each PT_LOAD segment with `validate_segment`.
  It turns an accepted segment into a page-aligned request for
  `load_segment`, in the source's 32-bit unsigned arithmetic.
- **Loading pages.** `load_segment` fills the segment page by page from
  the file, zeroes the rest and maps each page with `install_page`.
  `setup_stack` then maps a zeroed stack page just below `PHYS_BASE`.
  The address space is a class: a page directory, keyed by user page
  number, plus a counter of free user pages.
- **Counting arguments.** `argument_count` splits the command line on
  spaces with `strtok_s`, read as Pintos's `strtok_r`.
- **Building the stack.** `argv_put_stack` builds the initial user stack
  on the stack page, a 4096-byte array, from the top down:
  - the argument strings;
  - padding to a word boundary;
  - `argv` with its NULL sentinel;
  - the address of `argv`;
  - `argc`;
  - a zero return address.

  The method is proved to leave the page equal to a layout function,
  `StackImage`. Lemmas then read back every word and string of that
  layout.
- **Waiting.** `process_wait` searches the child list and returns a
  status.
- **System-call gate.** `check_pointer` is the gate on user pointers.
  `syscall_handler` checks the stack pointer, reads the call number and
  dispatches on it.

Modules, one file each:

| module | contents |
|---|---|
| `Bytes` | bytes, 16- and 32-bit words, little-endian decoding, 32-bit wrap-around |
| `Vaddr` | page size and `PHYS_BASE` arithmetic |
| `Wrappers` | `Option` |
| `Elf` | ELF headers, the header check, `validate_segment` and the segment plan |
| `AddressSpace` | page directory and page pool; `install_page`, `load_segment`, `setup_stack`, `load` |
| `Args` | tokenizing and `argument_count` |
| `ArgStack` | `argv_put_stack` |
| `Wait` | `process_wait` |
| `Syscall` | `check_pointer` and `syscall_handler` |

Behaviour that comes from outside these two files is taken from the
values Pintos defines:

- The page size is 4096 and `PHYS_BASE` is 0xc0000000 (`threads/vaddr.h`).
- The system-call numbers come from `lib/syscall-nr.h`: `SYS_HALT` 0,
  `SYS_EXIT` 1, `SYS_EXEC` 2, `SYS_WAIT` 3 … `SYS_CLOSE` 12.
- `strtok_s` is read as Pintos's `strtok_r` (`lib/string.c`), which
  splits on the delimiter string `" "` only.
- `strlcpy (dst, src, size)` copies at most `size - 1` bytes.

Where the comments in the source and its code disagree, the model follows
the code. For each such place, the "## Findings" table below also gives a
corrected version, with the property the comment promises proved about it.

## Model

| member | source | states |
|---|---|---|
| `Bytes.Add32` | src/userprog/process.c:446-451 | the `uint32_t` sum `p_vaddr + p_memsz` is the true sum or the sum minus 2^32, and it is smaller than an operand exactly when it wrapped |
| `Bytes.Sub32` | src/userprog/process.c:382-383 | the `uint32_t` difference is the true difference when it is not negative, and the difference plus 2^32 otherwise |
| `Bytes.ToInt32` | src/userprog/process.c:344 | converting `e_phoff` to `off_t` yields a value in the int32 range, congruent to the word modulo 2^32 and non-negative exactly when the word is below 2^31 |
| `Vaddr.PgOfs` | src/userprog/process.c:375 | `x & PGMASK` is below PGSIZE, and x minus it is page-aligned |
| `Vaddr.PgRoundDown` | src/userprog/process.c:373-374 | `x & ~PGMASK` is the page-aligned base of the page holding x |
| `Vaddr.RoundUpPage32` | src/userprog/process.c:382-390 | without a wrap, `ROUND_UP (x, PGSIZE)` is the least page multiple at or above x |
| `Elf.ParseEhdr` | src/userprog/process.c:331 | reading `sizeof ehdr` bytes succeeds exactly when the file holds at least 52 bytes; the identification bytes are the first 16 |
| `Elf.ParsePhdr` | src/userprog/process.c:353 | reading `sizeof phdr` bytes succeeds exactly when at least 32 bytes remain |
| `Elf.ParseEncodePhdr` | src/userprog/process.c:353 | decoding the byte image of any program header gives that header back, whatever follows it |
| `Elf.ParseEncodeEhdr` | src/userprog/process.c:331 | decoding the byte image of any executable header gives that header back |
| `Elf.CheckHeader` | src/userprog/process.c:331-337 | `load` goes on with the header exactly when the read is complete and magic, type, machine, version, `e_phentsize` and `e_phnum <= 1024` all pass |
| `Elf.CorruptMagicRejected` | src/userprog/process.c:332 | a file with any of its first seven bytes different from "\177ELF\1\1\1" is rejected |
| `Elf.AcceptedHeaderRoundTrip` | src/userprog/process.c:331-337 | an accepted header survives encoding and checking unchanged; its program headers are 32 bytes and the table is at most 32 kB |
| `Elf.ReadPhdr` | src/userprog/process.c:349-354 | seeking to `file_ofs` and reading a program header succeeds exactly when 0 <= `file_ofs` and 32 bytes lie in the file from there |
| `Elf.ValidateSegment` | src/userprog/process.c:423-464 | a segment `validate_segment` accepts starts at or above page 1, ends below PHYS_BASE, has `p_filesz <= p_memsz` and an offset inside the file |
| `Elf.ValidateSegmentIff` | src/userprog/process.c:423-464 | `validate_segment` with its 32-bit sums accepts exactly the segments that have: equal page offsets in file and memory; an offset inside the file; `p_filesz <= p_memsz`; a non-zero size; a start at or above page 1; and an end below PHYS_BASE |
| `Elf.WrapCheckNeeded` | src/userprog/process.c:449-452 | a segment of 2 GB + 4 kB at 2 GB passes every other test, and only the wrap check rejects it |
| `Elf.PhdrAcceptable` | src/userprog/process.c:356-370 | PT_DYNAMIC, PT_INTERP and PT_SHLIB headers are rejected; types outside the handled ones are skipped as acceptable; an accepted PT_LOAD segment lies in user memory above page 0 |
| `Elf.DynamicRejected` | src/userprog/process.c:365-368 | an executable with a PT_DYNAMIC, PT_INTERP or PT_SHLIB header is never accepted |
| `Elf.BadLoadSegmentRejected` | src/userprog/process.c:434-460 | a PT_LOAD header with `p_memsz < p_filesz` or mapped at address 0 makes the executable unacceptable |
| `Elf.Writable` | src/userprog/process.c:372 | `(p_flags & PF_W) != 0` holds exactly when the PF_W bit is set: the flags modulo 2 PF_W are at least PF_W |
| `Elf.PlanSegment` | src/userprog/process.c:372-391 | for every header the request names the page-aligned file page holding `p_offset` and the page-aligned memory page that, with the page offset below PGSIZE, gives `p_vaddr`; with `p_filesz` 0 nothing is read |
| `Elf.PlanFacts` | src/userprog/process.c:372-391 | for a validated segment no 32-bit operation wraps. The request meets the ASSERTs of `load_segment`. `read_bytes` covers exactly the file part (0 when `p_filesz` is 0). `read_bytes + zero_bytes` is the least page multiple covering `page_offset + p_memsz`. The pages lie in user memory above page 0 |
| `Elf.PlanLayout` | src/userprog/process.c:372-391 | the 32-bit plan equals the unbounded layout: the page-aligned file and memory starts, the bytes read and the page count |
| `AddressSpace.FileRead` | src/userprog/process.c:503 | `file_read` returns at most n bytes, the file's bytes from the position; the read is complete exactly when n bytes remain |
| `AddressSpace.SegmentImage` | src/userprog/process.c:466-477 | the image of a segment maps exactly its pages upn .. upn + count - 1, each holding its slice of the file and zeros after `read_bytes` |
| `AddressSpace.FilledPage` | src/userprog/process.c:494-508 | reading `page_read_bytes` and zeroing `page_zero_bytes` yields exactly the segment's page at that point |
| `AddressSpace.PageFailNoFit` | src/userprog/process.c:497-515 | if the page pool is empty, the read is short or the page is already mapped, the segment did not fit |
| `AddressSpace.CursorNext` | src/userprog/process.c:494-520 | one turn of the loop computes the page's file part and advances `read_bytes`, `zero_bytes`, the file position and `upage` by one page, with page k still to come |
| `AddressSpace.SegmentByteAt` | src/userprog/process.c:466-477 | byte k of an accepted segment lies at `p_vaddr + k`: the file byte at `p_offset + k` below `p_filesz`, zero from there to `p_memsz` |
| `AddressSpace.PlanPagesUser` | src/userprog/process.c:442-460 | the pages of an accepted segment are user pages above page 0 |
| `AddressSpace.AllHeadersAccepted` | src/userprog/process.c:345-400 | once every program header is read, accepted and loaded, the executable is acceptable as a whole |
| `AddressSpace.AddressSpace.constructor` | src/userprog/process.c:317 | `pagedir_create` yields an empty user page directory |
| `AddressSpace.AddressSpace.AllocPage` | src/userprog/process.c:498-500 | `palloc_get_page` succeeds exactly when a user page is free, and uses one |
| `AddressSpace.AddressSpace.FreePage` | src/userprog/process.c:503-515 | `palloc_free_page` on a failed read or install gives the page back to the pool (also at line 540, in `setup_stack`) |
| `AddressSpace.AddressSpace.InstallPage` | src/userprog/process.c:554-563 | the mapping is added exactly when the page is not mapped yet; no other mapping changes |
| `AddressSpace.AddressSpace.LoadSegmentPage` | src/userprog/process.c:494-520 | one iteration of the loop advances the counters by one page and extends the segment's image by its next page, using one more pool page; on failure the segment did not fit and only image pages were ever added |
| `AddressSpace.AddressSpace.LoadSegment` | src/userprog/process.c:480-523 | `load_segment` succeeds exactly when the pages are free in the pool, the file part is in the file and no page is mapped. On success the new mapping is exactly the old one plus the segment's image. On failure every page added is a segment page with the segment's contents |
| `AddressSpace.AddressSpace.SetupStack` | src/userprog/process.c:527-543 | succeeds exactly when a page is free and the stack page is unmapped; then the stack page is a zeroed writable page and esp is PHYS_BASE. On failure nothing changes |
| `AddressSpace.AddressSpace.LoadPhdr` | src/userprog/process.c:356-398 | the switch on `p_type` succeeds exactly when the header is acceptable and, for PT_LOAD, its pages fit. For a loaded PT_LOAD segment the new mapping is exactly the old one plus the segment's image, and the pool shrinks by its page count; other types change nothing. Only user pages above page 0 are ever added |
| `AddressSpace.AddressSpace.LoadProgramHeader` | src/userprog/process.c:349-399 | one turn of the header loop succeeds exactly when header i lies in the file, is acceptable and, for PT_LOAD, fits; then one more header is loaded, every added page lies in a PT_LOAD image and the pool has given up exactly their pages |
| `AddressSpace.AddressSpace.LoadStack` | src/userprog/process.c:401-403 | after the header loop, `setup_stack` adds the zeroed stack page; the added pages are then the stack page and the PT_LOAD images, and the pool has given up one page more than the images |
| `AddressSpace.AddressSpace.Load` | src/userprog/process.c:306-415 | a bad header fails and maps nothing. On success: the executable is acceptable; every program header is loaded; the entry is `e_entry`; esp is PHYS_BASE; the stack page is zeroed and writable; every page added is the stack page or lies in the image of a PT_LOAD header; the pool has given up exactly the images' pages plus the stack page. The mapping only ever grows by user pages above page 0 |
| `Args.Tokens` | src/userprog/process.c:576-582 | the arguments of a line are non-empty runs without a space |
| `Args.NextToken` | src/userprog/process.c:576-580 | one `strtok_s` call returns the first argument of the rest of the line and saves a position leaving exactly the other arguments; it returns NULL exactly when no argument is left |
| `Args.TokensSplit` | src/userprog/process.c:576-582 | the arguments of a + " " + b are those of a followed by those of b |
| `Args.TokensJoin` | src/userprog/process.c:576-582 | arguments joined with single spaces split back into themselves |
| `Args.Strlcpy` | src/userprog/process.c:574 | `strlcpy` with size n > 0 leaves the prefix of the source of length min(strlen, n - 1) |
| `Args.CountTokens` | src/userprog/process.c:576-582 | the `strtok_s` loop counts exactly the line's arguments |
| `Args.ArgumentCount` | src/userprog/process.c:566-586 | `argument_count` as written counts the arguments of the line without its last byte: one fewer than the true count exactly when the last argument is one byte long |
| `Args.DroppedLastByte` | src/userprog/process.c:574 | dropping the last byte of a line loses one argument exactly when the last argument is a single byte, and none otherwise |
| `Args.ArgumentCountExample` | src/userprog/process.c:574 | "echo x" has two arguments, but the copy `argument_count` tokenizes has one |
| `Args.ArgumentCountCorrected` | src/userprog/process.c:574 | with copy size `strlen + 1` the count is exactly the number of arguments |
| `ArgStack.SplitArguments` | src/userprog/process.c:606-621 | the tokenizing loop collects exactly the line's arguments, in order, with each length plus one for the NUL |
| `ArgStack.CopyIn` | src/userprog/process.c:627 | `memcpy` into the page writes the bytes at the offset and changes nothing else |
| `ArgStack.PushString` | src/userprog/process.c:625-627 | one turn of the string loop extends the packed strings below esp by one argument and records its address |
| `ArgStack.PushStringsLoop` | src/userprog/process.c:623-628 | after the loop all the strings are packed below esp with their NULs and buff[i] holds the address of each |
| `ArgStack.PushStrings` | src/userprog/process.c:623-631 | the strings start at esp minus their total length; buff holds their addresses followed by NULL; the page is the old page with the strings written |
| `ArgStack.PushWords` | src/userprog/process.c:639-643 | the argv loop puts buff[0] .. buff[count] in order from the new esp up, 4 bytes each |
| `ArgStack.PushFrame` | src/userprog/process.c:639-657 | below the padding lie, upward from the new esp: the zero return address, argc, the address of argv and argv |
| `ArgStack.ArgvIs` | src/userprog/process.c:626-631 | the words the string loop records, then the NULL of `buff[count]`, are exactly argv of the layout |
| `ArgStack.ArgvPutStack` | src/userprog/process.c:590-665 | returns the final esp of the layout; the page is exactly `StackImage`: the strings below esp, then the frame at the final esp, every other byte unchanged |
| `ArgStack.FinalEspAligned` | src/userprog/process.c:634-657 | the final stack pointer is a multiple of 4 |
| `ArgStack.StackTop` | src/userprog/process.c:646-657 | the final stack pointer is word-aligned, and the three words at it are 0, argc and the address of argv |
| `ArgStack.FrameTop` | src/userprog/process.c:646-657 | the frame is 12 + 4 (argc + 1) bytes long and starts with 0, argc and the address of argv |
| `ArgStack.FrameArgv` | src/userprog/process.c:639-643 | word 3 + j of the frame is argv[j] |
| `ArgStack.StackArgv` | src/userprog/process.c:630-643 | on the page, argv[j] is the address of argument j's string for j < argc, and argv[argc] is NULL |
| `ArgStack.StringsAt` | src/userprog/process.c:623-628 | argument j with its NUL lies in the packed strings right after the strings of the arguments before it |
| `ArgStack.StackString` | src/userprog/process.c:623-628 | argument j followed by its NUL lies on the page at its recorded address, and argument j + 1 starts right after it, at most at esp |
| `ArgStack.StackUnchanged` | src/userprog/process.c:623-657 | every byte below the final esp, in the alignment padding or at and above the initial esp is unchanged |
| `Wait.ChildIndex` | src/userprog/process.c:125-133 | the walk of the child list stops at the first record for the pid, and finds none exactly when no record has it |
| `Wait.WaitStatus` | src/userprog/process.c:135-156 | the status is -1, 0 or a status recorded for the pid; it is -1 when the pid is no child; after blocking it is 0 exactly when the child left 0 |
| `Wait.AfterWait` | src/userprog/process.c:185-193 | when the parent resumes from a blocking wait, every record with the child's pid holds the status the child wrote; the pids and every other record are unchanged, and a wait that does not block changes nothing |
| `Wait.Thread.FindChild` | src/userprog/process.c:125-133 | the loop finds a record exactly when one has the pid, and stops at the first |
| `Wait.Thread.ProcessWait` | src/userprog/process.c:115-157 | `process_wait` as written returns the status of `WaitStatus` and sets `wait_tid` exactly when it blocks; the child list afterwards is `AfterWait`, with the child's status written and no record removed; distinct pids stay distinct |
| `Wait.AfterWaitRecord` | src/userprog/process.c:185-193 | the child's write keeps pids distinct and leaves the list walk finding the same record for every pid |
| `Wait.WaitAgain` | src/userprog/process.c:136-144 | after a blocking wait, a second wait for the same child returns the written status at once, without blocking; with the 0 `process_exit` writes, both waits return 0 |
| `Wait.WaitNotChild` | src/userprog/process.c:135-139 | waiting for a pid that is not a child returns -1 without blocking |
| `Wait.WaitExited` | src/userprog/process.c:140-144 | waiting for a child that has exited returns its recorded status without blocking |
| `Wait.WaitRunning` | src/userprog/process.c:145-156 | waiting for a running child blocks and returns 0 exactly when the child left 0, and -1 otherwise |
| `Wait.ConsumeDistinct` | src/userprog/process.c:106-111 | removing the waited-for record keeps pids distinct, leaves no record for that pid and keeps every other child's record |
| `Wait.WaitOnce` | src/userprog/process.c:106-111 | after the record is consumed, a second wait for the pid returns -1 at once, and waits for other children are unaffected |
| `Wait.WaitTwiceExample` | src/userprog/process.c:106-111 | for a child that exited with 0, the wait as written returns 0 each time, where the comment promises -1 the second time |
| `Wait.Thread.ProcessWaitOnce` | src/userprog/process.c:106-111 | the corrected wait returns the same status and consumes the child's record, keeping pids distinct |
| `Syscall.CheckPointer` | src/userprog/syscall.c:73-95 | passes exactly the non-NULL user addresses whose page is mapped, and hands them back unchanged |
| `Syscall.CheckPointerSound` | src/userprog/syscall.c:84-94 | a pointer that passes lies in a mapped, whole user page |
| `Syscall.LoadedPageZeroKilled` | src/userprog/syscall.c:80-82 | in an address space the loader built, every address in page 0, NULL included, is killed |
| `Syscall.ReadWord` | src/userprog/syscall.c:21 | a 32-bit user load succeeds exactly when all four bytes are in mapped user pages |
| `Syscall.CheckWordPointer` | src/userprog/syscall.c:73-95 | `check_pointer` on the first and last byte of a word hands back the pointer unchanged when both pass; `CheckWordPointerIff` states when that is |
| `Syscall.CheckWordPointerIff` | src/userprog/syscall.c:73-95 | checking both ends of a word passes exactly when the pointer is non-NULL and all four bytes are mapped |
| `Syscall.CheckedWordReadable` | src/userprog/syscall.c:73-95 | a word that passes the word check can be loaded |
| `Syscall.Dispatch` | src/userprog/syscall.c:21-67 | SYS_HALT gives `halt`; SYS_EXIT calls `exit` with the argument word as an int and SYS_EXEC calls `exec` with it when all four of its bytes are mapped, and fault at the argument exactly when they are not; SYS_WAIT .. SYS_CLOSE do nothing; other numbers hit the default case |
| `Syscall.SyscallHandler` | src/userprog/syscall.c:16-71 | the handler kills exactly when `check_pointer (f->esp)` does; it faults only at esp or at esp + 16 |
| `Syscall.HandlerDispatches` | src/userprog/syscall.c:19-32 | for a checked stack pointer with a readable number, the handler halts for SYS_HALT; calls `exit` or `exec` with the word at esp + 16, or faults there when it is unmapped; and ignores or defaults every other number |
| `Syscall.StraddleExample` | src/userprog/syscall.c:19-21 | esp = PHYS_BASE - 2 passes `check_pointer`, but the word the handler loads runs into kernel memory |
| `Syscall.ExitArgumentExample` | src/userprog/syscall.c:27 | with SYS_EXIT at esp and status 7 above it, the handler exits with the word at esp + 16, which is 0 |
| `Syscall.SyscallHandlerChecked` | src/userprog/syscall.c:16-71 | with every word checked before it is loaded, the handler never faults, and it gets past the gate only for a fully mapped stack word |
| `Syscall.HandlerCheckedDispatches` | src/userprog/syscall.c:27-32 | for a valid stack, the checked handler makes the call the number names, with the argument at esp + 4 |

## Left out

- `process_execute`, `start_process`, `process_exit`, `process_activate` and the rest of process.c outside the loader, argument passing and wait are not part of this model.
- Blocking is not modelled. `thread_block`, and the wake-up by the exiting child, become a parameter: the value the child writes into `is_exited` before the waiting parent is woken. The write is applied to the child list when the parent resumes. `process_exit` always writes 0 there, so a child the kernel killed would still report 0. That lies outside the modelled code.
- `Wait.Thread.ProcessWait`: `child -> tid` (process.c:148) comes from `get_thread (child_tid)` and is modelled as the pid itself. A child thread that is already gone, where `get_thread` returns NULL, is not modelled.
- Kernel memory allocation is a counter of free user pages. `palloc_free_page` gives the page back. Physical page identities are not modelled.
- Files are immutable byte sequences. `filesys_open` failure, `file_close`, `file_seek` and the file position are not modelled, apart from what `file_read` returns.
- `AddressSpace.AddressSpace.Load`: it requires the file to be shorter than 2^31 bytes, the range of `file_length`'s `off_t`. `pagedir_create` failure (process.c:317-319) is not modelled.
- `AddressSpace.AddressSpace.InstallPage`: it fails only when the page is already mapped. A failure of `pagedir_set_page` to allocate a page table is not modelled.
- `printf` output (process.c:326, 339; syscall.c:65, 69) is left out as I/O.
- The final `thread_exit` of `syscall_handler` is not modelled: it does not return, and it changes no state the model keeps.
- `halt`, `exit` and `exec` themselves are not modelled. The handler's outcome names the call it makes.
- `Syscall.CheckPointer`: `*ptr == NULL` (syscall.c:80) is read as a NULL test of the pointer. As written it dereferences a `void *`, which C does not allow. The undefined `vaddr` at syscall.c:85 is read as `ptr`. `exit (-1)` becomes the outcome `Kill`.
- `strtok_s`, called at process.c:576, 580, 606 and 619, is not defined in the two modelled files. It is read as Pintos's `strtok_r`, which has the same arguments; a `strtok_s` that behaved otherwise is not modelled.
- A command line is modelled as the bytes before its terminating NUL, so it holds no NUL byte. The splitting functions accept any byte sequence and would split past a NUL; such input is not a C string and has no counterpart in the source.
- `Args.Strlcpy`: with size 0, `strlcpy` leaves the destination untouched. Here that is the empty string, which holds for the fresh buffer only if it happens to start with a NUL.
- Command lines longer than 127 bytes, which overflow the 128-byte `malloc` buffers of `argument_count` and `argv_put_stack` that hold a copy of the whole line, are not modelled. Neither is a failing `malloc`.
- `ArgStack.ArgvPutStack`: the source copies the line with `strncpy (argv, parse, strlen (parse))` (process.c:604), which writes no terminator. The model tokenizes the whole line, as if the buffer ended with a NUL.
- `ArgStack.ArgvPutStack`: it requires count to be the number of arguments, which is what the corrected argument count returns. With the as-written count the tokenizing loop writes past the end of `buff2` (undefined behaviour, not modelled).
- `ArgStack.ArgvPutStack`: it requires the whole layout to fit on the stack page. The source does not check this; a longer command line would write below the page.
- The `free` calls at process.c:659-664 are not modelled. `free (buff3[i])` passes an `int` where a pointer is expected.
- Interrupt-frame registers other than esp, and concurrency, are not modelled.

## Findings

| source | as written | input that shows it | evidently intended | confidence | as-written member | corrected member |
|---|---|---|---|---|---|---|
| src/userprog/process.c:574 | `strlcpy (argv, parse, strlen (parse))` keeps only strlen - 1 bytes, so the last byte of the line is lost | the line "echo x": two arguments, and `argument_count` returns 1 | copy size `strlen (parse) + 1` | high; not executed | `Args.ArgumentCount`, `Args.ArgumentCountExample` | `Args.ArgumentCountCorrected` |
| src/userprog/process.c:136-156 | the child's record is never removed, so a second wait for the same child returns its status again | a child with pid 5 that exited with 0: both waits return 0 | the comment at lines 106-111: a second wait returns -1 at once | high; not executed | `Wait.Thread.ProcessWait`, `Wait.WaitTwiceExample`, `Wait.WaitAgain` | `Wait.Thread.ProcessWaitOnce`, `Wait.WaitOnce` |
| src/userprog/syscall.c:19-21 | `check_pointer` checks only the first byte of the stack word the handler then loads | esp = PHYS_BASE - 2 with the stack page mapped: the check passes and the load reaches kernel memory | check every byte of each word loaded | medium; not executed | `Syscall.SyscallHandler`, `Syscall.StraddleExample` | `Syscall.SyscallHandlerChecked`, `Syscall.CheckWordPointerIff` |
| src/userprog/syscall.c:27 | `*(esp_val + 4)` on an `int *` reads 16 bytes above esp, not the argument just above the call number | SYS_EXIT at esp, 7 at esp + 4, zeros above: the handler exits with 0 | `*(esp_val + 1)`, the word at esp + 4 | high; not executed | `Syscall.SyscallHandler`, `Syscall.ExitArgumentExample` | `Syscall.SyscallHandlerChecked`, `Syscall.HandlerCheckedDispatches` |

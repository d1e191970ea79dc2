/** The system call entry (syscall.c): `check_pointer`, the gate every user
    address must pass before the kernel reads it, and `syscall_handler`,
    which validates the user stack pointer, reads the call number there and
    dispatches. User memory is the page directory of the address space
    model: the byte at user address a is byte a % PGSIZE of page a / PGSIZE.
    The call numbers are those of Pintos's `lib/syscall-nr.h`. */
module Syscall {
  import opened Bytes
  import opened Vaddr
  import opened Wrappers
  import opened AddressSpace

  const SYS_HALT: int := 0
  const SYS_EXIT: int := 1
  const SYS_EXEC: int := 2
  const SYS_WAIT: int := 3
  const SYS_CLOSE: int := 12

  /** The null pointer. */
  const NULL: nat := 0

  /** The result of `check_pointer`: the caller is killed with `exit (-1)`,
      or the pointer is handed back. */
  datatype Gate = Kill | Pass(ptr: nat)

  /** The user address a lies in a mapped user page. */
  predicate Mapped(pages: PageMap, a: nat) {
    IsUserVaddr(a) && a / PGSIZE in pages
  }

  /** `check_pointer (ptr)`: an address at or above PHYS_BASE, NULL, or an
      address whose page the page directory does not map kills the caller;
      any other address is handed back unchanged. */
  function CheckPointer(pages: PageMap, ptr: nat): (r: Gate)
    ensures r.Pass? <==> ptr != NULL && Mapped(pages, ptr)
    ensures r.Pass? ==> r.ptr == ptr
  {
    if ptr >= PHYS_BASE then Kill
    else if ptr == NULL then Kill
    else if ptr / PGSIZE !in pages then Kill
    else Pass(ptr)
  }

  // ---------------------------------------------------------------------
  // User memory

  /** The byte at a mapped user address. */
  function UserByte(pages: PageMap, a: nat): byte
    requires WellFormed(pages) && Mapped(pages, a)
  {
    assert |pages[a / PGSIZE].data| == PGSIZE;
    pages[a / PGSIZE].data[a % PGSIZE]
  }

  /** All four bytes of the word at a are mapped user bytes. */
  predicate WordMapped(pages: PageMap, a: nat) {
    Mapped(pages, a) && Mapped(pages, a + 1) && Mapped(pages, a + 2) && Mapped(pages, a + 3)
  }

  /** A 32-bit load from user address a: the little-endian word there, or
      None when one of its bytes is not a mapped user byte. */
  function ReadWord(pages: PageMap, a: nat): (r: Option<u32>)
    requires WellFormed(pages)
    ensures r.Some? <==> WordMapped(pages, a)
  {
    if WordMapped(pages, a) then
      Pow256Values();
      Some(Decode([UserByte(pages, a), UserByte(pages, a + 1), UserByte(pages, a + 2), UserByte(pages, a + 3)]))
    else None
  }

  /** A word that lies inside one mapped page is the word of that page's bytes. */
  lemma ReadWordInPage(pages: PageMap, a: nat)
    requires WellFormed(pages) && Mapped(pages, a) && a % PGSIZE + 4 <= PGSIZE
    ensures ReadWord(pages, a) == Some(Word(pages[a / PGSIZE].data, a % PGSIZE))
  {
    var pn, o := a / PGSIZE, a % PGSIZE;
    assert a == pn * PGSIZE + o;
    assert (a + 1) / PGSIZE == pn && (a + 1) % PGSIZE == o + 1;
    assert (a + 2) / PGSIZE == pn && (a + 2) % PGSIZE == o + 2;
    assert (a + 3) / PGSIZE == pn && (a + 3) % PGSIZE == o + 3;
    assert a + 3 < PHYS_BASE by {
      assert pn < USER_PAGES;
    }
    var d := pages[pn].data;
    assert [UserByte(pages, a), UserByte(pages, a + 1), UserByte(pages, a + 2), UserByte(pages, a + 3)]
           == d[o..o + 4];
  }

  // ---------------------------------------------------------------------
  // Properties of the gate

  /** Whatever check_pointer hands back is a mapped user byte: it can be read. */
  lemma CheckPointerSound(pages: PageMap, ptr: nat)
    requires WellFormed(pages) && CheckPointer(pages, ptr).Pass?
    ensures CheckPointer(pages, ptr).ptr == ptr && IsUserVaddr(ptr) && ptr / PGSIZE in pages
    ensures |pages[ptr / PGSIZE].data| == PGSIZE
  {
  }

  /** In an address space the loader built from an empty page directory,
      page 0 is unmapped, so every address in it, NULL included, is killed:
      there the NULL test of check_pointer decides nothing the mapping test
      does not. */
  lemma LoadedPageZeroKilled(pages: PageMap, ptr: nat)
    requires UserPagesAdded(map[], pages) && ptr < PGSIZE
    ensures CheckPointer(pages, ptr) == Kill
    ensures !Mapped(pages, ptr)
  {
    assert ptr / PGSIZE == 0;
  }

  /** check_pointer applied to both ends of a word: the check the handler
      needs before a 32-bit load. */
  function CheckWordPointer(pages: PageMap, ptr: nat): (r: Gate)
    ensures r.Pass? ==> r.ptr == ptr
  {
    match CheckPointer(pages, ptr)
    case Kill => Kill
    case Pass(p) =>
      match CheckPointer(pages, p + 3)
      case Kill => Kill
      case Pass(_) => Pass(p)
  }

  /** Checking both ends of a word checks all of it: the word check passes
      exactly when the pointer is not NULL and all four bytes are mapped
      user bytes. */
  lemma CheckWordPointerIff(pages: PageMap, ptr: nat)
    ensures CheckWordPointer(pages, ptr).Pass? <==> ptr != NULL && WordMapped(pages, ptr)
  {
    if ptr != NULL && Mapped(pages, ptr) && Mapped(pages, ptr + 3) {
      var lo, hi := ptr / PGSIZE, (ptr + 3) / PGSIZE;
      assert (ptr + 1) / PGSIZE == lo || (ptr + 1) / PGSIZE == hi;
      assert (ptr + 2) / PGSIZE == lo || (ptr + 2) / PGSIZE == hi;
    }
  }

  /** A word that passes the word check can be loaded. */
  lemma CheckedWordReadable(pages: PageMap, ptr: nat)
    requires WellFormed(pages) && CheckWordPointer(pages, ptr).Pass?
    ensures ReadWord(pages, ptr).Some?
  {
    CheckWordPointerIff(pages, ptr);
  }

  // ---------------------------------------------------------------------
  // The handler

  /** The call the handler makes: `halt ()`, `exit (status)`,
      `exec (cmd_line)`, one of the cases SYS_WAIT .. SYS_CLOSE that do
      nothing, or the default case for any other number. */
  datatype Call = Halt | Exit(status: int) | Exec(cmdLine: u32) | Ignored(number: int) | Unknown(number: int)

  /** How a system call ends. Every outcome ends the calling thread:
      Killed by check_pointer's `exit (-1)`; Faulted when the kernel loads a
      word at addr without having checked all of it (a page fault in the
      kernel, or a read of kernel memory); Dispatched when the call is made,
      after which the handler ends in `thread_exit`. */
  datatype Outcome = Killed | Faulted(addr: nat) | Dispatched(call: Call)

  /** How far above esp the handler as written reads the argument of
      SYS_EXIT and SYS_EXEC: `*(esp_val + 4)` on an `int *` is 4 ints, 16 bytes. */
  const ARG_OFFSET_AS_WRITTEN: nat := 16

  /** Where the argument of a system call lies: the word just above the call number. */
  const ARG_OFFSET: nat := 4

  /** The switch of `syscall_handler` on call number n, with the argument
      word loaded from argAt (unchecked) for SYS_EXIT and SYS_EXEC. */
  function Dispatch(pages: PageMap, n: int, argAt: nat): (r: Outcome)
    requires WellFormed(pages)
    ensures r.Faulted? ==> (n == SYS_EXIT || n == SYS_EXEC) && r.addr == argAt && !WordMapped(pages, argAt)
    ensures (n == SYS_EXIT || n == SYS_EXEC) && !WordMapped(pages, argAt) ==> r == Faulted(argAt)
    ensures (n == SYS_EXIT || n == SYS_EXEC) && WordMapped(pages, argAt) ==>
      r == Dispatched(if n == SYS_EXIT then Exit(ToInt32(ReadWord(pages, argAt).value)) else Exec(ReadWord(pages, argAt).value))
    ensures n == SYS_HALT ==> r == Dispatched(Halt)
    ensures SYS_WAIT <= n <= SYS_CLOSE ==> r == Dispatched(Ignored(n))
    ensures (n < SYS_HALT || n > SYS_CLOSE) ==> r == Dispatched(Unknown(n))
  {
    if n == SYS_HALT then Dispatched(Halt)
    else if n == SYS_EXIT || n == SYS_EXEC then
      match ReadWord(pages, argAt)
      case None => Faulted(argAt)
      case Some(a) => Dispatched(if n == SYS_EXIT then Exit(ToInt32(a)) else Exec(a))
    else if SYS_WAIT <= n <= SYS_CLOSE then Dispatched(Ignored(n))
    else Dispatched(Unknown(n))
  }

  /** `syscall_handler` as written: `check_pointer (f->esp)`, a load of the
      call number from esp with only its first byte checked, and the
      argument loaded unchecked from esp + 16. */
  function SyscallHandler(pages: PageMap, esp: nat): (r: Outcome)
    requires WellFormed(pages)
    ensures CheckPointer(pages, esp) == Kill <==> r == Killed
    ensures r.Faulted? ==> r.addr == esp || r.addr == esp + ARG_OFFSET_AS_WRITTEN
  {
    match CheckPointer(pages, esp)
    case Kill => Killed
    case Pass(p) =>
      match ReadWord(pages, p)
      case None => Faulted(p)
      case Some(w) => Dispatch(pages, ToInt32(w), p + ARG_OFFSET_AS_WRITTEN)
  }

  /** `syscall_handler` with every word it loads first passed through the
      word check, and the argument read from esp + 4. */
  function SyscallHandlerChecked(pages: PageMap, esp: nat): (r: Outcome)
    requires WellFormed(pages)
    ensures !r.Faulted?
    ensures r != Killed ==> WordMapped(pages, esp)
  {
    match CheckWordPointer(pages, esp)
    case Kill => Killed
    case Pass(p) =>
      CheckedWordReadable(pages, p);
      CheckWordPointerIff(pages, p);
      var n := ToInt32(ReadWord(pages, p).value);
      if (n == SYS_EXIT || n == SYS_EXEC) && CheckWordPointer(pages, p + ARG_OFFSET).Kill? then Killed
      else
        CheckWordPointerIff(pages, p + ARG_OFFSET);
        Dispatch(pages, n, p + ARG_OFFSET)
  }

  /** For a stack pointer check_pointer let through and a readable call
      number at it, the handler as written makes the call the number names:
      exit and exec take the word 16 bytes above esp, or fault there when
      it is not mapped. */
  lemma HandlerDispatches(pages: PageMap, esp: nat)
    requires WellFormed(pages) && CheckPointer(pages, esp).Pass? && WordMapped(pages, esp)
    ensures var n, arg := ToInt32(ReadWord(pages, esp).value), esp + ARG_OFFSET_AS_WRITTEN;
      && (n == SYS_HALT ==> SyscallHandler(pages, esp) == Dispatched(Halt))
      && (n == SYS_EXIT && WordMapped(pages, arg) ==>
            SyscallHandler(pages, esp) == Dispatched(Exit(ToInt32(ReadWord(pages, arg).value))))
      && (n == SYS_EXEC && WordMapped(pages, arg) ==>
            SyscallHandler(pages, esp) == Dispatched(Exec(ReadWord(pages, arg).value)))
      && ((n == SYS_EXIT || n == SYS_EXEC) && !WordMapped(pages, arg) ==> SyscallHandler(pages, esp) == Faulted(arg))
      && (SYS_WAIT <= n <= SYS_CLOSE ==> SyscallHandler(pages, esp) == Dispatched(Ignored(n)))
      && ((n < SYS_HALT || n > SYS_CLOSE) ==> SyscallHandler(pages, esp) == Dispatched(Unknown(n)))
  {
    var n := ToInt32(ReadWord(pages, esp).value);
    assert SyscallHandler(pages, esp) == Dispatch(pages, n, esp + ARG_OFFSET_AS_WRITTEN);
  }

  /** The checked handler makes, for a valid stack, the call the number at
      esp names with the argument at esp + 4. */
  lemma HandlerCheckedDispatches(pages: PageMap, esp: nat)
    requires WellFormed(pages) && esp != NULL && WordMapped(pages, esp) && WordMapped(pages, esp + ARG_OFFSET)
    ensures SyscallHandlerChecked(pages, esp) == Dispatch(pages, ToInt32(ReadWord(pages, esp).value), esp + ARG_OFFSET)
  {
    CheckWordPointerIff(pages, esp);
    CheckWordPointerIff(pages, esp + ARG_OFFSET);
  }

  // ---------------------------------------------------------------------
  // Two stacks that show the handler's defects

  /** An address space with only the initial stack page mapped, holding
      the words w0 and w1 at its lowest addresses and zeros above. */
  function StackOnly(w0: u32, w1: u32): (pages: PageMap)
    ensures WellFormed(pages) && STACK_PN in pages && pages.Keys == {STACK_PN}
  {
    map[STACK_PN := Frame(WordBytes(w0) + WordBytes(w1) + Zeros(PGSIZE - 8), true)]
  }

  /** A stack pointer two bytes below PHYS_BASE passes check_pointer, but
      the word the handler then loads runs into kernel memory; the word
      check kills the caller instead. */
  lemma StraddleExample()
    ensures var pages := StackOnly(0, 0); var esp := PHYS_BASE - 2;
      && CheckPointer(pages, esp) == Pass(esp)
      && SyscallHandler(pages, esp) == Faulted(esp)
      && SyscallHandlerChecked(pages, esp) == Killed
  {
    var pages := StackOnly(0, 0);
    var esp := PHYS_BASE - 2;
    assert esp / PGSIZE == STACK_PN;
    assert !Mapped(pages, esp + 3);
    CheckWordPointerIff(pages, esp);
  }

  /** Four zero bytes read as the word 0. */
  lemma ZeroWord(s: seq<byte>, i: nat)
    requires i + 4 <= |s| && s[i] == 0 && s[i + 1] == 0 && s[i + 2] == 0 && s[i + 3] == 0
    ensures Word(s, i) == 0
  {
    assert s[i..i + 4] == [0, 0, 0, 0] == Encode(4, 0);
    Pow256Values();
    DecodeEncode(4, 0);
  }

  /** The words of the stack page of the SYS_EXIT example. */
  lemma ExitStackWords(status: u32)
    ensures var d := StackOnly(SYS_EXIT as u32, status)[STACK_PN].data;
      Word(d, 0) == SYS_EXIT && Word(d, 4) == status && Word(d, 16) == 0
  {
    var z := Zeros(PGSIZE - 8);
    var d := WordBytes(SYS_EXIT as u32) + WordBytes(status) + z;
    WordAtBytes([], SYS_EXIT as u32, WordBytes(status) + z);
    assert d == [] + WordBytes(SYS_EXIT as u32) + (WordBytes(status) + z);
    WordAtBytes(WordBytes(SYS_EXIT as u32), status, z);
    ZeroWord(d, 16);
  }

  /** The addresses of the SYS_EXIT example lie on the stack page. */
  lemma ExitStackReads(status: u32)
    ensures var pages := StackOnly(SYS_EXIT as u32, status);
      && ReadWord(pages, STACK_PAGE) == Some(SYS_EXIT as u32)
      && ReadWord(pages, STACK_PAGE + ARG_OFFSET) == Some(status)
      && ReadWord(pages, STACK_PAGE + ARG_OFFSET_AS_WRITTEN) == Some(0)
  {
    var pages := StackOnly(SYS_EXIT as u32, status);
    assert STACK_PAGE / PGSIZE == STACK_PN && STACK_PAGE % PGSIZE == 0;
    assert (STACK_PAGE + 4) / PGSIZE == STACK_PN && (STACK_PAGE + 4) % PGSIZE == 4;
    assert (STACK_PAGE + 16) / PGSIZE == STACK_PN && (STACK_PAGE + 16) % PGSIZE == 16;
    ReadWordInPage(pages, STACK_PAGE);
    ReadWordInPage(pages, STACK_PAGE + 4);
    ReadWordInPage(pages, STACK_PAGE + 16);
    ExitStackWords(status);
  }

  /** A stack with SYS_EXIT at esp and the status 7 just above it: the
      handler as written exits with the zero word 16 bytes up, the checked
      handler with 7. */
  lemma ExitArgumentExample()
    ensures var pages := StackOnly(SYS_EXIT as u32, 7);
      && SyscallHandler(pages, STACK_PAGE) == Dispatched(Exit(0))
      && SyscallHandlerChecked(pages, STACK_PAGE) == Dispatched(Exit(7))
  {
    var pages := StackOnly(SYS_EXIT as u32, 7);
    ExitStackReads(7);
    HandlerDispatches(pages, STACK_PAGE);
    HandlerCheckedDispatches(pages, STACK_PAGE);
  }
}

/** `argv_put_stack` (process.c): the initial user stack built on the stack
    page that `setup_stack` maps just below PHYS_BASE. From the top down it
    holds the argument strings, padding to a 4-byte boundary, the argv
    array with its NULL sentinel, the address of argv, argc and a zero return
    address. Addresses are user virtual addresses; byte a of the stack page
    is element a - STACK_PAGE of the page array. */
module ArgStack {
  import opened Bytes
  import opened Vaddr
  import opened Args

  // ---------------------------------------------------------------------
  // Byte strings on the page

  /** mem with bytes written at offset at, one byte after the other (a
      `memcpy` into the page). */
  function Write(mem: seq<byte>, at: nat, bytes: seq<byte>): (r: seq<byte>)
    requires at + |bytes| <= |mem|
    ensures |r| == |mem|
    decreases |bytes|
  {
    if bytes == [] then mem else Write(mem[at := bytes[0]], at + 1, bytes[1..])
  }

  /** A write replaces the slice at..at + |bytes| of mem by bytes. */
  lemma {:induction false} WriteSplice(mem: seq<byte>, at: nat, bytes: seq<byte>)
    requires at + |bytes| <= |mem|
    ensures Write(mem, at, bytes) == mem[..at] + bytes + mem[at + |bytes|..]
    decreases |bytes|
  {
    if bytes == [] {
      assert mem[..at] + bytes + mem[at..] == mem;
    } else {
      var m := mem[at := bytes[0]];
      WriteSplice(m, at + 1, bytes[1..]);
      assert m[..at + 1] == mem[..at] + [bytes[0]];
      assert m[at + 1 + |bytes[1..]|..] == mem[at + |bytes|..];
      assert mem[..at] + [bytes[0]] + bytes[1..] == mem[..at] + bytes;
    }
  }

  /** Byte k after a write: from bytes inside the written range, from mem
      outside it. */
  lemma WriteAt(mem: seq<byte>, at: nat, bytes: seq<byte>, k: nat)
    requires at + |bytes| <= |mem| && k < |mem|
    ensures Write(mem, at, bytes)[k] == if at <= k < at + |bytes| then bytes[k - at] else mem[k]
  {
    WriteSplice(mem, at, bytes);
  }

  /** Writing a just below b is writing a + b. */
  lemma WriteBelow(mem: seq<byte>, at: nat, b: seq<byte>, a: seq<byte>)
    requires |a| <= at && at + |b| <= |mem|
    ensures Write(Write(mem, at, b), at - |a|, a) == Write(mem, at - |a|, a + b)
  {
    var lo := at - |a|;
    var m1 := Write(mem, at, b);
    var l, r := Write(m1, lo, a), Write(mem, lo, a + b);
    forall k | 0 <= k < |mem|
      ensures l[k] == r[k]
    {
      WriteAt(mem, at, b, k);
      WriteAt(m1, lo, a, k);
      WriteAt(mem, lo, a + b, k);
    }
  }

  /** The argument strings as the stack holds them: each followed by its NUL. */
  function Strings(args: seq<seq<byte>>): (r: seq<byte>)
    ensures |args| > 0 ==> |r| > 0
  {
    if args == [] then [] else args[0] + [0] + Strings(args[1..])
  }

  lemma {:induction false} StringsAppend(a: seq<seq<byte>>, b: seq<seq<byte>>)
    ensures Strings(a + b) == Strings(a) + Strings(b)
  {
    if a != [] {
      assert (a + b)[1..] == a[1..] + b;
      StringsAppend(a[1..], b);
    } else {
      assert a + b == b;
    }
  }

  /** The strings from argument i on: argument i, its NUL, the rest. */
  lemma StringsFrom(args: seq<seq<byte>>, i: nat)
    requires i < |args|
    ensures Strings(args[i..]) == args[i] + [0] + Strings(args[i + 1..])
  {
    assert args[i..][1..] == args[i + 1..];
  }

  /** The little-endian words of xs, one after the other. */
  function Words(xs: seq<u32>): (r: seq<byte>)
    ensures |r| == 4 * |xs|
  {
    if xs == [] then [] else WordBytes(xs[0]) + Words(xs[1..])
  }

  /** Word j of Words(xs) is xs[j]. */
  lemma {:induction false} WordsAt(xs: seq<u32>, j: nat)
    requires j < |xs|
    ensures Word(Words(xs), 4 * j) == xs[j]
  {
    if j == 0 {
      WordAtBytes([], xs[0], Words(xs[1..]));
      assert [] + WordBytes(xs[0]) + Words(xs[1..]) == Words(xs);
    } else {
      WordsAt(xs[1..], j - 1);
      WordInConcat(WordBytes(xs[0]), Words(xs[1..]), [], 4 * (j - 1));
      assert WordBytes(xs[0]) + Words(xs[1..]) + [] == Words(xs);
    }
  }

  // ---------------------------------------------------------------------
  // The layout

  /** Where the lowest string starts: esp minus the strings' total length. */
  function StringsStart(esp: nat, args: seq<seq<byte>>): int {
    esp - |Strings(args)|
  }

  /** The address of argv[0]: below the strings, rounded down to a multiple
      of 4 (`esp & 3` bytes of padding), the count + 1 words of argv. */
  function ArgvAddress(esp: nat, args: seq<seq<byte>>): int {
    var s := StringsStart(esp, args);
    s - s % 4 - 4 * (|args| + 1)
  }

  /** The final stack pointer: three more words below argv. */
  function FinalEsp(esp: nat, args: seq<seq<byte>>): int {
    ArgvAddress(esp, args) - 12
  }

  /** The whole layout lies on the stack page under esp. */
  predicate Fits(esp: nat, args: seq<seq<byte>>) {
    esp <= PHYS_BASE && STACK_PAGE <= FinalEsp(esp, args)
  }

  /** The offset of argument j's string among the strings: the lengths of
      the arguments before it, each with its NUL. */
  function Offset(args: seq<seq<byte>>, j: nat): nat
    requires j <= |args|
  {
    if j == 0 then 0 else Offset(args, j - 1) + |args[j - 1]| + 1
  }

  /** The strings before argument j and the strings from it on make up all the strings. */
  lemma {:induction false} OffsetStrings(args: seq<seq<byte>>, j: nat)
    requires j <= |args|
    ensures Offset(args, j) + |Strings(args[j..])| == |Strings(args)|
  {
    if j == 0 {
      assert args[0..] == args;
    } else {
      OffsetStrings(args, j - 1);
      StringsFrom(args, j - 1);
    }
  }

  /** The address of argument j's string. */
  function ArgAddress(esp: nat, args: seq<seq<byte>>, j: nat): int
    requires j <= |args|
  {
    StringsStart(esp, args) + Offset(args, j)
  }

  /** The contents of argv: the addresses of the strings, then NULL. */
  function ArgvWords(esp: nat, args: seq<seq<byte>>): (r: seq<u32>)
    requires Fits(esp, args)
    ensures |r| == |args| + 1
  {
    seq(|args|, j requires 0 <= j < |args| => ArgAddressWord(esp, args, j)) + [0]
  }

  /** ArgAddress as a 32-bit word: it lies on the stack page. */
  function ArgAddressWord(esp: nat, args: seq<seq<byte>>, j: nat): (r: u32)
    requires Fits(esp, args) && j < |args|
    ensures r == ArgAddress(esp, args, j)
  {
    OffsetStrings(args, j);
    ArgAddress(esp, args, j)
  }

  /** The words `argv_put_stack` pushes below the padding, from the lowest
      address up: the return address 0, argc, the address of argv, then argv. */
  function Frame(esp: nat, args: seq<seq<byte>>): (r: seq<byte>)
    requires Fits(esp, args)
  {
    Zeros(4) + (WordBytes(|args|) + (WordBytes(ArgvAddress(esp, args)) + Words(ArgvWords(esp, args))))
  }

  /** The stack page after `argv_put_stack`: the strings written below esp
      and the frame written from the final esp up to the padding; everything
      else, the padding included, as it was. */
  function StackImage(mem: seq<byte>, esp: nat, args: seq<seq<byte>>): (r: seq<byte>)
    requires |mem| == PGSIZE && Fits(esp, args)
    ensures |r| == PGSIZE
  {
    FitsFacts(esp, args);
    Write(Write(mem, StringsStart(esp, args) - STACK_PAGE, Strings(args)),
          FinalEsp(esp, args) - STACK_PAGE, Frame(esp, args))
  }

  /** The arithmetic of a layout that fits. */
  lemma FitsFacts(esp: nat, args: seq<seq<byte>>)
    requires Fits(esp, args)
    ensures STACK_PAGE + 16 + 4 * |args| <= StringsStart(esp, args) <= esp <= PHYS_BASE
    ensures FinalEsp(esp, args) + 12 + 4 * (|args| + 1) + StringsStart(esp, args) % 4 == StringsStart(esp, args)
    ensures |args| < U32_LIMIT && ArgvAddress(esp, args) < U32_LIMIT
  {
  }

  /** Argument j's string starts where the strings from j on end at esp. */
  lemma ArgAddressFrom(esp: nat, args: seq<seq<byte>>, j: nat)
    requires j <= |args|
    ensures ArgAddress(esp, args, j) == esp - |Strings(args[j..])|
    ensures Fits(esp, args) ==> STACK_PAGE <= ArgAddress(esp, args, j) <= esp
  {
    OffsetStrings(args, j);
  }

  // ---------------------------------------------------------------------
  // The procedure

  /** `memcpy (page + at, bytes, |bytes|)`. */
  method CopyIn(page: array<byte>, at: nat, bytes: seq<byte>)
    requires at + |bytes| <= page.Length
    modifies page
    ensures page[..] == Write(old(page[..]), at, bytes)
  {
    forall k | at <= k < at + |bytes| {
      page[k] := bytes[k - at];
    }
    WriteSplice(old(page[..]), at, bytes);
    assert page[..] == Write(old(page[..]), at, bytes);
  }

  /** The tokenizing loop of `argv_put_stack`: every argument (buff2) and its
      length with the NUL (buff3), in order. */
  method SplitArguments(argv: seq<byte>) returns (buff2: seq<seq<byte>>, buff3: seq<nat>)
    ensures buff2 == Tokens(argv)
    ensures |buff3| == |buff2| && forall i :: 0 <= i < |buff3| ==> buff3[i] == |buff2[i]| + 1
  {
    assert argv[0..] == argv;
    var r := NextToken(argv, 0);
    var token, address := r.0, r.1;
    buff2, buff3 := [], [];
    while token.Some?
      invariant address <= |argv|
      invariant Tokens(argv) == buff2 + if token.Some? then [token.value] + Tokens(argv[address..]) else []
      invariant |buff3| == |buff2| && forall i :: 0 <= i < |buff3| ==> buff3[i] == |buff2[i]| + 1
      decreases |argv| - address + if token.Some? then 1 else 0
    {
      buff2, buff3 := buff2 + [token.value], buff3 + [|token.value| + 1];
      r := NextToken(argv, address);
      token, address := r.0, r.1;
    }
  }

  /** One step of the string loop: argument i is written just below the
      strings of the arguments after it, which start at hi. */
  lemma StringStep(mem: seq<byte>, current: seq<byte>, lo: nat, hi: nat, args: seq<seq<byte>>, i: nat)
    requires i < |args| && lo + |args[i]| + 1 == hi && hi + |Strings(args[i + 1..])| <= |mem|
    requires current == Write(mem, hi, Strings(args[i + 1..]))
    ensures Write(current, lo, args[i] + [0]) == Write(mem, lo, Strings(args[i..]))
  {
    StringsFrom(args, i);
    WriteBelow(mem, hi, Strings(args[i + 1..]), args[i] + [0]);
  }

  /** The string loop's state after pushing arguments i .. count - 1: they lie
      packed below esp, cur is the lowest of them, buff[j] holds argument j's
      address for j >= i and buff[count] is NULL. */
  ghost predicate Pushed(mem: seq<byte>, current: seq<byte>, esp: nat, args: seq<seq<byte>>,
                         i: nat, cur: nat, buff: seq<u32>)
  {
    && i <= |args| && |mem| == PGSIZE && esp <= PHYS_BASE
    && |buff| == |args| + 1 && buff[|args|] == 0
    && cur == esp - |Strings(args[i..])| && STACK_PAGE <= cur
    && current == Write(mem, cur - STACK_PAGE, Strings(args[i..]))
    && forall j :: i <= j < |args| ==> buff[j] == esp - |Strings(args[j..])|
  }

  /** Copying argument i with its NUL just below the arguments after it and
      recording its address extends the pushed strings by one argument. */
  lemma PushedStep(mem: seq<byte>, current: seq<byte>, next: seq<byte>, esp: nat, args: seq<seq<byte>>,
                   i: nat, cur: nat, cur': nat, buff: seq<u32>, buff': seq<u32>)
    requires i < |args| && Pushed(mem, current, esp, args, i + 1, cur, buff)
    requires cur' + |args[i]| + 1 == cur && STACK_PAGE <= cur' && buff' == buff[i := cur']
    requires next == Write(current, cur' - STACK_PAGE, args[i] + [0])
    ensures Pushed(mem, next, esp, args, i, cur', buff')
  {
    var lo: nat, hi: nat := cur' - STACK_PAGE, cur - STACK_PAGE;
    StringsFrom(args, i);
    StringStep(mem, current, lo, hi, args, i);
    PushedAddresses(esp, args, i, cur', buff, buff');
  }

  /** Recording argument i's address keeps buff[j] the address of argument
      j for every j from i on. */
  lemma PushedAddresses(esp: nat, args: seq<seq<byte>>, i: nat, cur': u32, buff: seq<u32>, buff': seq<u32>)
    requires i < |args| && |buff| == |args| + 1 && buff' == buff[i := cur']
    requires cur' == esp - |Strings(args[i..])|
    requires forall j :: i + 1 <= j < |args| ==> buff[j] == esp - |Strings(args[j..])|
    ensures forall j :: i <= j < |args| ==> buff'[j] == esp - |Strings(args[j..])|
  {
  }

  /** The argument before i, with its NUL, fits on the page below the
      arguments from i on. */
  lemma PushRoom(esp: nat, args: seq<seq<byte>>, i: nat)
    requires Fits(esp, args) && 0 < i <= |args|
    ensures STACK_PAGE + |args[i - 1]| + 1 + |Strings(args[i..])| <= esp
  {
    ArgAddressFrom(esp, args, i - 1);
    StringsFrom(args, i - 1);
  }

  /** The body of the string loop for argument i - 1, with i the number of
      arguments not yet pushed (`*esp -= buff3[i]; buff[i] = *esp;
      memcpy (*esp, buff2[i], buff3[i])`): esp drops by the length of that
      argument with its NUL, its address is recorded and it is copied there. */
  method PushString(page: array<byte>, args: seq<seq<byte>>, len: nat, i: nat, esp: nat,
                    cur: nat, buff: seq<u32>, ghost mem: seq<byte>)
    returns (cur': nat, buff': seq<u32>)
    requires page.Length == PGSIZE
    requires 0 < i <= |args| && len == |args[i - 1]| + 1
    requires STACK_PAGE + len + |Strings(args[i..])| <= esp
    requires Pushed(mem, page[..], esp, args, i, cur, buff)
    modifies page
    ensures Pushed(mem, page[..], esp, args, i - 1, cur', buff')
  {
    var k := i - 1;
    ghost var current := page[..];
    cur' := cur - len;
    buff' := buff[k := cur'];
    CopyIn(page, cur' - STACK_PAGE, args[k] + [0]);
    PushedStep(mem, current, page[..], esp, args, k, cur, cur', buff, buff');
  }

  /** Before the string loop nothing is pushed and buff is all NULL. */
  lemma PushedStart(mem: seq<byte>, esp: nat, args: seq<seq<byte>>, buff: seq<u32>)
    requires |mem| == PGSIZE && Fits(esp, args)
    requires |buff| == |args| + 1 && buff[|args|] == 0
    ensures Pushed(mem, mem, esp, args, |args|, esp, buff)
  {
    assert args[|args|..] == [];
    FitsFacts(esp, args);
  }

  /** After the string loop all the strings lie below esp, starting at
      StringsStart, and buff holds their addresses. */
  lemma PushedAll(mem: seq<byte>, current: seq<byte>, esp: nat, args: seq<seq<byte>>, cur: nat, buff: seq<u32>)
    requires Pushed(mem, current, esp, args, 0, cur, buff)
    ensures cur == StringsStart(esp, args) && STACK_PAGE <= cur
    ensures |buff| == |args| + 1 && buff[|args|] == 0
    ensures forall j :: 0 <= j < |args| ==> buff[j] == ArgAddress(esp, args, j)
    ensures current == Write(mem, cur - STACK_PAGE, Strings(args))
  {
    assert args[0..] == args;
    forall j | 0 <= j < |args|
      ensures buff[j] == ArgAddress(esp, args, j)
    {
      ArgAddressFrom(esp, args, j);
    }
  }

  /** The string loop of `argv_put_stack`: from the last argument down, esp
      drops by the argument's length with its NUL, the argument is copied
      there and buff[i] records the address. */
  method PushStringsLoop(page: array<byte>, args: seq<seq<byte>>, lengths: seq<nat>, esp: nat)
    returns (cur: nat, buff: seq<u32>)
    requires page.Length == PGSIZE && Fits(esp, args)
    requires |lengths| == |args| && forall i :: 0 <= i < |args| ==> lengths[i] == |args[i]| + 1
    modifies page
    ensures Pushed(old(page[..]), page[..], esp, args, 0, cur, buff)
  {
    ghost var mem0 := page[..];
    buff := seq(|args| + 1, _ => 0);
    PushedStart(mem0, esp, args, buff);
    cur := esp;
    var i: nat := |args|;
    while i > 0
      invariant Pushed(mem0, page[..], esp, args, i, cur, buff)
    {
      PushRoom(esp, args, i);
      cur, buff := PushString(page, args, lengths[i - 1], i, esp, cur, buff, mem0);
      i := i - 1;
    }
  }

  /** The string loop in terms of the layout: the strings end up packed
      below esp from StringsStart up, buff holds their addresses and NULL. */
  method PushStrings(page: array<byte>, args: seq<seq<byte>>, lengths: seq<nat>, esp: nat)
    returns (cur: nat, buff: seq<u32>)
    requires page.Length == PGSIZE && Fits(esp, args)
    requires |lengths| == |args| && forall i :: 0 <= i < |args| ==> lengths[i] == |args[i]| + 1
    modifies page
    ensures cur == StringsStart(esp, args) && STACK_PAGE <= cur
    ensures |buff| == |args| + 1 && buff[|args|] == 0
    ensures forall j :: 0 <= j < |args| ==> buff[j] == ArgAddress(esp, args, j)
    ensures page[..] == Write(old(page[..]), cur - STACK_PAGE, Strings(args))
  {
    cur, buff := PushStringsLoop(page, args, lengths, esp);
    PushedAll(old(page[..]), page[..], esp, args, cur, buff);
  }

  /** The argv loop of `argv_put_stack`: from buff[count] down to buff[0],
      esp drops by 4 and the word is copied there, so the words lie in order
      from the new esp up. */
  method PushWords(page: array<byte>, buff: seq<u32>, esp: nat) returns (cur: nat)
    requires page.Length == PGSIZE && STACK_PAGE + 4 * |buff| <= esp <= PHYS_BASE
    modifies page
    ensures cur == esp - 4 * |buff|
    ensures page[..] == Write(old(page[..]), cur - STACK_PAGE, Words(buff))
  {
    ghost var mem1 := page[..];
    cur := esp;
    var i := |buff|;
    assert buff[i..] == [];
    assert Write(mem1, cur - STACK_PAGE, Words(buff[i..])) == mem1;
    while i > 0
      invariant i <= |buff|
      invariant cur == esp - 4 * (|buff| - i)
      invariant page[..] == Write(mem1, cur - STACK_PAGE, Words(buff[i..]))
    {
      i := i - 1;
      ghost var above := cur;
      cur := cur - 4;
      assert buff[i..][1..] == buff[i + 1..];
      WriteBelow(mem1, above - STACK_PAGE, Words(buff[i + 1..]), WordBytes(buff[i]));
      CopyIn(page, cur - STACK_PAGE, WordBytes(buff[i]));
    }
    assert buff[0..] == buff;
  }

  /** The pushes below the padding: argv from the NULL sentinel down, then
      the address of argv, argc and a zero return address. They lie in that
      order from the new esp up. */
  method PushFrame(page: array<byte>, buff: seq<u32>, argc: u32, esp: nat) returns (esp': nat, argvPtr: u32)
    requires page.Length == PGSIZE && STACK_PAGE + 12 + 4 * |buff| <= esp <= PHYS_BASE
    modifies page
    ensures argvPtr + 4 * |buff| == esp && esp' + 12 == argvPtr
    ensures page[..] == Write(old(page[..]), esp' - STACK_PAGE,
                              Zeros(4) + (WordBytes(argc) + (WordBytes(argvPtr) + Words(buff))))
  {
    ghost var mem := page[..];
    var cur := PushWords(page, buff, esp);
    argvPtr := cur;
    cur := cur - 4;
    WriteBelow(mem, cur + 4 - STACK_PAGE, Words(buff), WordBytes(argvPtr));
    CopyIn(page, cur - STACK_PAGE, WordBytes(argvPtr));
    cur := cur - 4;
    WriteBelow(mem, cur + 4 - STACK_PAGE, WordBytes(argvPtr) + Words(buff), WordBytes(argc));
    CopyIn(page, cur - STACK_PAGE, WordBytes(argc));
    cur := cur - 4;
    WriteBelow(mem, cur + 4 - STACK_PAGE, WordBytes(argc) + (WordBytes(argvPtr) + Words(buff)), Zeros(4));
    CopyIn(page, cur - STACK_PAGE, Zeros(4));
    esp' := cur;
  }

  /** The words pushed below the padding are the frame of the layout. */
  lemma FrameIs(esp: nat, args: seq<seq<byte>>, buff: seq<u32>, argc: u32, argvPtr: u32)
    requires Fits(esp, args) && argc == |args| && argvPtr == ArgvAddress(esp, args)
    requires |buff| == |args| + 1 && buff[|args|] == 0
    requires forall j :: 0 <= j < |args| ==> buff[j] == ArgAddress(esp, args, j)
    ensures Zeros(4) + (WordBytes(argc) + (WordBytes(argvPtr) + Words(buff))) == Frame(esp, args)
  {
    ArgvIs(esp, args, buff);
  }

  /** The addresses the string loop records, then NULL: that is argv. */
  lemma ArgvIs(esp: nat, args: seq<seq<byte>>, buff: seq<u32>)
    requires Fits(esp, args)
    requires |buff| == |args| + 1 && buff[|args|] == 0
    requires forall j :: 0 <= j < |args| ==> buff[j] == ArgAddress(esp, args, j)
    ensures buff == ArgvWords(esp, args)
  {
    var w := ArgvWords(esp, args);
    forall j | 0 <= j < |buff|
      ensures buff[j] == w[j]
    {
      if j < |args| {
        assert w[j] == ArgAddressWord(esp, args, j);
      }
    }
  }

  /** The strings written at StringsStart, then the frame at the final
      stack pointer: that is StackImage. */
  lemma StackImageOf(mem: seq<byte>, mem1: seq<byte>, current: seq<byte>, esp: nat, args: seq<seq<byte>>,
                     cur: nat, at: nat, frame: seq<byte>)
    requires |mem| == PGSIZE && Fits(esp, args)
    requires cur == StringsStart(esp, args) && STACK_PAGE <= cur
    requires at == FinalEsp(esp, args) - STACK_PAGE && frame == Frame(esp, args)
    requires mem1 == Write(mem, cur - STACK_PAGE, Strings(args))
    requires |mem1| == PGSIZE && at + |frame| <= PGSIZE
    requires current == Write(mem1, at, frame)
    ensures current == StackImage(mem, esp, args)
  {
  }

  /** The strings, then the frame: the page is StackImage. */
  lemma StackImageIs(mem: seq<byte>, mem1: seq<byte>, current: seq<byte>, esp: nat, args: seq<seq<byte>>,
                     buff: seq<u32>, argc: u32, cur: nat, argvPtr: u32, final: nat)
    requires |mem| == PGSIZE && Fits(esp, args) && argc == |args|
    requires |buff| == |args| + 1 && buff[|args|] == 0
    requires forall j :: 0 <= j < |args| ==> buff[j] == ArgAddress(esp, args, j)
    requires cur == StringsStart(esp, args) && STACK_PAGE <= cur
    requires mem1 == Write(mem, cur - STACK_PAGE, Strings(args))
    requires argvPtr + 4 * |buff| == cur - cur % 4 && final + 12 == argvPtr && STACK_PAGE <= final
    requires |mem1| == PGSIZE && final - STACK_PAGE + 12 + 4 * |buff| <= PGSIZE
    requires current == Write(mem1, final - STACK_PAGE, Zeros(4) + (WordBytes(argc) + (WordBytes(argvPtr) + Words(buff))))
    ensures final == FinalEsp(esp, args)
    ensures current == StackImage(mem, esp, args)
  {
    FitsFacts(esp, args);
    FrameIs(esp, args, buff, argc, argvPtr);
    StackImageOf(mem, mem1, current, esp, args, cur, final - STACK_PAGE,
                 Zeros(4) + (WordBytes(argc) + (WordBytes(argvPtr) + Words(buff))));
  }

  /** `argv_put_stack (parse, count, esp)` on the stack page, with esp the
      user address the stack pointer holds: it splits the command line, pushes
      the strings from the last argument down, `esp & 3` bytes of padding,
      argv from the NULL sentinel down, the address of argv, argc and a zero
      return address, and returns the final stack pointer. The page then
      holds exactly StackImage. */
  method ArgvPutStack(page: array<byte>, parse: seq<byte>, count: nat, esp: nat) returns (esp': nat)
    requires page.Length == PGSIZE
    requires count == |Tokens(parse)|
    requires Fits(esp, Tokens(parse))
    modifies page
    ensures esp' == FinalEsp(esp, Tokens(parse))
    ensures page[..] == StackImage(old(page[..]), esp, Tokens(parse))
  {
    var argv := parse;
    var buff2, buff3 := SplitArguments(argv);
    FitsFacts(esp, buff2);
    ghost var mem0 := page[..];
    var cur, buff := PushStrings(page, buff2, buff3, esp);
    ghost var mem1 := page[..];
    var align := cur % 4;
    var top := cur - align;
    var argvPtr;
    esp', argvPtr := PushFrame(page, buff, count, top);
    StackImageIs(mem0, mem1, page[..], esp, buff2, buff, count, cur, argvPtr, esp');
  }

  // ---------------------------------------------------------------------
  // What the stack page holds

  /** A write puts its bytes at its offset and leaves every other byte alone. */
  lemma WriteBytes(mem: seq<byte>, at: nat, bytes: seq<byte>)
    requires at + |bytes| <= |mem|
    ensures Write(mem, at, bytes)[at..at + |bytes|] == bytes
    ensures forall k :: 0 <= k < |mem| && !(at <= k < at + |bytes|) ==> Write(mem, at, bytes)[k] == mem[k]
  {
    var r := Write(mem, at, bytes);
    WriteSplice(mem, at, bytes);
    assert r[at..at + |bytes|] == bytes;
  }

  /** A word inside the written bytes reads back as the word of those bytes. */
  lemma WordOfWrite(mem: seq<byte>, at: nat, bytes: seq<byte>, d: nat)
    requires at + |bytes| <= |mem| && d + 4 <= |bytes|
    ensures Word(Write(mem, at, bytes), at + d) == Word(bytes, d)
  {
    WriteSplice(mem, at, bytes);
    WordInConcat(mem[..at], bytes, mem[at + |bytes|..], d);
  }

  /** The strings of the arguments before j take Offset(args, j) bytes, and
      argument j with its NUL follows them. */
  lemma {:induction false} StringsAt(args: seq<seq<byte>>, j: nat)
    requires j < |args|
    ensures Offset(args, j + 1) <= |Strings(args)|
    ensures Strings(args)[Offset(args, j)..Offset(args, j + 1)] == args[j] + [0]
  {
    OffsetStrings(args, j);
    StringsAppend(args[..j], args[j..]);
    assert args[..j] + args[j..] == args;
    StringsFrom(args, j);
    var s := Strings(args);
    assert s == Strings(args[..j]) + (args[j] + [0] + Strings(args[j + 1..]));
  }

  /** A slice inside the written bytes is the corresponding slice of them. */
  lemma WriteSlice(mem: seq<byte>, at: nat, bytes: seq<byte>, lo: nat, hi: nat)
    requires at <= lo <= hi <= at + |bytes| <= |mem|
    ensures Write(mem, at, bytes)[lo..hi] == bytes[lo - at..hi - at]
  {
    var r := Write(mem, at, bytes);
    WriteSplice(mem, at, bytes);
    assert forall k :: lo <= k < hi ==> r[k] == bytes[k - at];
  }

  /** A slice above the written bytes is as it was. */
  lemma WriteAbove(mem: seq<byte>, at: nat, bytes: seq<byte>, lo: nat, hi: nat)
    requires at + |bytes| <= lo <= hi <= |mem|
    ensures Write(mem, at, bytes)[lo..hi] == mem[lo..hi]
  {
    var r := Write(mem, at, bytes);
    WriteSplice(mem, at, bytes);
    assert forall k :: lo <= k < hi ==> r[k] == mem[k];
  }

  /** The first three words of the frame: the zero return address, argc and
      the address of argv. */
  lemma FrameTop(esp: nat, args: seq<seq<byte>>)
    requires Fits(esp, args)
    ensures |Frame(esp, args)| == 12 + 4 * (|args| + 1)
    ensures Word(Frame(esp, args), 0) == 0 && Word(Frame(esp, args), 4) == |args|
    ensures Word(Frame(esp, args), 8) == ArgvAddress(esp, args)
  {
    FitsFacts(esp, args);
    var frame := Frame(esp, args);
    var words := Words(ArgvWords(esp, args));
    var tail := WordBytes(ArgvAddress(esp, args)) + words;
    assert Zeros(4) == WordBytes(0);
    assert frame == [] + WordBytes(0) + (WordBytes(|args|) + tail);
    WordAtBytes([], 0, WordBytes(|args|) + tail);
    assert frame == Zeros(4) + WordBytes(|args|) + tail;
    WordAtBytes(Zeros(4), |args|, tail);
    assert frame == Zeros(4) + WordBytes(|args|) + WordBytes(ArgvAddress(esp, args)) + words;
    WordAtBytes(Zeros(4) + WordBytes(|args|), ArgvAddress(esp, args), words);
  }

  /** Word 3 + j of the frame is argv[j]. */
  lemma FrameArgv(esp: nat, args: seq<seq<byte>>, j: nat)
    requires Fits(esp, args) && j <= |args|
    ensures |Frame(esp, args)| == 12 + 4 * (|args| + 1)
    ensures Word(Frame(esp, args), 12 + 4 * j) == ArgvWords(esp, args)[j]
  {
    FitsFacts(esp, args);
    var w := ArgvWords(esp, args);
    var head := Zeros(4) + WordBytes(|args|) + WordBytes(ArgvAddress(esp, args));
    assert Frame(esp, args) == head + Words(w) + [];
    WordsAt(w, j);
    WordInConcat(head, Words(w), [], 4 * j);
  }

  /** The stack page with only the strings written. */
  function StringsImage(mem: seq<byte>, esp: nat, args: seq<seq<byte>>): (r: seq<byte>)
    requires |mem| == PGSIZE && Fits(esp, args)
    ensures |r| == PGSIZE
  {
    FitsFacts(esp, args);
    Write(mem, StringsStart(esp, args) - STACK_PAGE, Strings(args))
  }

  /** StackImage is the frame written over StringsImage. */
  lemma StackImageFrame(mem: seq<byte>, esp: nat, args: seq<seq<byte>>)
    requires |mem| == PGSIZE && Fits(esp, args)
    ensures STACK_PAGE <= FinalEsp(esp, args)
    ensures FinalEsp(esp, args) - STACK_PAGE + |Frame(esp, args)| <= StringsStart(esp, args) - STACK_PAGE
    ensures StackImage(mem, esp, args)
            == Write(StringsImage(mem, esp, args), FinalEsp(esp, args) - STACK_PAGE, Frame(esp, args))
  {
    FitsFacts(esp, args);
    FrameTop(esp, args);
  }

  /** Rounding the strings' start down to a multiple of 4 and pushing whole
      words keeps the final stack pointer word-aligned. */
  lemma FinalEspAligned(esp: nat, args: seq<seq<byte>>)
    ensures FinalEsp(esp, args) % 4 == 0
  {
    var s := StringsStart(esp, args);
    var q := s / 4;
    assert s - s % 4 == 4 * q;
    assert FinalEsp(esp, args) == 4 * (q - |args| - 4);
  }

  /** The final stack pointer is word-aligned, and the three words at it are
      the zero return address, argc and the address of argv. */
  lemma StackTop(mem: seq<byte>, esp: nat, args: seq<seq<byte>>)
    requires |mem| == PGSIZE && Fits(esp, args)
    ensures FinalEsp(esp, args) % 4 == 0
    ensures var r := StackImage(mem, esp, args); var f := FinalEsp(esp, args) - STACK_PAGE;
      && Word(r, f) == 0 && Word(r, f + 4) == |args| && Word(r, f + 8) == ArgvAddress(esp, args)
  {
    FinalEspAligned(esp, args);
    StackImageFrame(mem, esp, args);
    FrameTop(esp, args);
    var f: nat := FinalEsp(esp, args) - STACK_PAGE;
    var mem1 := StringsImage(mem, esp, args);
    WordOfWrite(mem1, f, Frame(esp, args), 0);
    WordOfWrite(mem1, f, Frame(esp, args), 4);
    WordOfWrite(mem1, f, Frame(esp, args), 8);
  }

  /** Word j of argv is the address of argument j's string, and the word
      after the last argument is NULL. */
  lemma StackArgv(mem: seq<byte>, esp: nat, args: seq<seq<byte>>, j: nat)
    requires |mem| == PGSIZE && Fits(esp, args) && j <= |args|
    ensures STACK_PAGE <= ArgvAddress(esp, args) && ArgvAddress(esp, args) - STACK_PAGE + 4 * j + 4 <= PGSIZE
    ensures Word(StackImage(mem, esp, args), ArgvAddress(esp, args) - STACK_PAGE + 4 * j)
            == if j < |args| then ArgAddress(esp, args, j) else 0
  {
    StackImageFrame(mem, esp, args);
    FrameArgv(esp, args, j);
    WordOfWrite(StringsImage(mem, esp, args), FinalEsp(esp, args) - STACK_PAGE, Frame(esp, args), 12 + 4 * j);
  }

  /** In StringsImage, at the address of argument j lies argument j followed by its NUL. */
  lemma StringsImageAt(mem: seq<byte>, esp: nat, args: seq<seq<byte>>, j: nat)
    requires |mem| == PGSIZE && Fits(esp, args) && j < |args|
    ensures STACK_PAGE <= ArgAddress(esp, args, j) <= ArgAddress(esp, args, j + 1) <= esp
    ensures StringsImage(mem, esp, args)[ArgAddress(esp, args, j) - STACK_PAGE..ArgAddress(esp, args, j + 1) - STACK_PAGE]
            == args[j] + [0]
  {
    FitsFacts(esp, args);
    ArgAddressFrom(esp, args, j);
    ArgAddressFrom(esp, args, j + 1);
    StringsAt(args, j);
    var s: nat := StringsStart(esp, args) - STACK_PAGE;
    WriteSlice(mem, s, Strings(args), ArgAddress(esp, args, j) - STACK_PAGE, ArgAddress(esp, args, j + 1) - STACK_PAGE);
  }

  /** At the address of argument j lies argument j followed by its NUL, and
      argument j + 1 starts right after it. */
  lemma StackString(mem: seq<byte>, esp: nat, args: seq<seq<byte>>, j: nat)
    requires |mem| == PGSIZE && Fits(esp, args) && j < |args|
    ensures ArgAddress(esp, args, j + 1) == ArgAddress(esp, args, j) + |args[j]| + 1 <= esp
    ensures STACK_PAGE <= ArgAddress(esp, args, j)
    ensures StackImage(mem, esp, args)[ArgAddress(esp, args, j) - STACK_PAGE..ArgAddress(esp, args, j + 1) - STACK_PAGE]
            == args[j] + [0]
  {
    StringsImageAt(mem, esp, args, j);
    StackImageFrame(mem, esp, args);
    FitsFacts(esp, args);
    WriteAbove(StringsImage(mem, esp, args), FinalEsp(esp, args) - STACK_PAGE, Frame(esp, args),
               ArgAddress(esp, args, j) - STACK_PAGE, ArgAddress(esp, args, j + 1) - STACK_PAGE);
  }

  /** Every byte of the page below the final stack pointer, in the padding
      or above esp is as it was before. */
  lemma StackUnchanged(mem: seq<byte>, esp: nat, args: seq<seq<byte>>, k: nat)
    requires |mem| == PGSIZE && Fits(esp, args) && k < PGSIZE
    requires || STACK_PAGE + k < FinalEsp(esp, args)
             || ArgvAddress(esp, args) + 4 * (|args| + 1) <= STACK_PAGE + k < StringsStart(esp, args)
             || esp <= STACK_PAGE + k
    ensures StackImage(mem, esp, args)[k] == mem[k]
  {
    FitsFacts(esp, args);
    var s: nat := StringsStart(esp, args) - STACK_PAGE;
    WriteBytes(mem, s, Strings(args));
    WriteBytes(Write(mem, s, Strings(args)), FinalEsp(esp, args) - STACK_PAGE, Frame(esp, args));
  }
}

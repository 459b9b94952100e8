/** User page-fault upcalls: the frame the kernel pushes (page_fault_handler in src/trap.c) and
    the assembly that pops it again (_pgfault_upcall in src/pfentry.S), at any nesting depth. */
module Upcall {
  import opened Words

  const UXSTACKTOP: nat := 0xEEC00000
  const UXSTACKBASE: nat := UXSTACKTOP - PGSIZE
  /** sizeof(struct UTrapframe) */
  const UTF_SIZE: nat := 52

  type Byte = x: nat | x < 256
  type Word = x: nat | x < U32
  type Memory = map<nat, Byte>

  // ---- memory ------------------------------------------------------------------------------

  function ByteAt(m: Memory, a: nat): Byte { if a in m then m[a] else 0 }

  /** A little-endian 32-bit store and load, at any alignment. */
  function StoreWord(m: Memory, a: nat, w: Word): Memory {
    m[a := w % 256][a + 1 := w / 256 % 256][a + 2 := w / 65536 % 256][a + 3 := w / 16777216]
  }

  function LoadWord(m: Memory, a: nat): Word {
    ByteAt(m, a) + 256 * ByteAt(m, a + 1) + 65536 * ByteAt(m, a + 2) + 16777216 * ByteAt(m, a + 3)
  }

  function StoreWords(m: Memory, a: nat, ws: seq<Word>): Memory
    decreases |ws|
  {
    if ws == [] then m else StoreWords(StoreWord(m, a, ws[0]), a + 4, ws[1..])
  }

  /** The two memories agree on [lo, hi). */
  ghost predicate Agree(m: Memory, m': Memory, lo: nat, hi: nat) {
    forall a: nat :: lo <= a < hi ==> ByteAt(m', a) == ByteAt(m, a)
  }

  lemma LoadStored(m: Memory, a: nat, w: Word)
    ensures LoadWord(StoreWord(m, a, w), a) == w
  {
    assert w / 65536 == w / 256 / 256;
    assert w / 16777216 == w / 65536 / 256;
    assert w == w % 256 + 256 * (w / 256);
    assert w / 256 == w / 256 % 256 + 256 * (w / 65536);
    assert w / 65536 == w / 65536 % 256 + 256 * (w / 16777216);
  }

  lemma LoadAgreed(m: Memory, m': Memory, lo: nat, hi: nat, a: nat)
    requires Agree(m, m', lo, hi) && lo <= a && a + 4 <= hi
    ensures LoadWord(m', a) == LoadWord(m, a)
  {
  }

  lemma StoreElsewhere(m: Memory, a: nat, w: Word, lo: nat, hi: nat)
    requires a + 4 <= lo || hi <= a
    ensures Agree(m, StoreWord(m, a, w), lo, hi)
  {
  }

  lemma {:induction false} StoresElsewhere(m: Memory, a: nat, ws: seq<Word>, lo: nat, hi: nat)
    requires a + 4 * |ws| <= lo || hi <= a
    ensures Agree(m, StoreWords(m, a, ws), lo, hi)
    decreases |ws|
  {
    if ws != [] {
      StoresElsewhere(StoreWord(m, a, ws[0]), a + 4, ws[1..], lo, hi);
    }
  }

  lemma {:induction false} LoadStores(m: Memory, a: nat, ws: seq<Word>, i: nat)
    requires i < |ws|
    ensures LoadWord(StoreWords(m, a, ws), a + 4 * i) == ws[i]
    decreases |ws|
  {
    var m1 := StoreWord(m, a, ws[0]);
    if i == 0 {
      LoadStored(m, a, ws[0]);
      StoresElsewhere(m1, a + 4, ws[1..], a, a + 4);
      LoadAgreed(m1, StoreWords(m, a, ws), a, a + 4, a);
    } else {
      LoadStores(m1, a + 4, ws[1..], i - 1);
    }
  }

  // ---- the machine ---------------------------------------------------------------------------

  datatype Cpu = Cpu(
    edi: Word, esi: Word, ebp: Word, ebx: Word, edx: Word, ecx: Word, eax: Word,
    eip: Word, eflags: Word, esp: Word, mem: Memory)

  function Sub32(x: Word, y: Word): Word { (x + U32 - y) % U32 }
  function Add32(x: Word, y: Word): Word { (x + y) % U32 }

  /** Where the kernel puts the fault frame for a given trap-time stack pointer. */
  function UtfAddr(esp: Word): Word {
    if UXSTACKBASE <= esp <= UXSTACKTOP - 1 then Sub32(Sub32(esp, UTF_SIZE), 4) else UXSTACKTOP - UTF_SIZE
  }

  /** struct UTrapframe; the fourth register word is the unused `reg_oesp`. */
  function Utf(c: Cpu, va: Word, err: Word, oesp: Word): seq<Word> {
    [va, err, c.edi, c.esi, c.ebp, oesp, c.ebx, c.edx, c.ecx, c.eax, c.eip, c.eflags, c.esp]
  }

  /** page_fault_handler: push the frame and branch to the upcall. */
  function KernelPush(c: Cpu, va: Word, err: Word, oesp: Word, upcall: Word): Cpu {
    c.(mem := StoreWords(c.mem, UtfAddr(c.esp), Utf(c, va, err, oesp)), eip := upcall, esp := UtfAddr(c.esp))
  }

  /** `pushl %esp; movl _pgfault_handler, %eax; call *%eax` */
  function CallHandler(c: Cpu, handler: Word, back: Word): Cpu {
    var c1 := c.(mem := StoreWord(c.mem, Sub32(c.esp, 4), c.esp), esp := Sub32(c.esp, 4));
    var c2 := c1.(eax := handler);
    c2.(mem := StoreWord(c2.mem, Sub32(c2.esp, 4), back), esp := Sub32(c2.esp, 4), eip := handler)
  }

  /** The handler's own `ret`, then the rest of _pgfault_upcall, one line per instruction. */
  function PopFrame(c: Cpu): Cpu {
    RestoreRegisters(PlantReturn(c))
  }

  function PlantReturn(c: Cpu): Cpu { StoreReturn(LoadReturn(c)) }

  /** Up to the store of the return address, which is the one instruction here that can fault: the
      trap-time stack may be copy-on-write. */
  function LoadReturn(c: Cpu): Cpu {
    var c := c.(esp := Add32(c.esp, 4));                                  // ret from the handler
    var c := c.(esp := Add32(c.esp, 4));                                  // addl $4, %esp
    var c := c.(esp := Add32(c.esp, 8));                                  // addl $8, %esp
    var c := c.(eax := LoadWord(c.mem, Add32(c.esp, 32)));                // movl 32(%esp), %eax
    c.(edx := LoadWord(c.mem, Add32(c.esp, 40)))                          // movl 40(%esp), %edx
  }

  function StoreReturn(c: Cpu): Cpu {
    var c := c.(mem := StoreWord(c.mem, Sub32(c.edx, 4), c.eax));         // movl %eax, -4(%edx)
    var slot := Add32(c.esp, 40);
    c.(mem := StoreWord(c.mem, slot, Sub32(LoadWord(c.mem, slot), 4)))    // subl $4, 40(%esp)
  }

  function RestoreRegisters(c: Cpu): Cpu {
    var c := PopAll(c);                                                    // popal
    var c := c.(esp := Add32(c.esp, 4));                                   // addl $4, %esp
    var c := c.(eflags := LoadWord(c.mem, c.esp), esp := Add32(c.esp, 4)); // popfl
    var c := c.(esp := LoadWord(c.mem, c.esp));                            // pop %esp
    c.(eip := LoadWord(c.mem, c.esp), esp := Add32(c.esp, 4))              // ret
  }

  function PopAll(c: Cpu): Cpu {
    c.(edi := LoadWord(c.mem, c.esp),
       esi := LoadWord(c.mem, Add32(c.esp, 4)),
       ebp := LoadWord(c.mem, Add32(c.esp, 8)),
       ebx := LoadWord(c.mem, Add32(c.esp, 16)),
       edx := LoadWord(c.mem, Add32(c.esp, 20)),
       ecx := LoadWord(c.mem, Add32(c.esp, 24)),
       eax := LoadWord(c.mem, Add32(c.esp, 28)),
       esp := Add32(c.esp, 32))
  }

  // ---- handlers that fault again ----------------------------------------------------------------

  /** What a handler does: change registers, store bytes, fault. A fault runs the handler again, as
      `body`, and then `tail`, the faults that its own return-address store takes. */
  datatype Script =
    | Done
    | Regs(to: Cpu, rest: Script)
    | Poke(a: nat, b: Byte, rest: Script)
    | Fault(va: Word, err: Word, oesp: Word, body: Script, tail: Script, rest: Script)

  function Size(s: Script): (n: nat)
    ensures n > 0
  {
    match s
    case Done => 1
    case Regs(_, rest) => 1 + Size(rest)
    case Poke(_, _, rest) => 1 + Size(rest)
    case Fault(_, _, _, body, tail, rest) => 1 + Size(body) + Size(tail) + Size(rest)
  }

  datatype Entry = Entry(upcall: Word, handler: Word, back: Word)

  /** One fault, from the faulting instruction to its resumption. */
  function Resume(c: Cpu, va: Word, err: Word, oesp: Word, body: Script, tail: Script, t: Entry): Cpu
    decreases Size(body) + Size(tail), 1
  {
    var h := CallHandler(KernelPush(c, va, err, oesp, t.upcall), t.handler, t.back);
    RestoreRegisters(StoreReturn(Exec(LoadReturn(Exec(h, body, t)), tail, t)))
  }

  function Exec(c: Cpu, s: Script, t: Entry): Cpu
    decreases Size(s), 0
  {
    match s
    case Done => c
    case Regs(to, rest) => Exec(to.(mem := c.mem), rest, t)
    case Poke(a, b, rest) => Exec(c.(mem := c.mem[a := b]), rest, t)
    case Fault(va, err, oesp, body, tail, rest) => Exec(Resume(c, va, err, oesp, body, tail, t), rest, t)
  }

  /** The frame and the handler's two pushes fit in the exception stack page. */
  predicate Fits(esp: Word) {
    if UXSTACKBASE <= esp < UXSTACKTOP then esp >= UXSTACKBASE + UTF_SIZE + 4 + 8 else true
  }

  /** C code running below `limit` on the exception stack: it leaves [limit, UXSTACKTOP) alone,
      and when it faults its own frame is [esp, limit). */
  ghost predicate Behaves(c: Cpu, s: Script, limit: nat, t: Entry)
    decreases Size(s), 0
  {
    && UXSTACKBASE <= limit <= UXSTACKTOP
    && match s
       case Done => true
       case Regs(to, rest) => Behaves(to.(mem := c.mem), rest, limit, t)
       case Poke(a, b, rest) => !(limit <= a < UXSTACKTOP) && Behaves(c.(mem := c.mem[a := b]), rest, limit, t)
       case Fault(va, err, oesp, body, tail, rest) =>
         && UXSTACKBASE <= c.esp < UXSTACKTOP && c.esp <= limit && Fits(c.esp)
         && BodyOk(c, va, err, oesp, body, tail, t)
         && Behaves(Resume(c, va, err, oesp, body, tail, t), rest, limit, t)
  }

  /** One instruction that is tried again after each of its faults. */
  predicate OnlyFaults(s: Script) { s.Done? || (s.Fault? && OnlyFaults(s.rest)) }

  /** The C handler respects everything from the fault frame up and restores its stack pointer; and so
      do the faults of the store that follows, from the words still to be popped up. */
  ghost predicate BodyOk(c: Cpu, va: Word, err: Word, oesp: Word, body: Script, tail: Script, t: Entry)
    decreases Size(body) + Size(tail), 1
  {
    var utf := UtfAddr(c.esp);
    var h := CallHandler(KernelPush(c, va, err, oesp, t.upcall), t.handler, t.back);
    var b := Exec(h, body, t);
    && UXSTACKBASE <= utf && Behaves(h, body, utf, t) && b.esp == h.esp
    && OnlyFaults(tail) && Behaves(LoadReturn(b), tail, utf + 8, t)
  }

  // ---- popping undoes pushing -----------------------------------------------------------------

  predicate SameRegisters(c: Cpu, r: Cpu) { r == c.(mem := r.mem) }

  function FrameWord(m: Memory, utf: nat, i: nat): Word { LoadWord(m, utf + 4 * i) }

  /** `m` holds the fault frame of `c` at `utf`. */
  ghost predicate HoldsFrame(m: Memory, utf: nat, c: Cpu, va: Word, err: Word, oesp: Word) {
    forall i :: 0 <= i < 13 ==> FrameWord(m, utf, i) == Utf(c, va, err, oesp)[i]
  }

  lemma PushedFrame(c: Cpu, va: Word, err: Word, oesp: Word, upcall: Word)
    ensures HoldsFrame(KernelPush(c, va, err, oesp, upcall).mem, UtfAddr(c.esp), c, va, err, oesp)
  {
    forall i | 0 <= i < 13
      ensures FrameWord(KernelPush(c, va, err, oesp, upcall).mem, UtfAddr(c.esp), i) == Utf(c, va, err, oesp)[i]
    {
      LoadStores(c.mem, UtfAddr(c.esp), Utf(c, va, err, oesp), i);
    }
  }

  lemma FrameAgreed(m: Memory, m': Memory, utf: nat, c: Cpu, va: Word, err: Word, oesp: Word)
    requires HoldsFrame(m, utf, c, va, err, oesp) && Agree(m, m', utf, utf + UTF_SIZE)
    ensures HoldsFrame(m', utf, c, va, err, oesp)
  {
    forall i | 0 <= i < 13
      ensures FrameWord(m', utf, i) == FrameWord(m, utf, i)
    {
      LoadAgreed(m, m', utf, utf + UTF_SIZE, utf + 4 * i);
    }
  }

  /** The memory after the tail's two stores. */
  function TailMemory(b: Cpu, utf: nat, c: Cpu): Memory
    requires 4 <= c.esp
  {
    StoreWord(StoreWord(b.mem, c.esp - 4, c.eip), utf + 48, c.esp - 4)
  }

  /** The frame words that are still to be popped after the two stores. */
  lemma TailLoads(b: Cpu, utf: nat, c: Cpu, va: Word, err: Word, oesp: Word)
    requires HoldsFrame(b.mem, utf, c, va, err, oesp)
    requires 4 <= c.esp && (c.esp <= utf || utf + UTF_SIZE <= c.esp - 4)
    ensures var m := TailMemory(b, utf, c);
            && (forall i :: 0 <= i < 12 ==> FrameWord(m, utf, i) == Utf(c, va, err, oesp)[i])
            && FrameWord(m, utf, 12) == c.esp - 4
            && LoadWord(m, c.esp - 4) == c.eip
    ensures LoadWord(StoreWord(b.mem, c.esp - 4, c.eip), utf + 48) == c.esp
  {
    hide LoadWord, StoreWord, Agree;
    var m1 := StoreWord(b.mem, c.esp - 4, c.eip);
    var m2 := TailMemory(b, utf, c);
    StoreElsewhere(b.mem, c.esp - 4, c.eip, utf, utf + UTF_SIZE);
    FrameAgreed(b.mem, m1, utf, c, va, err, oesp);
    assert FrameWord(m1, utf, 12) == c.esp;
    StoreElsewhere(m1, utf + 48, c.esp - 4, utf, utf + 48);
    forall i | 0 <= i < 12
      ensures FrameWord(m2, utf, i) == FrameWord(m1, utf, i)
    {
      LoadAgreed(m1, m2, utf, utf + 48, utf + 4 * i);
    }
    LoadStored(m1, utf + 48, c.esp - 4);
    LoadStored(b.mem, c.esp - 4, c.eip);
    StoreElsewhere(m1, utf + 48, c.esp - 4, c.esp - 4, c.esp);
    LoadAgreed(m1, m2, c.esp - 4, c.esp, c.esp - 4);
  }

  lemma PlantReturnStores(b: Cpu, utf: nat, c: Cpu, va: Word, err: Word, oesp: Word)
    requires UXSTACKBASE + 8 <= utf && utf + UTF_SIZE <= UXSTACKTOP && b.esp == utf - 8
    requires HoldsFrame(b.mem, utf, c, va, err, oesp) && 4 <= c.esp
    requires LoadWord(StoreWord(b.mem, c.esp - 4, c.eip), utf + 48) == c.esp
    ensures PlantReturn(b).mem == TailMemory(b, utf, c) && PlantReturn(b).esp == utf + 8
  {
    hide LoadWord, StoreWord;
    assert FrameWord(b.mem, utf, 10) == c.eip && FrameWord(b.mem, utf, 12) == c.esp;
  }

  /** With an intact frame whose live words the return-address store misses, the upcall's tail
      restores everything; it stores only to [esp-4, esp) and to the frame's own esp word. */
  lemma PopRestores(b: Cpu, utf: nat, c: Cpu, va: Word, err: Word, oesp: Word)
    requires UXSTACKBASE + 8 <= utf && utf + UTF_SIZE <= UXSTACKTOP && b.esp == utf - 8
    requires HoldsFrame(b.mem, utf, c, va, err, oesp)
    requires 4 <= c.esp && (c.esp <= utf || utf + UTF_SIZE <= c.esp - 4)
    ensures PopFrame(b) == c.(mem := TailMemory(b, utf, c))
  {
    hide LoadWord, StoreWord, TailMemory, PlantReturn, RestoreRegisters;
    TailLoads(b, utf, c, va, err, oesp);
    PlantReturnStores(b, utf, c, va, err, oesp);
    RestoreLoads(PlantReturn(b), utf, c, va, err, oesp);
  }

  lemma AddSmall(x: Word)
    requires x < U32 - 64
    ensures forall y: Word :: y <= 60 ==> Add32(x, y) == x + y
  {
  }

  lemma AddBack(x: Word)
    requires 4 <= x
    ensures Add32(x - 4, 4) == x
  {
  }

  lemma RestoreLoads(p: Cpu, utf: nat, c: Cpu, va: Word, err: Word, oesp: Word)
    requires UXSTACKBASE + 8 <= utf && utf + UTF_SIZE <= UXSTACKTOP && p.esp == utf + 8 && 4 <= c.esp
    requires forall i :: 0 <= i < 12 ==> FrameWord(p.mem, utf, i) == Utf(c, va, err, oesp)[i]
    requires FrameWord(p.mem, utf, 12) == c.esp - 4 && LoadWord(p.mem, c.esp - 4) == c.eip
    ensures RestoreRegisters(p) == c.(mem := p.mem)
  {
    hide LoadWord, Add32;
    AddSmall(utf + 8);
    AddSmall(utf + 40);
    AddSmall(utf + 44);
    var m := p.mem;
    assert FrameWord(m, utf, 2) == c.edi && FrameWord(m, utf, 3) == c.esi && FrameWord(m, utf, 4) == c.ebp;
    assert FrameWord(m, utf, 6) == c.ebx && FrameWord(m, utf, 7) == c.edx && FrameWord(m, utf, 8) == c.ecx;
    assert FrameWord(m, utf, 9) == c.eax && FrameWord(m, utf, 11) == c.eflags;
    AddBack(c.esp);
  }

  // ---- any depth ----------------------------------------------------------------------------

  lemma AgreeTwice(m: Memory, m1: Memory, m2: Memory, lo: nat, lo': nat, hi: nat)
    requires Agree(m, m1, lo, hi) && Agree(m1, m2, lo', hi)
    ensures forall l: nat :: lo <= l && lo' <= l ==> Agree(m, m2, l, hi)
  {
  }

  /** The handler starts with the fault frame intact and everything above it untouched. */
  lemma HandlerEntry(c: Cpu, va: Word, err: Word, oesp: Word, t: Entry)
    requires UXSTACKBASE + 8 <= UtfAddr(c.esp)
    ensures var h := CallHandler(KernelPush(c, va, err, oesp, t.upcall), t.handler, t.back);
            && h.esp == UtfAddr(c.esp) - 8
            && HoldsFrame(h.mem, UtfAddr(c.esp), c, va, err, oesp)
            && Agree(c.mem, h.mem, UtfAddr(c.esp) + UTF_SIZE, UXSTACKTOP)
  {
    hide HoldsFrame, StoreWord, StoreWords, Utf;
    var utf := UtfAddr(c.esp);
    var k := KernelPush(c, va, err, oesp, t.upcall);
    var h := CallHandler(k, t.handler, t.back);
    PushedFrame(c, va, err, oesp, t.upcall);
    FrameLength(c, va, err, oesp);
    StoresElsewhere(c.mem, utf, Utf(c, va, err, oesp), utf + UTF_SIZE, UXSTACKTOP);
    var m1 := StoreWord(k.mem, utf - 4, utf);
    StoreElsewhere(k.mem, utf - 4, utf, utf, UXSTACKTOP);
    StoreElsewhere(m1, utf - 8, t.back, utf, UXSTACKTOP);
    assert h.mem == StoreWord(m1, utf - 8, t.back);
    AgreeTwice(k.mem, m1, h.mem, utf, utf, UXSTACKTOP);
    FrameAgreed(k.mem, h.mem, utf, c, va, err, oesp);
    AgreeTwice(c.mem, k.mem, h.mem, utf + UTF_SIZE, utf, UXSTACKTOP);
  }

  /** What the handler is given: its argument is the address of the frame, which is right below the
      trap-time stack, but for the blank word, or at the top of an empty exception stack; behind it the
      handler finds the fault address and the error code, and below it the address to return to. */
  lemma HandlerFinds(c: Cpu, va: Word, err: Word, oesp: Word, t: Entry)
    requires UXSTACKBASE + 8 <= UtfAddr(c.esp)
    ensures var h := CallHandler(KernelPush(c, va, err, oesp, t.upcall), t.handler, t.back);
            var utf := LoadWord(h.mem, h.esp + 4);
            && utf == (if UXSTACKBASE <= c.esp < UXSTACKTOP then c.esp - 56 else UXSTACKTOP - 52)
            && LoadWord(h.mem, utf) == va && LoadWord(h.mem, utf + 4) == err
            && LoadWord(h.mem, h.esp) == t.back && h.eip == t.handler && h.esp == utf - 8
    ensures KernelPush(c, va, err, oesp, t.upcall).eip == t.upcall
  {
    hide StoreWord, StoreWords, Utf, LoadWord;
    var utf := UtfAddr(c.esp);
    HandlerEntry(c, va, err, oesp, t);
    FrameFirst(c, va, err, oesp);
    var k := KernelPush(c, va, err, oesp, t.upcall);
    var h := CallHandler(k, t.handler, t.back);
    assert FrameWord(h.mem, utf, 0) == va && FrameWord(h.mem, utf, 1) == err;
    var m1 := StoreWord(k.mem, utf - 4, utf);
    assert h.mem == StoreWord(m1, utf - 8, t.back);
    LoadStored(k.mem, utf - 4, utf);
    LoadStored(m1, utf - 8, t.back);
    StoreElsewhere(m1, utf - 8, t.back, utf - 4, utf);
    LoadAgreed(m1, h.mem, utf - 4, utf, utf - 4);
  }

  lemma FrameFirst(c: Cpu, va: Word, err: Word, oesp: Word)
    ensures |Utf(c, va, err, oesp)| == 13 && Utf(c, va, err, oesp)[0] == va && Utf(c, va, err, oesp)[1] == err
  {
  }

  lemma FrameLength(c: Cpu, va: Word, err: Word, oesp: Word)
    ensures 4 * |Utf(c, va, err, oesp)| == UTF_SIZE
  {
  }

  /** The word the tail stores the return address to: the blank word the kernel left between the
      new frame and the trap-time stack, or a word outside the exception stack. */
  lemma ReturnWord(esp: Word)
    requires 4 <= esp < UXSTACKTOP && Fits(esp)
    ensures if UXSTACKBASE <= esp then UtfAddr(esp) + UTF_SIZE == esp - 4 else esp - 4 + 4 <= UXSTACKBASE
    ensures UXSTACKBASE + 8 <= UtfAddr(esp) <= UXSTACKTOP - UTF_SIZE
  {
  }

  /** The two words of the frame that its own store's faults overwrite are not needed any more. */
  lemma FrameUsed(m: Memory, m': Memory, utf: nat, c: Cpu, va: Word, err: Word, oesp: Word)
    requires HoldsFrame(m, utf, c, va, err, oesp) && Agree(m, m', utf + 8, utf + UTF_SIZE)
    ensures HoldsFrame(m', utf, c, LoadWord(m', utf), LoadWord(m', utf + 4), oesp)
  {
    hide LoadWord;
    forall i | 2 <= i < 13
      ensures FrameWord(m', utf, i) == FrameWord(m, utf, i)
    {
      LoadAgreed(m, m', utf + 8, utf + UTF_SIZE, utf + 4 * i);
    }
  }

  lemma AgreeLess(m: Memory, m': Memory, lo: nat, hi: nat, hi': nat)
    requires Agree(m, m', lo, hi) && hi' <= hi
    ensures Agree(m, m', lo, hi')
  {
  }

  /** Having been tried again changes nothing for the store: it is as if the handler had left the memory
      as the faults did. */
  lemma StoreTriedAgain(b: Cpu, q: Cpu, utf: nat)
    requires UXSTACKBASE + 8 <= utf && utf + UTF_SIZE <= UXSTACKTOP && b.esp == utf - 8
    requires SameRegisters(LoadReturn(b), q) && Agree(b.mem, q.mem, utf + 8, utf + UTF_SIZE)
    ensures StoreReturn(q) == PlantReturn(b.(mem := q.mem))
  {
    hide LoadWord, StoreReturn;
    AddSmall(utf + 8);
    LoadAgreed(b.mem, q.mem, utf + 8, utf + UTF_SIZE, utf + 40);
    LoadAgreed(b.mem, q.mem, utf + 8, utf + UTF_SIZE, utf + 48);
    assert q == LoadReturn(b.(mem := q.mem));
  }

  lemma LoadReturnStack(b: Cpu, utf: nat)
    requires UXSTACKBASE + 8 <= utf && utf + UTF_SIZE <= UXSTACKTOP && b.esp == utf - 8
    ensures LoadReturn(b).esp == utf + 8 && LoadReturn(b).mem == b.mem
  {
    hide LoadWord;
  }

  /** What push, handler and the faults of the store leave for the tail of the upcall: the frame, but for
      its two dead words, and everything above it. */
  lemma {:induction false} HandlerExit(c: Cpu, va: Word, err: Word, oesp: Word, body: Script, tail: Script, t: Entry) returns (b: Cpu)
    requires UXSTACKBASE + 8 <= UtfAddr(c.esp) <= UXSTACKTOP - UTF_SIZE && BodyOk(c, va, err, oesp, body, tail, t)
    ensures b.esp == UtfAddr(c.esp) - 8 && Resume(c, va, err, oesp, body, tail, t) == PopFrame(b)
    ensures HoldsFrame(b.mem, UtfAddr(c.esp), c, LoadWord(b.mem, UtfAddr(c.esp)), LoadWord(b.mem, UtfAddr(c.esp) + 4), oesp)
    ensures Agree(c.mem, b.mem, UtfAddr(c.esp) + UTF_SIZE, UXSTACKTOP)
    decreases Size(body) + Size(tail), 1
  {
    hide KernelPush, CallHandler, RestoreRegisters, StoreReturn, LoadReturn, HoldsFrame, StoreWord, LoadWord, Agree;
    var utf := UtfAddr(c.esp);
    var h := CallHandler(KernelPush(c, va, err, oesp, t.upcall), t.handler, t.back);
    HandlerEntry(c, va, err, oesp, t);
    ExecKeeps(h, body, utf, t);
    var b0 := Exec(h, body, t);
    LoadReturnStack(b0, utf);
    var p := LoadReturn(b0);
    ExecKeeps(p, tail, utf + 8, t);
    FaultsKeepRegisters(p, tail, utf + 8, t);
    var q := Exec(p, tail, t);
    b := b0.(mem := q.mem);
    AgreeLess(h.mem, b0.mem, utf, UXSTACKTOP, utf + UTF_SIZE);
    FrameAgreed(h.mem, b0.mem, utf, c, va, err, oesp);
    AgreeLess(b0.mem, q.mem, utf + 8, UXSTACKTOP, utf + UTF_SIZE);
    FrameUsed(b0.mem, q.mem, utf, c, va, err, oesp);
    StoreTriedAgain(b0, q, utf);
    AgreeTwice(c.mem, h.mem, b0.mem, utf + UTF_SIZE, utf, UXSTACKTOP);
    AgreeTwice(c.mem, b0.mem, q.mem, utf + UTF_SIZE, utf + 8, UXSTACKTOP);
  }

  /** Fault resumption is the identity on registers, flags, eip and esp, and on the live part of the
      exception stack, however deep the handler, or the upcall's own store, faults again. */
  lemma {:induction false} ResumeIsIdentity(c: Cpu, va: Word, err: Word, oesp: Word, body: Script, tail: Script, t: Entry)
    requires 4 <= c.esp < UXSTACKTOP && Fits(c.esp) && BodyOk(c, va, err, oesp, body, tail, t)
    ensures SameRegisters(c, Resume(c, va, err, oesp, body, tail, t))
    ensures UXSTACKBASE <= c.esp ==> Agree(c.mem, Resume(c, va, err, oesp, body, tail, t).mem, c.esp, UXSTACKTOP)
    decreases Size(body) + Size(tail), 2
  {
    hide Resume, BodyOk, PopFrame, HoldsFrame, StoreWord, LoadWord;
    var utf := UtfAddr(c.esp);
    ReturnWord(c.esp);
    var b := HandlerExit(c, va, err, oesp, body, tail, t);
    PopRestores(b, utf, c, LoadWord(b.mem, utf), LoadWord(b.mem, utf + 4), oesp);
    if UXSTACKBASE <= c.esp {
      var m1 := StoreWord(b.mem, c.esp - 4, c.eip);
      StoreElsewhere(b.mem, c.esp - 4, c.eip, c.esp, UXSTACKTOP);
      StoreElsewhere(m1, utf + 48, c.esp - 4, c.esp, UXSTACKTOP);
      AgreeTwice(b.mem, m1, TailMemory(b, utf, c), c.esp, c.esp, UXSTACKTOP);
      AgreeTwice(c.mem, b.mem, TailMemory(b, utf, c), utf + UTF_SIZE, c.esp, UXSTACKTOP);
    }
  }

  /** Code that leaves [limit, UXSTACKTOP) alone still does so when it faults. */
  lemma {:induction false} ExecKeeps(c: Cpu, s: Script, limit: nat, t: Entry)
    requires Behaves(c, s, limit, t)
    ensures Agree(c.mem, Exec(c, s, t).mem, limit, UXSTACKTOP)
    decreases Size(s), 0
  {
    match s
    case Done =>
    case Regs(to, rest) => ExecKeeps(to.(mem := c.mem), rest, limit, t);
    case Poke(a, b, rest) => ExecKeeps(c.(mem := c.mem[a := b]), rest, limit, t);
    case Fault(va, err, oesp, body, tail, rest) =>
      hide BodyOk, Resume;
      var r := Resume(c, va, err, oesp, body, tail, t);
      ResumeIsIdentity(c, va, err, oesp, body, tail, t);
      ExecKeeps(r, rest, limit, t);
      AgreeTwice(c.mem, r.mem, Exec(r, rest, t).mem, c.esp, limit, UXSTACKTOP);
  }

  /** An instruction that is tried again finds its registers as they were. */
  lemma {:induction false} FaultsKeepRegisters(c: Cpu, s: Script, limit: nat, t: Entry)
    requires Behaves(c, s, limit, t) && OnlyFaults(s)
    ensures SameRegisters(c, Exec(c, s, t))
    decreases Size(s), 0
  {
    if s.Fault? {
      hide BodyOk, Resume;
      ResumeIsIdentity(c, s.va, s.err, s.oesp, s.body, s.tail, t);
      FaultsKeepRegisters(Resume(c, s.va, s.err, s.oesp, s.body, s.tail, t), s.rest, limit, t);
    }
  }

  /** At a trap-time esp of exactly UXSTACKTOP the return-address store lands on the frame's own
      esp word, and the resumed state is always wrong. */
  lemma EmptyExceptionStackBreaks(c: Cpu, va: Word, err: Word, oesp: Word, body: Script, tail: Script, t: Entry)
    requires c.esp == UXSTACKTOP && BodyOk(c, va, err, oesp, body, tail, t)
    ensures !SameRegisters(c, Resume(c, va, err, oesp, body, tail, t))
  {
    hide Resume, BodyOk, PopFrame, HoldsFrame, StoreWord, LoadWord;
    var b := HandlerExit(c, va, err, oesp, body, tail, t);
    SelfClobber(b, c, LoadWord(b.mem, UtfAddr(c.esp)), LoadWord(b.mem, UtfAddr(c.esp) + 4), oesp);
  }

  lemma SelfClobber(b: Cpu, c: Cpu, va: Word, err: Word, oesp: Word)
    requires c.esp == UXSTACKTOP && b.esp == UXSTACKTOP - UTF_SIZE - 8
    requires HoldsFrame(b.mem, UXSTACKTOP - UTF_SIZE, c, va, err, oesp)
    ensures PopFrame(b).esp != c.esp || PopFrame(b).eip != c.eip
  {
    hide LoadWord, StoreWord, PlantReturn, RestoreRegisters;
    var m1 := StoreWord(b.mem, UXSTACKTOP - 4, c.eip);
    LoadStored(b.mem, UXSTACKTOP - 4, c.eip);
    LoadStored(m1, UXSTACKTOP - 4, Sub32(c.eip, 4));
    PlantOnFrame(b, c, va, err, oesp);
    RestoredStack(PlantReturn(b));
  }

  lemma PlantOnFrame(b: Cpu, c: Cpu, va: Word, err: Word, oesp: Word)
    requires c.esp == UXSTACKTOP && b.esp == UXSTACKTOP - UTF_SIZE - 8
    requires HoldsFrame(b.mem, UXSTACKTOP - UTF_SIZE, c, va, err, oesp)
    requires LoadWord(StoreWord(b.mem, UXSTACKTOP - 4, c.eip), UXSTACKTOP - 4) == c.eip
    ensures PlantReturn(b).esp == UXSTACKTOP - 44
    ensures PlantReturn(b).mem == StoreWord(StoreWord(b.mem, UXSTACKTOP - 4, c.eip), UXSTACKTOP - 4, Sub32(c.eip, 4))
  {
    hide LoadWord, StoreWord;
    var utf := UXSTACKTOP - UTF_SIZE;
    assert FrameWord(b.mem, utf, 10) == c.eip && FrameWord(b.mem, utf, 12) == c.esp;
  }

  lemma RestoredStack(p: Cpu)
    requires p.esp == UXSTACKTOP - 44
    ensures RestoreRegisters(p).esp == Add32(LoadWord(p.mem, UXSTACKTOP - 4), 4)
    ensures RestoreRegisters(p).eip == LoadWord(p.mem, LoadWord(p.mem, UXSTACKTOP - 4))
  {
    hide LoadWord;
  }

  /** Exactly when resumption works, for any stack pointer whose next word down is user memory. */
  lemma ResumeIff(c: Cpu, va: Word, err: Word, oesp: Word, body: Script, tail: Script, t: Entry)
    requires 4 <= c.esp <= UXSTACKTOP && Fits(c.esp) && BodyOk(c, va, err, oesp, body, tail, t)
    ensures SameRegisters(c, Resume(c, va, err, oesp, body, tail, t)) <==> c.esp != UXSTACKTOP
  {
    hide BodyOk, SameRegisters, Resume;
    if c.esp == UXSTACKTOP {
      EmptyExceptionStackBreaks(c, va, err, oesp, body, tail, t);
    } else {
      ResumeIsIdentity(c, va, err, oesp, body, tail, t);
    }
  }

  // ---- the same code on a mutable machine ------------------------------------------------------

  lemma {:induction false} StoresSplit(m: Memory, a: nat, ws: seq<Word>, ws': seq<Word>)
    ensures StoreWords(m, a, ws + ws') == StoreWords(StoreWords(m, a, ws), a + 4 * |ws|, ws')
    decreases |ws|
  {
    if ws == [] {
      assert ws + ws' == ws';
    } else {
      StoresSplit(StoreWord(m, a, ws[0]), a + 4, ws[1..], ws');
      assert (ws + ws')[1..] == ws[1..] + ws';
    }
  }

  lemma StoresAppend(m: Memory, a: nat, ws: seq<Word>, w: Word)
    ensures StoreWords(m, a, ws + [w]) == StoreWord(StoreWords(m, a, ws), a + 4 * |ws|, w)
  {
    StoresSplit(m, a, ws, [w]);
  }

  lemma StoresOne(m: Memory, a: nat, w: Word)
    ensures StoreWords(m, a, [w]) == StoreWord(m, a, w)
  {
    StoresAppend(m, a, [], w);
    assert [] + [w] == [w];
  }

  lemma StoresParts(m: Memory, utf: nat, va: Word, err: Word, regs: seq<Word>, x: Word, y: Word, z: Word)
    requires |regs| == 8
    ensures var m1 := StoreWord(StoreWord(m, utf, va), utf + 4, err);
            StoreWords(m, utf, [va] + [err] + regs + [x] + [y] + [z]) ==
              StoreWord(StoreWord(StoreWord(StoreWords(m1, utf + 8, regs), utf + 40, x), utf + 44, y), utf + 48, z)
  {
    hide StoreWord, StoreWords;
    StoresOne(m, utf, va);
    StoresAppend(m, utf, [va], err);
    StoresSplit(m, utf, [va] + [err], regs);
    StoresAppend(m, utf, [va] + [err] + regs, x);
    StoresAppend(m, utf, [va] + [err] + regs + [x], y);
    StoresAppend(m, utf, [va] + [err] + regs + [x] + [y], z);
  }

  /** The frame stored field by field, in the order of the source. */
  lemma FrameStores(c: Cpu, utf: nat, va: Word, err: Word, oesp: Word)
    ensures var m1 := StoreWord(StoreWord(c.mem, utf, va), utf + 4, err);
            var m2 := StoreWords(m1, utf + 8, [c.edi, c.esi, c.ebp, oesp, c.ebx, c.edx, c.ecx, c.eax]);
            StoreWords(c.mem, utf, Utf(c, va, err, oesp)) ==
              StoreWord(StoreWord(StoreWord(m2, utf + 40, c.eip), utf + 44, c.eflags), utf + 48, c.esp)
  {
    hide StoreWord, StoreWords;
    var regs := [c.edi, c.esi, c.ebp, oesp, c.ebx, c.edx, c.ecx, c.eax];
    StoresParts(c.mem, utf, va, err, regs, c.eip, c.eflags, c.esp);
    assert Utf(c, va, err, oesp) == [va] + [err] + regs + [c.eip] + [c.eflags] + [c.esp];
  }

  class Processor {
    var edi: Word
    var esi: Word
    var ebp: Word
    var ebx: Word
    var edx: Word
    var ecx: Word
    var eax: Word
    var eip: Word
    var eflags: Word
    var esp: Word
    var mem: Memory

    constructor (c: Cpu)
      ensures View() == c
    {
      edi, esi, ebp, ebx, edx, ecx, eax := c.edi, c.esi, c.ebp, c.ebx, c.edx, c.ecx, c.eax;
      eip, eflags, esp, mem := c.eip, c.eflags, c.esp, c.mem;
    }

    function View(): Cpu
      reads this
    {
      Cpu(edi, esi, ebp, ebx, edx, ecx, eax, eip, eflags, esp, mem)
    }

    method PageFaultHandler(va: Word, err: Word, oesp: Word, upcall: Word)
      modifies this
      ensures View() == KernelPush(old(View()), va, err, oesp, upcall)
    {
      hide StoreWord, StoreWords, Sub32;
      ghost var c := View();
      var utf: Word;
      if UXSTACKBASE <= esp <= UXSTACKTOP - 1 {
        utf := Sub32(Sub32(esp, UTF_SIZE), 4);
      } else {
        utf := UXSTACKTOP - UTF_SIZE;
      }
      FrameStores(c, utf, va, err, oesp);
      mem := StoreWord(mem, utf, va);
      mem := StoreWord(mem, utf + 4, err);
      mem := StoreWords(mem, utf + 8, [edi, esi, ebp, oesp, ebx, edx, ecx, eax]);
      mem := StoreWord(mem, utf + 40, eip);
      mem := StoreWord(mem, utf + 44, eflags);
      mem := StoreWord(mem, utf + 48, esp);
      eip := upcall;
      esp := utf;
    }

    /** The handler's return and lines 38 to 69 of src/pfentry.S. */
    method LoadReturnStep()
      modifies this
      ensures View() == LoadReturn(old(View()))
    {
      hide LoadWord, Add32;
      esp := Add32(esp, 4);
      esp := Add32(esp, 4);
      esp := Add32(esp, 8);
      eax := LoadWord(mem, Add32(esp, 32));
      edx := LoadWord(mem, Add32(esp, 40));
    }

    /** Lines 70 and 71. */
    method StoreReturnStep()
      modifies this
      ensures View() == StoreReturn(old(View()))
    {
      hide LoadWord, StoreWord, Add32, Sub32;
      mem := StoreWord(mem, Sub32(edx, 4), eax);
      mem := StoreWord(mem, Add32(esp, 40), Sub32(LoadWord(mem, Add32(esp, 40)), 4));
    }

    method PopAllStep()
      modifies this
      ensures View() == PopAll(old(View()))
    {
      hide LoadWord, Add32;
      edi, esi := LoadWord(mem, esp), LoadWord(mem, Add32(esp, 4));
      ebp, ebx := LoadWord(mem, Add32(esp, 8)), LoadWord(mem, Add32(esp, 16));
      edx, ecx := LoadWord(mem, Add32(esp, 20)), LoadWord(mem, Add32(esp, 24));
      eax, esp := LoadWord(mem, Add32(esp, 28)), Add32(esp, 32);
    }

    /** Lines 75 to 87 of src/pfentry.S. */
    method RestoreRegistersStep()
      modifies this
      ensures View() == RestoreRegisters(old(View()))
    {
      hide LoadWord, Add32, PopAll;
      PopAllStep();
      esp := Add32(esp, 4);
      eflags, esp := LoadWord(mem, esp), Add32(esp, 4);
      esp := LoadWord(mem, esp);
      eip, esp := LoadWord(mem, esp), Add32(esp, 4);
    }

    /** The upcall's first instructions: push the frame's address, load the handler, call it. */
    method CallHandlerStep(handler: Word, back: Word)
      modifies this
      ensures View() == CallHandler(old(View()), handler, back)
    {
      hide StoreWord, Sub32;
      var utf := esp;
      esp := Sub32(esp, 4);
      mem := StoreWord(mem, esp, utf);
      eax := handler;
      esp := Sub32(esp, 4);
      mem := StoreWord(mem, esp, back);
      eip := handler;
    }

    method Load(c: Cpu)
      modifies this
      ensures View() == c
    {
      edi, esi, ebp, ebx, edx, ecx, eax := c.edi, c.esi, c.ebp, c.ebx, c.edx, c.ecx, c.eax;
      eip, eflags, esp, mem := c.eip, c.eflags, c.esp, c.mem;
    }

    /** A handler that stores, changes registers and faults. */
    method Run(s: Script, t: Entry)
      modifies this
      ensures View() == Exec(old(View()), s, t)
      decreases Size(s), 0
    {
      hide Resume, Behaves, BodyOk;
      match s
      case Done =>
      case Regs(to, rest) =>
        Load(to.(mem := mem));
        Run(rest, t);
      case Poke(a, b, rest) =>
        mem := mem[a := b];
        Run(rest, t);
      case Fault(va, err, oesp, body, tail, rest) =>
        TakeFault(va, err, oesp, body, tail, t);
        Run(rest, t);
    }

    method TakeFault(va: Word, err: Word, oesp: Word, body: Script, tail: Script, t: Entry)
      modifies this
      ensures View() == Resume(old(View()), va, err, oesp, body, tail, t)
      decreases Size(body) + Size(tail), 1
    {
      hide KernelPush, CallHandler, LoadReturn, StoreReturn, RestoreRegisters, Exec;
      PageFaultHandler(va, err, oesp, t.upcall);
      CallHandlerStep(t.handler, t.back);
      Run(body, t);
      LoadReturnStep();
      Run(tail, t);
      StoreReturnStep();
      RestoreRegistersStep();
    }

    /** A whole fault: the kernel's push, the upcall, a handler with any nesting of further faults, and
        the upcall's tail, itself faulting or not, leave every register, the flags, eip and esp as they
        were, and the live part of the exception stack too. */
    method FaultAndResume(va: Word, err: Word, oesp: Word, body: Script, tail: Script, t: Entry)
      requires 4 <= esp < UXSTACKTOP && Fits(esp) && BodyOk(View(), va, err, oesp, body, tail, t)
      modifies this
      ensures SameRegisters(old(View()), View())
      ensures UXSTACKBASE <= esp ==> Agree(old(mem), mem, esp, UXSTACKTOP)
    {
      hide Resume, BodyOk;
      ResumeIsIdentity(View(), va, err, oesp, body, tail, t);
      TakeFault(va, err, oesp, body, tail, t);
    }
  }
}

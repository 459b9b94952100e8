/** The argument block that init_stack (src/spawn.c) builds for a new program: strings, pointers and
    header words in one page, read back by the child at its own addresses. */
module StackImage {
  import opened Words

  const UTEMP: nat := 0x40_0000
  /** Where the child sees the page: USTACKTOP - PGSIZE. */
  const USTACK: nat := 0xEEBF_D000

  type Byte = b: int | 0 <= b < 256

  /** The characters of a C string before its terminator. */
  type CString = s: seq<Byte> | forall i :: 0 <= i < |s| ==> s[i] != 0

  // ---- the layout ---------------------------------------------------------------------------------------

  /** Space for the strings with their terminators. */
  function Size(args: seq<CString>): nat {
    if args == [] then 0 else Size(args[..|args| - 1]) + |args[|args| - 1]| + 1
  }

  function RoundDown(x: int): int { x - x % 4 }

  /** Offset in the page of string i, of argv[], and of the stack pointer, in unbounded arithmetic. */
  function StringAt(args: seq<CString>, i: nat): int
    requires i <= |args|
  {
    PGSIZE - Size(args) + Size(args[..i])
  }

  function ArgvAt(args: seq<CString>): int { RoundDown(PGSIZE - Size(args)) - 4 * (|args| + 1) }

  predicate Fits(args: seq<CString>) { ArgvAt(args) - 8 >= 0 }

  lemma SizeStep(args: seq<CString>, i: nat)
    requires i < |args|
    ensures Size(args[..i + 1]) == Size(args[..i]) + |args[i]| + 1
  {
    assert args[..i + 1][..i] == args[..i];
  }

  lemma {:induction false} SizeGrows(args: seq<CString>, i: nat, j: nat)
    requires i <= j <= |args|
    ensures Size(args[..i]) <= Size(args[..j])
  {
    if i < j {
      SizeGrows(args, i, j - 1);
      SizeStep(args, j - 1);
    }
  }

  /** Header words, pointer array and strings follow each other in the page without overlap; strings
      are next to each other and end with the page. */
  lemma LayoutOk(args: seq<CString>, i: nat)
    requires Fits(args) && i < |args|
    ensures 0 <= ArgvAt(args) - 8 && ArgvAt(args) % 4 == 0
    ensures ArgvAt(args) + 4 * (|args| + 1) <= StringAt(args, 0) <= StringAt(args, i)
    ensures StringAt(args, i) + |args[i]| + 1 == StringAt(args, i + 1) <= StringAt(args, |args|) == PGSIZE
  {
    SizeGrows(args, 0, i);
    SizeStep(args, i);
    SizeGrows(args, i + 1, |args|);
    assert args[..|args|] == args;
  }

  // ---- when it is accepted -------------------------------------------------------------------------------

  /** string_store, argv_store and the bound check as the code computes them, in 32-bit registers. */
  function StringStore(args: seq<CString>): nat { Wrap(UTEMP + PGSIZE - Wrap(Size(args))) }

  function ArgvStore(args: seq<CString>): nat { Wrap(RoundDown(StringStore(args)) - Wrap(4 * (|args| + 1))) }

  predicate Accepted(args: seq<CString>) { Wrap(ArgvStore(args) - 8) >= UTEMP }

  /** Cutting the operands of a subtraction to 32 bits does not change its 32-bit result. */
  lemma WrapSubtract(x: int, y: int)
    ensures Wrap(Wrap(x) - y) == Wrap(x - y) == Wrap(x - Wrap(y)) == Wrap(Wrap(x) - Wrap(y))
  {
    hide Wrap;
    var q := WrapLaps(x);
    var p := WrapLaps(y);
    WrapAdd(Wrap(x) - y, q);
    WrapAdd(x - y, p);
    WrapAdd(Wrap(x) - y, p);
  }

  lemma RoundDownAdd(x: int, y: int)
    requires y % 4 == 0
    ensures RoundDown(x + y) == RoundDown(x) + y
  {
  }

  lemma RoundDownWraps(x: int)
    ensures RoundDown(Wrap(x)) == Wrap(RoundDown(x))
  {
    var q := x / 0x1_0000_0000;
    RoundDownAdd(Wrap(x), 0x1_0000_0000 * q);
    WrapAdd(RoundDown(Wrap(x)), q);
  }

  lemma RegistersWrap(args: seq<CString>)
    ensures StringStore(args) == Wrap(UTEMP + PGSIZE - Size(args))
    ensures ArgvStore(args) == Wrap(UTEMP + ArgvAt(args))
    ensures Wrap(ArgvStore(args) - 8) == Wrap(UTEMP + ArgvAt(args) - 8)
  {
    hide Wrap, RoundDown, Size;
    WrapSubtract(UTEMP + PGSIZE, Size(args));
    var x := PGSIZE - Size(args);
    RoundDownWraps(UTEMP + x);
    RoundDownAdd(x, UTEMP);
    WrapSubtract(RoundDown(UTEMP + x), 4 * (|args| + 1));
    WrapSubtract(UTEMP + ArgvAt(args), 8);
  }

  /** A list that fits is accepted. One that does not is refused unless the 32-bit subtraction goes
      round: exactly when the block would start below address 0, if it is smaller than 4 GB. */
  lemma AcceptedIff(args: seq<CString>)
    ensures Fits(args) ==> Accepted(args)
    ensures Accepted(args) <==> Wrap(UTEMP + ArgvAt(args) - 8) >= UTEMP
    ensures UTEMP + ArgvAt(args) - 8 >= UTEMP - U32 ==> (Accepted(args) <==> Fits(args) || UTEMP + ArgvAt(args) - 8 < 0)
  {
    RegistersWrap(args);
    hide ArgvStore;
  }

  /** What happens to a list that is accepted and does not fit, if its block is a page short of 4 GB or
      smaller: the very first store, to argv_store[0], is outside the page. */
  lemma OverrunMissesPage(args: seq<CString>)
    requires Accepted(args) && !Fits(args) && UTEMP + ArgvAt(args) - 8 >= UTEMP + PGSIZE - U32
    ensures !(UTEMP <= ArgvStore(args) < UTEMP + PGSIZE)
  {
    RegistersWrap(args);
    AcceptedIff(args);
    hide ArgvStore, ArgvAt;
  }

  /** An argument of 4 MB and 4 KB is accepted although it does not fit. */
  lemma HugeIsAccepted(s: CString)
    requires |s| == 0x40_1000
    ensures Accepted([s]) && !Fits([s])
  {
    assert Size([s]) == 0x40_1001 by {
      SizeStep([s], 0);
      assert [s][..0] == [] && [s][..1] == [s];
    }
    AcceptedIff([s]);
  }

  // ---- the page ---------------------------------------------------------------------------------------------

  type Page = seq<Byte>

  function Spliced(p: Page, off: nat, bs: seq<Byte>): (r: Page)
    requires off + |bs| <= |p|
    ensures |r| == |p| && r[off..off + |bs|] == bs
    ensures forall i :: 0 <= i < |p| && !(off <= i < off + |bs|) ==> r[i] == p[i]
  {
    p[..off] + bs + p[off + |bs|..]
  }

  /** Bytes lo up to hi are as they were when the splice is elsewhere. */
  lemma SplicedElsewhere(p: Page, off: nat, bs: seq<Byte>, lo: nat, hi: nat)
    requires off + |bs| <= |p| && lo <= hi <= |p| && (hi <= off || off + |bs| <= lo)
    ensures Spliced(p, off, bs)[lo..hi] == p[lo..hi]
  {
  }

  function WordBytes(w: nat): (bs: seq<Byte>)
    ensures |bs| == 4
  {
    var (w1, w2, w3) := (w / 256, w / 256 / 256, w / 256 / 256 / 256);
    [w % 256, w1 % 256, w2 % 256, w3 % 256]
  }

  function WordOf(bs: seq<Byte>): nat
    requires |bs| == 4
  {
    var b: seq<int> := bs;
    b[0] + 256 * b[1] + 65536 * b[2] + 16777216 * b[3]
  }

  lemma WordRoundTrip(w: nat)
    requires w < U32
    ensures WordOf(WordBytes(w)) == w
  {
  }

  // ---- what the child reads ------------------------------------------------------------------------------------

  /** The word at child address `addr`, if it lies in the page. */
  function ReadWord(p: Page, addr: nat): Option<nat>
    requires |p| == PGSIZE
  {
    if USTACK <= addr <= USTACK + PGSIZE - 4 then Some(WordOf(p[addr - USTACK..addr - USTACK + 4])) else None
  }

  /** The C string at offset `off`; None when it has no terminator in the page. */
  function StringFrom(p: Page, off: nat): Option<seq<Byte>>
    requires off <= |p|
    decreases |p| - off
  {
    if off == |p| then None
    else if p[off] == 0 then Some([])
    else match StringFrom(p, off + 1) case None => None case Some(rest) => Some([p[off]] + rest)
  }

  function ReadString(p: Page, addr: nat): Option<seq<Byte>>
    requires |p| == PGSIZE
  {
    if USTACK <= addr <= USTACK + PGSIZE then StringFrom(p, addr - USTACK) else None
  }

  /** The n strings of the null-terminated pointer array at `argv`. */
  function ReadArgv(p: Page, argv: nat, n: nat): Option<seq<seq<Byte>>>
    requires |p| == PGSIZE
    decreases n
  {
    match ReadWord(p, argv)
    case None => None
    case Some(ptr) =>
      if n == 0 then (if ptr == 0 then Some([]) else None)
      else match (ReadString(p, ptr), ReadArgv(p, argv + 4, n - 1))
           case (Some(s), Some(rest)) => Some([s] + rest)
           case _ => None
  }

  /** The arguments of the child's main, found from its first stack pointer. */
  function ReadArgs(p: Page, esp: nat): Option<seq<seq<Byte>>>
    requires |p| == PGSIZE
  {
    match (ReadWord(p, esp), ReadWord(p, esp + 4))
    case (Some(argc), Some(argv)) => ReadArgv(p, argv, argc)
    case _ => None
  }

  // ---- what init_stack writes -------------------------------------------------------------------------------------

  /** The page after the first i arguments have been stored. */
  function Stored(p: Page, args: seq<CString>, i: nat): (r: Page)
    requires |p| == PGSIZE && Fits(args) && i <= |args|
    ensures |r| == PGSIZE
  {
    if i == 0 then p
    else
      LayoutOk(args, i - 1);
      var q := Spliced(Stored(p, args, i - 1), ArgvAt(args) + 4 * (i - 1), WordBytes(USTACK + StringAt(args, i - 1)));
      Spliced(q, StringAt(args, i - 1), args[i - 1] + [0])
  }

  /** The finished page. */
  function Finished(p: Page, args: seq<CString>): (r: Page)
    requires |p| == PGSIZE && Fits(args)
    ensures |r| == PGSIZE
  {
    ArgvFits(args);
    var av := ArgvAt(args);
    var p1 := Spliced(Stored(p, args, |args|), av + 4 * |args|, WordBytes(0));
    var p2 := Spliced(p1, av - 4, WordBytes(USTACK + av));
    Spliced(p2, av - 8, WordBytes(|args|))
  }

  lemma ArgvFits(args: seq<CString>)
    requires Fits(args)
    ensures 8 <= ArgvAt(args) && ArgvAt(args) % 4 == 0 && ArgvAt(args) + 4 * (|args| + 1) <= PGSIZE - Size(args) <= PGSIZE && |args| < PGSIZE
  {
  }

  /** Pointer j and string j are in place. */
  ghost predicate InPlace(p: Page, args: seq<CString>, j: nat)
    requires |p| == PGSIZE && Fits(args) && j < |args|
  {
    LayoutOk(args, j);
    var av, at := ArgvAt(args), StringAt(args, j);
    && p[av + 4 * j..av + 4 * j + 4] == WordBytes(USTACK + at)
    && p[at..at + |args[j]| + 1] == args[j] + [0]
  }

  /** A splice clear of pointer j and string j leaves them in place. */
  lemma SpliceKeeps(p: Page, args: seq<CString>, j: nat, off: nat, bs: seq<Byte>)
    requires |p| == PGSIZE && Fits(args) && j < |args| && InPlace(p, args, j) && off + |bs| <= PGSIZE
    requires off + |bs| <= ArgvAt(args) + 4 * j || off >= ArgvAt(args) + 4 * j + 4
    requires off + |bs| <= StringAt(args, j) || off >= StringAt(args, j + 1)
    ensures InPlace(Spliced(p, off, bs), args, j)
  {
    hide Spliced, StringAt, ArgvAt, WordBytes;
    LayoutOk(args, j);
    SplicedElsewhere(p, off, bs, ArgvAt(args) + 4 * j, ArgvAt(args) + 4 * j + 4);
    SplicedElsewhere(p, off, bs, StringAt(args, j), StringAt(args, j + 1));
  }

  lemma StringsOrdered(args: seq<CString>, j: nat, i: nat)
    requires j < i <= |args|
    ensures StringAt(args, j) + |args[j]| + 1 == StringAt(args, j + 1) <= StringAt(args, i)
  {
    SizeStep(args, j);
    SizeGrows(args, j + 1, i);
  }

  /** Storing one more argument puts it in place and leaves the earlier ones alone. */
  lemma {:induction false} StoredInPlace(p: Page, args: seq<CString>, i: nat, j: nat)
    requires |p| == PGSIZE && Fits(args) && j < i <= |args|
    ensures InPlace(Stored(p, args, i), args, j)
  {
    hide Spliced, StringAt, ArgvAt, WordBytes, InPlace;
    var q, av, at := Stored(p, args, i - 1), ArgvAt(args), StringAt(args, i - 1);
    LayoutOk(args, i - 1);
    var w, s := WordBytes(USTACK + at), args[i - 1] + [0];
    var q1 := Spliced(q, av + 4 * (i - 1), w);
    if j < i - 1 {
      StoredInPlace(p, args, i - 1, j);
      StringsOrdered(args, j, i - 1);
      LayoutOk(args, j);
      SpliceKeeps(q, args, j, av + 4 * (i - 1), w);
      SpliceKeeps(q1, args, j, at, s);
    } else {
      JustStored(q, args, j);
    }
  }

  lemma JustStored(q: Page, args: seq<CString>, j: nat)
    requires |q| == PGSIZE && Fits(args) && j < |args|
    requires 0 <= ArgvAt(args) && ArgvAt(args) + 4 * j + 4 <= StringAt(args, j) && StringAt(args, j) + |args[j]| + 1 <= PGSIZE
    ensures var q1 := Spliced(q, ArgvAt(args) + 4 * j, WordBytes(USTACK + StringAt(args, j)));
            InPlace(Spliced(q1, StringAt(args, j), args[j] + [0]), args, j)
  {
    hide StringAt, ArgvAt;
    var av, at := ArgvAt(args), StringAt(args, j);
    var q1 := Spliced(q, av + 4 * j, WordBytes(USTACK + at));
    SplicedElsewhere(q1, at, args[j] + [0], av + 4 * j, av + 4 * j + 4);
  }

  // ---- round trip ---------------------------------------------------------------------------------------------------

  lemma {:induction false} StringReads(p: Page, off: nat, s: CString)
    requires off + |s| + 1 <= |p| && p[off..off + |s| + 1] == s + [0]
    ensures StringFrom(p, off) == Some(s)
    decreases |s|
  {
    assert p[off] == (s + [0])[0];
    if s != [] {
      assert s[1..] + [0] == (s + [0])[1..];
      StringReads(p, off + 1, s[1..]);
      assert [s[0]] + s[1..] == s;
    }
  }

  lemma {:induction false} ArgvReads(p: Page, args: seq<CString>, i: nat)
    requires |p| == PGSIZE && Fits(args) && i <= |args|
    requires forall j :: 0 <= j < |args| ==> InPlace(p, args, j)
    requires ReadWord(p, USTACK + ArgvAt(args) + 4 * |args|) == Some(0)
    ensures USTACK + ArgvAt(args) >= 0
    ensures ReadArgv(p, USTACK + ArgvAt(args) + 4 * i, |args| - i) == Some(args[i..])
    decreases |args| - i
  {
    hide StringAt, ArgvAt, WordBytes, WordOf, StringFrom;
    ArgvFits(args);
    if i == |args| {
      assert args[i..] == [];
    } else {
      ArgvReads(p, args, i + 1);
      assert InPlace(p, args, i);
      LayoutOk(args, i);
      WordRoundTrip(USTACK + StringAt(args, i));
      StringReads(p, StringAt(args, i), args[i]);
      assert args[i..] == [args[i]] + args[i + 1..];
    }
  }

  /** The child reads back exactly the argument list. */
  lemma ImageRoundTrip(p: Page, args: seq<CString>)
    requires |p| == PGSIZE && Fits(args)
    ensures ReadArgs(Finished(p, args), USTACK + ArgvAt(args) - 8) == Some(args)
  {
    hide Spliced, StringAt, ArgvAt, WordBytes, WordOf, InPlace, Stored, ReadArgv;
    ArgvFits(args);
    var av, n := ArgvAt(args), |args|;
    var p0 := Stored(p, args, n);
    var p1 := Spliced(p0, av + 4 * n, WordBytes(0));
    var p2 := Spliced(p1, av - 4, WordBytes(USTACK + av));
    var p3 := Spliced(p2, av - 8, WordBytes(n));
    forall j | 0 <= j < n
      ensures InPlace(p3, args, j)
    {
      StoredInPlace(p, args, n, j);
      LayoutOk(args, j);
      SpliceKeeps(p0, args, j, av + 4 * n, WordBytes(0));
      SpliceKeeps(p1, args, j, av - 4, WordBytes(USTACK + av));
      SpliceKeeps(p2, args, j, av - 8, WordBytes(n));
    }
    SplicedElsewhere(p1, av - 4, WordBytes(USTACK + av), av + 4 * n, av + 4 * n + 4);
    SplicedElsewhere(p2, av - 8, WordBytes(n), av + 4 * n, av + 4 * n + 4);
    SplicedElsewhere(p2, av - 8, WordBytes(n), av - 4, av);
    WordRoundTrip(0);
    WordRoundTrip(n);
    WordRoundTrip(USTACK + av);
    ArgvReads(p3, args, 0);
    assert args[0..] == args;
  }

  // ---- init_stack in its own form --------------------------------------------------------------------------------

  /** Overrun: the bound check let through a block that leaves the page. */
  datatype Result = NoMem | Stack(esp: nat) | Overrun

  method StoreWord(page: array<Byte>, off: nat, w: nat)
    requires off + 4 <= page.Length
    modifies page
    ensures page[..] == Spliced(old(page[..]), off, WordBytes(w))
  {
    hide WordBytes;
    var bs := WordBytes(w);
    page[off], page[off + 1], page[off + 2], page[off + 3] := bs[0], bs[1], bs[2], bs[3];
  }

  method Strcpy(page: array<Byte>, off: nat, s: CString)
    requires off + |s| + 1 <= page.Length
    modifies page
    ensures page[..] == Spliced(old(page[..]), off, s + [0])
  {
    var i := 0;
    while i < |s|
      invariant i <= |s|
      invariant page[..] == Spliced(old(page[..]), off, s[..i])
    {
      page[off + i] := s[i];
      assert s[..i + 1] == s[..i] + [s[i]];
      i := i + 1;
    }
    assert s[..i] == s;
    page[off + i] := 0;
  }

  method StringSize(args: seq<CString>) returns (size: nat)
    ensures size == Wrap(Size(args))
  {
    var argc := 0;
    size := 0;
    while argc < |args|
      invariant argc <= |args| && size == Wrap(Size(args[..argc]))
    {
      SizeStep(args, argc);
      WrapSum(Size(args[..argc]), |args[argc]| + 1);
      size := Wrap(size + |args[argc]| + 1);
      argc := argc + 1;
    }
    assert args[..argc] == args;
  }

  lemma WrapSum(x: nat, y: nat)
    ensures Wrap(Wrap(x) + y) == Wrap(x + y)
  {
    hide Wrap;
    var q := WrapLaps(x);
    WrapAdd(Wrap(x) + y, q);
  }

  /** `memory` says whether the page could be allocated. A refused list leaves the page alone; a list
      that fits is read back by the child, from an aligned stack pointer inside the page. */
  method InitStack(page: array<Byte>, args: seq<CString>, memory: bool) returns (r: Result)
    requires page.Length == PGSIZE
    modifies page
    ensures !Accepted(args) || !memory ==> r == NoMem && page[..] == old(page[..])
    ensures Accepted(args) && memory ==> if Fits(args) then r.Stack? else r.Overrun?
    ensures r.Stack? ==> USTACK <= r.esp < USTACK + PGSIZE && r.esp % 4 == 0 && ReadArgs(page[..], r.esp) == Some(args)
  {
    hide Wrap, Size, StringAt, ArgvAt, RoundDown, ReadArgs, Finished;
    ghost var before := page[..];
    var size := StringSize(args);
    var stringStore := Wrap(UTEMP + PGSIZE - size);
    var argvStore := Wrap(RoundDown(stringStore) - Wrap(4 * (|args| + 1)));
    if Wrap(argvStore - 8) < UTEMP || !memory { return NoMem; }
    if !Fits(args) { return Overrun; }
    FittingRegisters(args);
    ArgvFits(args);
    var av := argvStore - UTEMP;
    FinishPage(page, args, stringStore, av);
    ImageRoundTrip(before, args);
    r := Stack(USTACK + av - 8);
  }

  lemma FittingRegisters(args: seq<CString>)
    requires Fits(args)
    ensures StringStore(args) == UTEMP + StringAt(args, 0) && ArgvStore(args) == UTEMP + ArgvAt(args)
  {
    RegistersWrap(args);
    ArgvFits(args);
    hide ArgvStore, StringStore;
  }

  /** The stores into the page. */
  method FinishPage(page: array<Byte>, args: seq<CString>, start: nat, av: nat)
    requires page.Length == PGSIZE && Fits(args) && start == UTEMP + StringAt(args, 0) && av == ArgvAt(args)
    modifies page
    ensures page[..] == Finished(old(page[..]), args)
  {
    hide StringAt, ArgvAt, Spliced, Stored;
    ArgvFits(args);
    FillPage(page, args, start, av);
    StoreWord(page, av + 4 * |args|, 0);
    StoreWord(page, av - 4, USTACK + av);
    StoreWord(page, av - 8, |args|);
  }

  /** The loop over the arguments. */
  method FillPage(page: array<Byte>, args: seq<CString>, start: nat, av: nat)
    requires page.Length == PGSIZE && Fits(args) && start == UTEMP + StringAt(args, 0) && av == ArgvAt(args)
    modifies page
    ensures page[..] == Stored(old(page[..]), args, |args|)
  {
    hide StringAt, ArgvAt, Spliced;
    var stringStore, i := start, 0;
    while i < |args|
      invariant i <= |args| && stringStore == UTEMP + StringAt(args, i)
      invariant page[..] == Stored(old(page[..]), args, i)
    {
      LayoutOk(args, i);
      StoreWord(page, av + 4 * i, USTACK + (stringStore - UTEMP));
      Strcpy(page, stringStore - UTEMP, args[i]);
      stringStore := stringStore + |args[i]| + 1;
      i := i + 1;
    }
  }
}

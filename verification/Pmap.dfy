/** src/pmap.c and the memory half of src/env.c in their own form: `pages[]` as arrays of
    counts and links, an intrusive free list, and page tables updated in place. */
module PmapImpl {
  import opened Words
  import opened Paging
  import opened PagingLemmas
  import opened PagingOps
  import opened PagingEnv
  import opened PagingTheorems

  const EXTPHYSMEM_PAGE: nat := 256

  /** Frames that page_init puts on the free list; `kernelEnd` is the first page after what
      boot_alloc has handed out. */
  predicate BootFree(i: nat, npagesBasemem: nat, kernelEnd: nat) {
    i != npagesBasemem / 4096 && (i < npagesBasemem || (i > EXTPHYSMEM_PAGE && i >= kernelEnd))
  }

  /** The count page_init leaves in a frame other than 0. */
  function BootCount(i: nat, npagesBasemem: nat, kernelEnd: nat): nat {
    if BootFree(i, npagesBasemem, kernelEnd) then 0 else 1
  }

  /** The free list page_init leaves, from frame `lo` up. */
  ghost function BootList(lo: nat, npages: nat, npagesBasemem: nat, kernelEnd: nat): (s: seq<nat>)
    ensures forall f: nat :: f in s <==> lo <= f < npages && BootFree(f, npagesBasemem, kernelEnd)
    ensures forall k, l :: 0 <= k < l < |s| ==> s[k] < s[l]
    decreases npages - lo
  {
    if lo >= npages then []
    else
      var rest := BootList(lo + 1, npages, npagesBasemem, kernelEnd);
      assert forall k :: 0 <= k < |rest| ==> rest[k] in rest;
      if BootFree(lo, npagesBasemem, kernelEnd) then [lo] + rest else rest
  }

  /** What is free at boot, with base memory ending at or below the I/O hole's end: every frame but frame
      0 that is neither in the I/O hole nor in the kernel image and what boot_alloc has handed out, and
      but for the frame that the source's shift by twelve makes of the size of base memory. All others have
      count 1. */
  lemma BootListExact(npages: nat, npagesBasemem: nat, kernelEnd: nat, f: nat)
    requires npagesBasemem <= 0x100
    ensures f in BootList(1, npages, npagesBasemem, kernelEnd) <==>
            && 0 < f < npages && f != npagesBasemem / 4096
            && !(npagesBasemem <= f <= 0x100) && !(0x100 < f < kernelEnd)
    ensures 0 < f < npages ==>
              BootCount(f, npagesBasemem, kernelEnd) == if f in BootList(1, npages, npagesBasemem, kernelEnd) then 0 else 1
  {
  }

  /** A decrement at this slot does not run into the panics of page_free. */
  ghost predicate NoPanic(m: Phys, d: nat, vpn: nat)
    requires Walkable(m, d, vpn)
  {
    var f := Translate(m, d, vpn).ppn;
    0 < |m.refs| && (m.refs[f] == 1 ==> f !in m.free)
  }

  lemma NoPanicWhenInv(m: Phys, d: nat, vpn: nat)
    requires Inv(m) && d in m.dirs && vpn < USER_PAGES
    ensures Walkable(m, d, vpn) && NoPanic(m, d, vpn)
  {
    TranslateIsRef(m, multiset{}, d, vpn);
    if Translate(m, d, vpn) != ZERO {
      RemoveMapped(m, multiset{}, d, vpn);
    }
  }

  lemma ReferencedNotFree(m: Phys, r: Ref)
    requires Inv(m) && r in Refs(m)
    ensures m.refs[Refs(m)[r].ppn] > 0 && Refs(m)[r].ppn !in m.free
  {
    assert r in RefsTo(Refs(m), Refs(m)[r].ppn);
  }

  lemma NoPanicAfterIncref(m: Phys, m1: Phys, d: nat, pp: nat, vpn: nat)
    requires Inv(m) && d in m.dirs && vpn < USER_PAGES && Walkable(m, d, vpn) && Insertable(m, d, pp, vpn)
    requires WalkCreate(m, d, vpn) == Some(m1)
    ensures Walkable(Incref(m1, pp), d, vpn) && NoPanic(Incref(m1, pp), d, vpn)
  {
    WalkCreateKeeps(m, multiset{}, d, vpn);
    TranslateIsRef(m1, multiset{}, d, vpn);
    if SlotRef(d, vpn) in Refs(m1) {
      ReferencedNotFree(m1, SlotRef(d, vpn));
    }
  }

  /** All that one round of env_free's inner loop needs and does. */
  lemma SlotReady(m: Phys, d: nat, pdeno: nat, pteno: nat) returns (next: Phys)
    requires Inv(m) && IsRef(m, Table(d, pdeno)) && pteno < NPTENTRIES
    ensures var vpn := pdeno * NPTENTRIES + pteno;
            && pdeno < PDX_UTOP && Walkable(m, d, vpn) && NoPanic(m, d, vpn) && d < |m.ram| && |m.ram[d]| == NPTENTRIES
            && m.ram[d][pdeno] != ZERO && next == ClearSlot(m, d, vpn)
    ensures Shaped(next) && Inv(next) && IsRef(next, Table(d, pdeno))
    ensures FreeSlots(m, d, pdeno, pteno) == FreeSlots(next, d, pdeno, pteno + 1)
  {
    next := SlotStepExact(m, d, pdeno, pteno);
    NoPanicWhenInv(m, d, pdeno * NPTENTRIES + pteno);
  }

  lemma SlotsDone(m: Phys, d: nat, pdeno: nat)
    requires Shaped(m) && IsRef(m, Table(d, pdeno))
    ensures FreeSlots(m, d, pdeno, NPTENTRIES) == m
  {
  }

  /** Right after page_init no address space exists, the counts are the boot counts, and
      every frame with count zero other than frame 0 is on the list. */
  lemma BootInv(m: Phys, npagesBasemem: nat, kernelEnd: nat)
    requires Shaped(m) && m.dirs == {} && m.boot == m.refs && m.refs != [] && m.refs[0] == 0
    requires forall f: nat :: 0 < f < |m.refs| ==> m.refs[f] == BootCount(f, npagesBasemem, kernelEnd)
    requires m.free == BootList(1, |m.refs|, npagesBasemem, kernelEnd)
    ensures Inv(m) && Held(m) == {}
  {
    assert Refs(m) == map[];
    forall f: nat
      ensures Count(Refs(m), f) == 0
    {
      assert RefsTo(Refs(m), f) == {};
    }
    assert forall k :: 0 <= k < |m.free| ==> m.free[k] in m.free;
  }

  class Pmap {
    const npages: nat
    const pageRef: array<nat>
    const pageLink: array<int>
    var pageFreeList: int
    const ram: array<seq<Pte>>
    const kernPgdir: seq<Pte>
    ghost var free: seq<nat>
    ghost var dirs: set<nat>
    ghost var boot: seq<nat>

    ghost predicate Valid()
      reads this, pageRef, pageLink, ram
    {
      && pageRef as object != pageLink && pageRef as object != ram && pageLink as object != ram
      && pageRef.Length == pageLink.Length == ram.Length == npages
      && (forall k :: 0 <= k < |free| ==> free[k] < npages)
      && (forall k, l :: 0 <= k < l < |free| ==> free[k] != free[l])
      && pageFreeList == (if free == [] then -1 else free[0])
      && (forall k, l :: 0 <= k < l < |free| && l == k + 1 ==> pageLink[free[k]] == free[l])
      && (free != [] ==> pageLink[free[|free| - 1]] == -1)
      && (forall f: nat :: f < npages ==> pageRef[f] < REF_LIMIT)
      && (forall f: nat :: f < npages && f !in free ==> pageLink[f] == -1)
    }

    ghost function View(): Phys
      reads this, pageRef, ram
    {
      Phys(pageRef[..], free, ram[..], dirs, kernPgdir, boot)
    }

    /** mem_init's cleared array followed by page_init. */
    constructor (npages: nat, npagesBasemem: nat, kernelEnd: nat, kern: seq<Pte>)
      requires npages > 0 && |kern| == NPDENTRIES && forall i :: 0 <= i < PDX_UTOP ==> kern[i] == ZERO
      ensures Valid() && Inv(View()) && dirs == {} && fresh(pageRef) && fresh(pageLink) && fresh(ram)
      ensures free == BootList(1, npages, npagesBasemem, kernelEnd)
      ensures Held(View()) == {}
    {
      this.npages := npages;
      pageRef := new nat[npages](_ => 0);
      pageLink := new int[npages](_ => -1);
      ram := new seq<Pte>[npages](_ => ZeroFrame());
      kernPgdir := kern;
      pageFreeList := -1;
      free, dirs, boot := [], {}, [];
      new;
      hide BootCount, BootList;
      PageInit(npagesBasemem, kernelEnd);
      boot := pageRef[..];
      BootInv(View(), npagesBasemem, kernelEnd);
    }

    method PageInit(npagesBasemem: nat, kernelEnd: nat)
      requires Valid() && npages > 0 && free == [] && forall f: nat :: f < npages ==> pageRef[f] == 0
      modifies this`pageFreeList, this`free, pageRef, pageLink
      ensures Valid() && free == BootList(1, npages, npagesBasemem, kernelEnd)
      ensures forall f: nat :: 0 < f < npages ==> pageRef[f] == BootCount(f, npagesBasemem, kernelEnd)
      ensures pageRef[0] == 0
    {
      hide BootFree, BootCount;
      var i := npages - 1;
      while i > 0
        invariant 0 <= i < npages && Valid()
        invariant free == BootList(i + 1, npages, npagesBasemem, kernelEnd)
        invariant forall f: nat :: i < f < npages ==> pageRef[f] == BootCount(f, npagesBasemem, kernelEnd)
        invariant forall f: nat :: f <= i ==> pageRef[f] == 0
      {
        InitPage(i, npagesBasemem, kernelEnd);
        i := i - 1;
      }
    }

    /** The body of page_init's loop. */
    method InitPage(i: nat, npagesBasemem: nat, kernelEnd: nat)
      requires Valid() && 0 < i < npages && pageRef[i] == 0 && i !in free
      modifies this`pageFreeList, this`free, pageRef, pageLink
      ensures Valid() && free == if BootFree(i, npagesBasemem, kernelEnd) then [i] + old(free) else old(free)
      ensures pageRef[..] == old(pageRef[..])[i := BootCount(i, npagesBasemem, kernelEnd)]
    {
      if i == 0 || i == npagesBasemem / 4096 {
        Reserve(i, 1);
      } else if i < npagesBasemem {
        Release(i);
      } else if i <= EXTPHYSMEM_PAGE || i < kernelEnd {
        Reserve(i, pageRef[i] + 1);
      } else {
        Release(i);
      }
    }

    method Reserve(i: nat, count: nat)
      requires Valid() && i < npages && i !in free && count < REF_LIMIT
      modifies pageRef, pageLink
      ensures Valid() && pageRef[..] == old(pageRef[..])[i := count]
    {
      pageRef[i] := count;
      pageLink[i] := -1;
    }

    method Release(i: nat)
      requires Valid() && i < npages && i !in free
      modifies this`pageFreeList, this`free, pageRef, pageLink
      ensures Valid() && free == [i] + old(free) && pageRef[..] == old(pageRef[..])[i := 0]
    {
      pageRef[i] := 0;
      PushFree(i);
    }

    method PushFree(pp: nat)
      requires Valid() && pp < npages && pp !in free
      modifies this`pageFreeList, this`free, pageLink
      ensures Valid() && free == [pp] + old(free)
    {
      pageLink[pp] := pageFreeList;
      pageFreeList := pp;
      free := [pp] + free;
    }

    method CountUp(pp: nat)
      requires Valid() && pp < npages
      modifies pageRef
      ensures Valid() && View() == Incref(old(View()), pp)
    {
      pageRef[pp] := (pageRef[pp] + 1) % REF_LIMIT;
    }

    method StoreWord(f: nat, k: nat, e: Pte)
      requires Valid() && f < npages && k < |ram[f]|
      modifies ram
      ensures Valid() && View() == SetEntry(old(View()), f, k, e)
    {
      ram[f] := ram[f][k := e];
    }

    method PageAlloc(zero: bool) returns (pp: int)
      requires Valid()
      modifies this, pageLink, ram
      ensures Valid()
      ensures match Paging.PageAlloc(old(View()), zero)
              case None => pp == -1 && View() == old(View())
              case Some((m, f)) => pp == f && View() == m
    {
      if pageFreeList == -1 {
        return -1;
      }
      pp := pageFreeList;
      pageFreeList := pageLink[pp];
      pageLink[pp] := -1;
      free := free[1..];
      if zero {
        ram[pp] := ZeroFrame();
      }
    }

    /** The two panics of the source are the last precondition. */
    method PageFree(pp: nat)
      requires Valid() && pp < npages
      requires pageRef[pp] == 0 && pageLink[pp] == -1 && pp !in free
      modifies this`pageFreeList, this`free, pageLink
      ensures Valid() && View() == Paging.PageFree(old(View()), pp)
    {
      PushFree(pp);
    }

    method PageDecref(pp: nat)
      requires Valid() && pp < npages && (pageRef[pp] == 1 ==> pp !in free)
      modifies this`pageFreeList, this`free, pageRef, pageLink
      ensures Valid() && View() == Paging.PageDecref(old(View()), pp)
    {
      pageRef[pp] := (pageRef[pp] + REF_LIMIT - 1) % REF_LIMIT;
      assert pageRef[..] == old(pageRef[..])[pp := pageRef[pp]];
      if pageRef[pp] == 0 {
        PageFree(pp);
      }
    }

    /** The frame of the page table for `vpn`, or -1. */
    method PgdirWalk(d: nat, vpn: nat, create: bool) returns (t: int)
      requires Valid() && Walkable(View(), d, vpn)
      modifies this, pageLink, pageRef, ram
      ensures Valid() && dirs == old(dirs)
      ensures !create ==> View() == old(View())
      ensures !create ==> t == if old(ram[d])[vpn / NPTENTRIES] == ZERO then -1 else old(ram[d])[vpn / NPTENTRIES].ppn
      ensures create ==> match WalkCreate(old(View()), d, vpn)
                         case None => t == -1 && View() == old(View())
                         case Some(m) => View() == m && t == m.ram[d][vpn / NPTENTRIES].ppn >= 0
    {
      t := ram[d][vpn / NPTENTRIES].ppn;
      if ram[d][vpn / NPTENTRIES] == ZERO {
        if !create {
          return -1;
        }
        var f := this.PageAlloc(true);
        if f == -1 {
          return -1;
        }
        CountUp(f);
        StoreWord(d, vpn / NPTENTRIES, Pte(f, PTE_P + PTE_W + PTE_U));
        t := ram[d][vpn / NPTENTRIES].ppn;
      }
    }

    method PageRemove(d: nat, vpn: nat)
      requires Valid() && Walkable(View(), d, vpn) && NoPanic(View(), d, vpn)
      modifies this, pageLink, pageRef, ram
      ensures Valid() && View() == Paging.PageRemove(old(View()), d, vpn)
    {
      var t := PgdirWalk(d, vpn, false);
      if t == -1 {
        return;
      }
      var j := vpn % NPTENTRIES;
      this.PageDecref(ram[t][j].ppn);
      StoreWord(t, j, ZERO);
    }

    method MapSlot(d: nat, pp: nat, vpn: nat, perm: nat, t: nat)
      requires Valid() && pp < npages && Walkable(View(), d, vpn)
      requires ram[d][vpn / NPTENTRIES] != ZERO && t == ram[d][vpn / NPTENTRIES].ppn
      requires NoPanic(Incref(View(), pp), d, vpn)
      modifies this, pageLink, pageRef, ram
      ensures Valid() && View() == Paging.MapSlot(old(View()), d, pp, vpn, perm)
    {
      CountUp(pp);
      var j := vpn % NPTENTRIES;
      if ram[t][j].ppn != 0 {
        this.PageRemove(d, vpn);
      }
      StoreWord(t, j, Pte(pp, WithPresent(perm)));
    }

    method PageInsert(d: nat, pp: nat, vpn: nat, perm: nat) returns (ok: bool)
      requires Valid() && Inv(View()) && d in dirs && vpn < USER_PAGES
      requires Walkable(View(), d, vpn) && Insertable(View(), d, pp, vpn)
      modifies this, pageLink, pageRef, ram
      ensures Valid()
      ensures match Paging.PageInsert(old(View()), d, pp, vpn, perm)
              case None => !ok && View() == old(View())
              case Some(m) => ok && View() == m
    {
      hide RefsOk, CountsOwing, FreeListOk, DataFrame, WalkCreate, Paging.MapSlot;
      ghost var m0 := View();
      var t := PgdirWalk(d, vpn, true);
      if t == -1 {
        return false;
      }
      WalkCreateWalkable(m0, d, vpn);
      NoPanicAfterIncref(m0, View(), d, pp, vpn);
      this.MapSlot(d, pp, vpn, perm, t);
      return true;
    }

    method EnvSetupVm() returns (d: int)
      requires Valid() && |kernPgdir| == NPDENTRIES
      modifies this, pageLink, pageRef, ram
      ensures Valid()
      ensures match PagingEnv.EnvSetupVm(old(View()))
              case None => d == -1 && View() == old(View())
              case Some((m, f)) => d == f && View() == m
    {
      ghost var m0 := View();
      d := this.PageAlloc(true);
      if d == -1 {
        return;
      }
      ram[d] := kernPgdir;
      dirs := dirs + {d as nat};
      CountUp(d);
      StoreWord(d, PDX_UVPT, Pte(d, PTE_P + PTE_U));
      assert View().ram == PagingEnv.EnvSetupVm(m0).value.0.ram;
    }

    /** The body of env_free's inner loop. */
    method FreeOneSlot(d: nat, pdeno: nat, pteno: nat)
      requires Valid() && pdeno < PDX_UTOP && pteno < NPTENTRIES
      requires Walkable(View(), d, pdeno * NPTENTRIES + pteno) && NoPanic(View(), d, pdeno * NPTENTRIES + pteno)
      requires View().ram[d][pdeno] != ZERO
      modifies this, pageLink, pageRef, ram
      ensures Valid() && View() == ClearSlot(old(View()), d, pdeno * NPTENTRIES + pteno)
    {
      SlotOf(View(), d, pdeno, pteno);
      if ram[ram[d][pdeno].ppn][pteno].Present() {
        this.PageRemove(d, pdeno * NPTENTRIES + pteno);
      }
    }

    /** env_free's inner loop. */
    method FreeAllSlots(d: nat, pdeno: nat)
      requires Valid() && Inv(View()) && IsRef(View(), Table(d, pdeno))
      modifies this, pageLink, pageRef, ram
      ensures Valid() && View() == FreeSlots(old(View()), d, pdeno, 0)
    {
      hide RefsOk, CountsOwing, FreeListOk, IsRefMap, IsRef, Walkable, NoPanic, FreeSlots, ClearSlot;
      ghost var m := View();
      var pteno := 0;
      while pteno < NPTENTRIES
        invariant pteno <= NPTENTRIES && Valid() && View() == m
        invariant Shaped(m) && Inv(m) && IsRef(m, Table(d, pdeno))
        invariant FreeSlots(m, d, pdeno, pteno) == FreeSlots(old(View()), d, pdeno, 0)
      {
        ghost var next := SlotReady(m, d, pdeno, pteno);
        FreeOneSlot(d, pdeno, pteno);
        m := next;
        pteno := pteno + 1;
      }
      SlotsDone(m, d, pdeno);
    }

    /** One page table of env_free: unmap its present entries, clear it, give it back. */
    method FreeOneTable(d: nat, pdeno: nat)
      requires Valid() && Inv(View()) && d in dirs && pdeno < PDX_UTOP
      modifies this, pageLink, pageRef, ram
      ensures Valid() && View() == FreeTable(old(View()), d, pdeno)
    {
      ghost var m0 := View();
      if !ram[d][pdeno].Present() {
        return;
      }
      var t := ram[d][pdeno].ppn;
      assert IsRef(m0, Table(d, pdeno)) && Refs(m0)[Table(d, pdeno)].ppn == t;
      FreeSlotsDrops(m0, d, pdeno, 0);
      FreeAllSlots(d, pdeno);
      ghost var m1 := View();
      TableIsEmpty(m0, m1, d, pdeno);
      ReferencedNotFree(m1, Table(d, pdeno));
      StoreWord(d, pdeno, ZERO);
      this.PageDecref(t);
    }

    /** env_free: no frame leaks and no other address space changes (EnvFreeDropsExactly,
        EnvFreeKeepsOthers). */
    method EnvFree(d: nat)
      requires Valid() && Inv(View()) && d in dirs
      modifies this, pageLink, pageRef, ram
      ensures Valid() && View() == PagingEnv.EnvFree(old(View()), d)
    {
      hide RefsOk, CountsOwing, FreeListOk, FreeTable;
      ghost var m := View();
      var pdeno := 0;
      while pdeno < PDX_UTOP
        invariant pdeno <= PDX_UTOP && Valid() && View() == m && Inv(m) && m.dirs == old(dirs)
        invariant FreeTables(m, d, pdeno) == FreeTables(old(View()), d, 0)
      {
        ghost var next := FreeTableDrops(m, d, pdeno);
        FreeOneTable(d, pdeno);
        m := next;
        pdeno := pdeno + 1;
      }
      ReferencedNotFree(m, Root(d));
      dirs := dirs - {d};
      this.PageDecref(d);
    }
  }
}

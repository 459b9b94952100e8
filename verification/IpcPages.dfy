/** The page that a message carries (src/trap.c:679-706): what sys_ipc_try_send finds in the page tables,
    and what a successful send does to them. */
module IpcPages {
  import opened Words
  import opened Paging
  import opened PagingOps
  import opened PagingTheorems
  import Envs
  import Masks

  function Vpn(va: nat): nat { va / PGSIZE }

  lemma UserPage(va: nat)
    ensures va < Envs.UTOP <==> Vpn(va) < USER_PAGES
  {
  }

  /** The facts of Envs.SendPage, read off the tables of sender and receiver. */
  ghost function Offered(m: Phys, src: nat, dst: nat, srcva: nat, perm: nat, dstva: nat): Envs.SendPage
    requires Inv(m) && src in m.dirs && dst in m.dirs
  {
    UserPage(srcva);
    UserPage(dstva);
    var table := srcva < Envs.UTOP && m.ram[src][Vpn(srcva) / NPTENTRIES] != ZERO;
    var entryW := table && (TranslateIsRef(m, multiset{}, src, Vpn(srcva));
                            Masks.And(Translate(m, src, Vpn(srcva)).flags, PTE_W) != 0);
    var room := dstva < Envs.UTOP && (m.ram[dst][Vpn(dstva) / NPTENTRIES] != ZERO || m.free != []);
    Envs.SendPage(srcva, perm, table, entryW, room)
  }

  /** The room that the send asks for is what page_insert needs, whatever the frame. */
  lemma RoomIff(m: Phys, src: nat, dst: nat, srcva: nat, perm: nat, dstva: nat, pp: nat)
    requires Inv(m) && src in m.dirs && dst in m.dirs && dstva < Envs.UTOP && pp < |m.ram|
    ensures Walkable(m, dst, Vpn(dstva))
    ensures Offered(m, src, dst, srcva, perm, dstva).room <==> PageInsert(m, dst, pp, Vpn(dstva), perm).Some?
  {
    UserPage(dstva);
    WalkCreateKeeps(m, multiset{}, dst, Vpn(dstva));
  }

  /** A send that moves a page maps the sender's frame at the receiver's address with the permissions of
      the message, and changes no other translation of anybody. */
  lemma PageMoves(m: Phys, src: nat, dst: nat, srcva: nat, perm: nat, dstva: nat, d: nat, vpn: nat)
    requires Inv(m) && src in m.dirs && dst in m.dirs && d in m.dirs && vpn < USER_PAGES
    requires Envs.MovePage(Offered(m, src, dst, srcva, perm, dstva), dstva) == Envs.PageMapped
    ensures srcva < Envs.UTOP && dstva < Envs.UTOP
    ensures Walkable(m, src, Vpn(srcva)) && Walkable(m, dst, Vpn(dstva)) && Walkable(m, d, vpn)
    ensures var pp := Translate(m, src, Vpn(srcva)).ppn;
            Translate(m, src, Vpn(srcva)) != ZERO && pp < |m.refs| &&
            (m.refs[pp] < REF_LIMIT - 1 || Translate(m, dst, Vpn(dstva)).ppn == pp) ==>
              && PageInsert(m, dst, pp, Vpn(dstva), perm).Some?
              && var m' := PageInsert(m, dst, pp, Vpn(dstva), perm).value;
              && Inv(m') && Walkable(m', d, vpn)
              && Translate(m', d, vpn) ==
                   if (d, vpn) == (dst, Vpn(dstva)) then Pte(pp, WithPresent(perm)) else Translate(m, d, vpn)
  {
    hide RefsOk, CountsOwing, FreeListOk, PageInsert;
    UserPage(srcva);
    UserPage(dstva);
    TranslateIsRef(m, multiset{}, src, Vpn(srcva));
    TranslateIsRef(m, multiset{}, dst, Vpn(dstva));
    TranslateIsRef(m, multiset{}, d, vpn);
    var pp := Translate(m, src, Vpn(srcva)).ppn;
    if Translate(m, src, Vpn(srcva)) != ZERO {
      RoomIff(m, src, dst, srcva, perm, dstva, pp);
      MappedInsertable(m, src, Vpn(srcva), dst, Vpn(dstva));
      if m.refs[pp] < REF_LIMIT - 1 || Translate(m, dst, Vpn(dstva)).ppn == pp {
        InsertRefinesFlatMap(m, dst, pp, Vpn(dstva), perm, d, vpn);
        InsertKeeps(m, dst, pp, Vpn(dstva), perm);
        SameWhenSame(m, dst, pp, Vpn(dstva), perm);
      }
    }
  }

  /** If the insertion leaves the memory as it was, the entry was already there. */
  lemma SameWhenSame(m: Phys, d: nat, pp: nat, vpn: nat, perm: nat)
    requires Inv(m) && d in m.dirs && vpn < USER_PAGES && Walkable(m, d, vpn) && Insertable(m, d, pp, vpn)
    requires PageInsert(m, d, pp, vpn, perm).Some?
    ensures PageInsert(m, d, pp, vpn, perm).value == m ==> Translate(m, d, vpn) == Pte(pp, WithPresent(perm))
  {
    InsertKeeps(m, d, pp, vpn, perm);
    TranslateIsRef(m, multiset{}, d, vpn);
  }
}

/**
 How the processor translates an address by these tables (section 4.5.4 of the Intel 64 and IA-32 Software
 Developer's Manual, Volume 3A): nine bits of the address index each table, an entry that is not present ends
 the walk, and writing, user mode access and execution must be allowed by every entry on the way.
 */
module Processor {
  import opened PageTables

  /** A translated byte address, what is allowed there, and how it is cached. */
  datatype Access = Access(addr: nat, write: bool, user: bool, execute: bool, cacheDisable: bool, writeThrough: bool)

  /** The table that lies in a frame. */
  function TableIn(t: Tables, frame: nat): Option<nat> {
    Find(t.pds + t.pts, frame)
  }

  lemma TableIsPage(t: Tables, frame: nat)
    requires HasPages(t)
    ensures TableIn(t, frame).Some? ==> IsPage(TableIn(t, frame).value, t.mem)
  {
    FindIsMember(t.pds + t.pts, frame);
  }

  /** The walk from the PDP of a slot: bits 38 to 30, 29 to 21 and 20 to 12 of the address are the indices. */
  function Walk(t: Tables, a: nat): Option<Access>
    requires HasPages(t)
  {
    var top := At(t.mem, t.pdp, a / 0x4000_0000 % 512);
    TableIsPage(t, top.frame);
    if !top.present || TableIn(t, top.frame).None? then None
    else
      var middle := At(t.mem, TableIn(t, top.frame).value, a / 0x20_0000 % 512);
      TableIsPage(t, middle.frame);
      if !middle.present || TableIn(t, middle.frame).None? then None
      else
        var leaf := At(t.mem, TableIn(t, middle.frame).value, a / 0x1000 % 512);
        if !leaf.present then None
        else Some(Access(0x1000 * leaf.frame + a % 0x1000,
                         top.write && middle.write && leaf.write, top.user && middle.user && leaf.user,
                         !top.executeDisable && !middle.executeDisable && !leaf.executeDisable,
                         leaf.cacheDisable, leaf.writeThrough))
  }

  /** The bits of the address are the indices of its page. */
  lemma BitsOfAddress(a: nat)
    ensures a / 0x1000 % 512 == PtIndex(a / 4096)
    ensures a / 0x20_0000 % 512 == PdIndex(a / 4096)
    ensures a / 0x4000_0000 % 512 == PdpIndex(a / 4096)
    ensures a / 0x80_0000_0000 == Slot(a / 4096)
  {
    assert a / 4096 / 512 == a / 0x20_0000;
    assert a / 0x20_0000 / 512 == a / 0x4000_0000;
    assert a / 0x4000_0000 / 512 == a / 0x80_0000_0000;
  }

  lemma {:induction false} FindInBoth(one: seq<Mapping>, two: seq<Mapping>, frame: nat)
    ensures Find(one + two, frame) == if Find(one, frame).Some? then Find(one, frame) else Find(two, frame)
  {
    if one == [] {
      assert one + two == two;
    } else {
      FindInBoth(one[1..], two, frame);
      assert (one + two)[1..] == one[1..] + two;
    }
  }

  /** A table that hangs below an entry is the one that lies in the frame of the entry. */
  lemma HungTableIsThere(t: Tables, page: nat, i: nat, maps: seq<Mapping>)
    requires GoodTree(t) && IsPage(page, t.mem) && i < ENTRIES && GoodLink(t, page, i, maps)
    requires maps == t.pds || maps == t.pts
    ensures var e := At(t.mem, page, i);
            if e.present then TableIn(t, e.frame) == Find(maps, e.frame) && Find(maps, e.frame).Some?
            else Find(maps, e.frame).None?
  {
    var e := At(t.mem, page, i);
    FindInBoth(t.pds, t.pts, e.frame);
    FindIsMember(t.pds, e.frame);
    FindIsMember(t.pts, e.frame);
  }

  /** What the processor reads is the flat map: byte by byte, with the rights that the leaf entry gives. */
  lemma WalkReadsView(t: Tables, prot: nat, a: nat)
    requires GoodTree(t) && OpenLinks(t, prot)
    ensures Walk(t, a) ==
            match ViewOf(t, a / 4096)
            case None => None
            case Some(e) => Some(Access(4096 * e.frame + a % 4096, e.write, e.user && prot == 3, !e.executeDisable,
                                        e.cacheDisable, e.writeThrough))
  {
    hide PtIndex, PdIndex, PdpIndex, Unrelated, Find, GoodLink;
    var v := a / 4096;
    BitsOfAddress(a);
    HungTableIsThere(t, t.pdp, PdpIndex(v), t.pds);
    var top := At(t.mem, t.pdp, PdpIndex(v));
    if top.present {
      var pd := PdAt(t, PdpIndex(v)).value;
      FindIsMember(t.pds, top.frame);
      var m := Mapping(top.frame, pd);
      assert m in t.pds && GoodLink(t, m.page, PdIndex(v), t.pts);
      HungTableIsThere(t, pd, PdIndex(v), t.pts);
    }
  }
}

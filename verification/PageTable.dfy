/** Sv39 page tables: entries, the walk, mapping a range, and translation as section 4.3.2 of the
    RISC-V Privileged Architecture (version 20211203) prescribes it. */
module PageTable {
  import opened Common

  const ENTRIES: nat := 512
  const MAX_VA: nat := 0x40_0000_0000

  // ----- entries -----

  const V: nat := 1

  predicate HasV(flags: nat) {
    flags % 2 == 1
  }

  predicate HasR(flags: nat) {
    flags / 2 % 2 == 1
  }

  predicate HasW(flags: nat) {
    flags / 4 % 2 == 1
  }

  predicate HasX(flags: nat) {
    flags / 8 % 2 == 1
  }

  /** `flags | V`. */
  function WithV(perm: nat): nat {
    if perm % 2 == 1 then perm else perm + 1
  }

  /** `PTE::new`: the low ten bits of the shifted address are clear, so `|` adds the flags. */
  function NewPte(pa: nat, flags: nat): nat {
    pa / PAGE_SIZE * 1024 + flags
  }

  function PtePa(pte: nat): nat {
    pte / 1024 * PAGE_SIZE
  }

  function PteFlags(pte: nat): nat {
    pte % 256
  }

  predicate IsValid(pte: nat) {
    pte % 2 == 1
  }

  lemma PteAddress(page: nat, flags: nat)
    requires flags < 256
    ensures (page * 1024 + flags) / 1024 == page
  {
    MultipleMod(page, 1024, flags);
  }

  lemma PteLowBits(page: nat, flags: nat)
    requires flags < 256
    ensures (page * 1024 + flags) % 256 == flags
  {
    MultipleMod(page * 4, 256, flags);
  }

  lemma PteLowBit(page: nat, flags: nat)
    ensures (page * 1024 + flags) % 2 == flags % 2
  {
    MultipleMod(page * 512, 2, flags);
  }

  /** An entry gives back the page address and the flags it was made of. */
  lemma PteRoundTrip(pa: nat, flags: nat)
    requires flags < 256
    ensures PtePa(NewPte(pa, flags)) == pa / PAGE_SIZE * PAGE_SIZE
    ensures PteFlags(NewPte(pa, flags)) == flags
    ensures IsValid(NewPte(pa, flags)) <==> flags % 2 == 1
  {
    var page := pa / PAGE_SIZE;
    PteAddress(page, flags);
    PteLowBits(page, flags);
    PteLowBit(page, flags);
  }

  // ----- tables -----

  type Table = t: seq<nat> | |t| == 512 witness seq(512, i => 0)

  /** Page tables in memory, by address. */
  type Tables = map<nat, Table>

  function EmptyTable(): Table {
    seq(512, i => 0)
  }

  /** What a table is for: its level, and the part of the page number above its index. */
  datatype Place = Place(level: nat, prefix: nat)

  /** `px`: index into the table of a level for page number `vpn`. */
  function Px(level: nat, vpn: nat): (i: nat)
    requires level < 3
    ensures i < ENTRIES
  {
    if level == 0 then vpn % 512 else if level == 1 then vpn / 512 % 512 else vpn / 262144 % 512
  }

  /** Entry `i` of the table at `t` is empty or, above level 0, points to a table one level down
      that serves exactly the pages under this entry. */
  predicate EntryOk(tables: Tables, place: map<nat, Place>, t: nat, i: nat)
    requires t in tables && t in place && i < ENTRIES
  {
    var e := tables[t][i];
    if !IsValid(e) then e == 0
    else place[t].level > 0 ==>
      && PteFlags(e) == V && e < 0x40_0000_0000_0000
      && PtePa(e) in tables && PtePa(e) in place
      && place[PtePa(e)] == Place(place[t].level - 1, place[t].prefix * 512 + i)
  }

  /** A tree of unshared tables below `root`. */
  ghost predicate TreeOk(tables: Tables, root: nat, place: map<nat, Place>) {
    && place.Keys == tables.Keys
    && root in tables && place[root] == Place(2, 0)
    && (forall t :: t in tables ==> t % PAGE_SIZE == 0 && t < 0x100_0000_0000_0000)
    && (forall t: nat, i: nat :: t in tables && i < ENTRIES ==> EntryOk(tables, place, t, i))
  }

  /** The table reached for `vpn` from table `t`, one level down. */
  function Below(tables: Tables, t: nat, level: nat, vpn: nat): Option<nat>
    requires level < 3
  {
    if t in tables && IsValid(tables[t][Px(level, vpn)]) then Some(PtePa(tables[t][Px(level, vpn)])) else None
  }

  /** The last-level table for `vpn`. */
  function LeafTable(tables: Tables, root: nat, vpn: nat): Option<nat> {
    match Below(tables, root, 2, vpn)
    case None => None
    case Some(t) => Below(tables, t, 1, vpn)
  }

  /** The last-level entry for `vpn`; 0 where there is none. */
  function Leaf(tables: Tables, root: nat, vpn: nat): nat {
    match LeafTable(tables, root, vpn)
    case None => 0
    case Some(t) => if t in tables then tables[t][Px(0, vpn)] else 0
  }

  predicate PageNumber(vpn: nat) {
    vpn < 0x400_0000
  }

  lemma BelowPlace(tables: Tables, root: nat, place: map<nat, Place>, t: nat, vpn: nat)
    requires TreeOk(tables, root, place) && t in tables && PageNumber(vpn) && place[t].level > 0
    requires place[t] == Place(2, 0) || place[t] == Place(1, vpn / 262144)
    ensures var l := place[t].level;
      match Below(tables, t, l, vpn)
      case None => true
      case Some(u) => u in tables && place[u] == if l == 2 then Place(1, vpn / 262144) else Place(0, vpn / 512)
  {
    assert EntryOk(tables, place, t, Px(place[t].level, vpn));
  }

  /** The last-level table for a page serves exactly that page's neighbours. */
  lemma LeafPlace(tables: Tables, root: nat, place: map<nat, Place>, vpn: nat)
    requires TreeOk(tables, root, place) && PageNumber(vpn)
    ensures match LeafTable(tables, root, vpn)
      case None => true
      case Some(t) => t in tables && place[t] == Place(0, vpn / 512)
  {
    BelowPlace(tables, root, place, root, vpn);
    if Below(tables, root, 2, vpn).Some? {
      BelowPlace(tables, root, place, Below(tables, root, 2, vpn).value, vpn);
    }
  }

  /** Writing last-level entry `i` of table `t` changes the one page it serves. */
  lemma LeafWrite(tables: Tables, root: nat, place: map<nat, Place>, t: nat, i: nat, e: nat, vpn: nat)
    requires TreeOk(tables, root, place) && PageNumber(vpn)
    requires t in tables && place[t].level == 0 && i < ENTRIES && IsValid(e)
    ensures var tables1 := tables[t := tables[t][i := e]];
      && TreeOk(tables1, root, place)
      && Leaf(tables1, root, vpn)
         == if LeafTable(tables, root, vpn) == Some(t) && vpn % 512 == i then e else Leaf(tables, root, vpn)
  {
    var tables1 := tables[t := tables[t][i := e]];
    LeafPlace(tables, root, place, vpn);
    BelowPlace(tables, root, place, root, vpn);
    forall u: nat, k: nat | u in tables1 && k < ENTRIES
      ensures EntryOk(tables1, place, u, k)
    {
      assert EntryOk(tables, place, u, k);
    }
  }

  /** Hanging an empty table under an empty entry above the last level changes no page. */
  lemma GrowTree(tables: Tables, root: nat, place: map<nat, Place>, t: nat, i: nat, page: nat)
    requires TreeOk(tables, root, place)
    requires t in tables && 0 < place[t].level && i < ENTRIES && tables[t][i] == 0
    requires page !in tables && page % PAGE_SIZE == 0 && page < 0x100_0000_0000_0000
    ensures var tables1 := tables[page := EmptyTable()][t := tables[t][i := NewPte(page, V)]];
      var place1 := place[page := Place(place[t].level - 1, place[t].prefix * 512 + i)];
      && TreeOk(tables1, root, place1)
      && forall vpn: nat :: PageNumber(vpn) ==> Leaf(tables1, root, vpn) == Leaf(tables, root, vpn)
  {
    var tables1 := tables[page := EmptyTable()][t := tables[t][i := NewPte(page, V)]];
    var place1 := place[page := Place(place[t].level - 1, place[t].prefix * 512 + i)];
    PteRoundTrip(page, V);
    forall u: nat, k: nat | u in tables1 && k < ENTRIES
      ensures EntryOk(tables1, place1, u, k)
    {
      if u in tables {
        assert EntryOk(tables, place, u, k);
      }
    }
    forall vpn: nat | PageNumber(vpn)
      ensures Leaf(tables1, root, vpn) == Leaf(tables, root, vpn)
    {
      GrowLeaf(tables, root, place, t, i, page, vpn);
    }
  }

  lemma GrowLeaf(tables: Tables, root: nat, place: map<nat, Place>, t: nat, i: nat, page: nat, vpn: nat)
    requires TreeOk(tables, root, place) && PageNumber(vpn)
    requires t in tables && 0 < place[t].level && i < ENTRIES && tables[t][i] == 0
    requires page !in tables && page % PAGE_SIZE == 0
    ensures Leaf(tables[page := EmptyTable()][t := tables[t][i := NewPte(page, V)]], root, vpn) ==
      Leaf(tables, root, vpn)
  {
    PteRoundTrip(page, V);
    LeafPlace(tables, root, place, vpn);
    BelowPlace(tables, root, place, root, vpn);
  }

  // ----- translation -----

  function Pow512(level: nat): nat
    requires level < 3
  {
    if level == 0 then 1 else if level == 1 then 512 else 262144
  }

  /** The translation process of section 4.3.2 from the table at `a`: the physical address and the
      flags of the leaf, or a page fault. */
  function TranslateFrom(tables: Tables, a: nat, level: nat, va: nat): Option<(nat, nat)>
    requires level < 3
    decreases level
  {
    if a !in tables then None
    else
      var pte := tables[a][Px(level, va / PAGE_SIZE)];
      var flags := PteFlags(pte);
      var ppn := pte / 1024 % 0x1000_0000_0000;
      if !HasV(flags) || (!HasR(flags) && HasW(flags)) then None
      else if HasR(flags) || HasX(flags) then
        if ppn % Pow512(level) != 0 then None
        else Some(((ppn + va / PAGE_SIZE % Pow512(level)) * PAGE_SIZE + va % PAGE_SIZE, flags))
      else if level == 0 then None
      else TranslateFrom(tables, ppn * PAGE_SIZE, level - 1, va)
  }

  function Translate(tables: Tables, root: nat, va: nat): Option<(nat, nat)> {
    TranslateFrom(tables, root, 2, va)
  }

  /** Flags of a leaf: readable or executable, and not writable without being readable. */
  predicate LeafFlags(flags: nat) {
    HasV(flags) && (HasR(flags) || HasX(flags)) && (HasW(flags) ==> HasR(flags))
  }

  /** What a last-level entry translates `va` to. */
  function Target(e: nat, va: nat): Option<(nat, nat)> {
    if LeafFlags(PteFlags(e)) then Some((e / 1024 % 0x1000_0000_0000 * PAGE_SIZE + va % PAGE_SIZE, PteFlags(e)))
    else None
  }

  /** On a tree of unshared tables, translation reads exactly the last-level entry. */
  lemma TranslateIsLeaf(tables: Tables, root: nat, place: map<nat, Place>, va: nat)
    requires TreeOk(tables, root, place) && va < MAX_VA
    ensures var e := Leaf(tables, root, va / PAGE_SIZE);
      Translate(tables, root, va) == Target(e, va)
  {
    var vpn := va / PAGE_SIZE;
    BelowPlace(tables, root, place, root, vpn);
    PointerStep(tables, root, place, root, va);
    if Below(tables, root, 2, vpn).Some? {
      var t := Below(tables, root, 2, vpn).value;
      BelowPlace(tables, root, place, t, vpn);
      PointerStep(tables, root, place, t, va);
      if Below(tables, t, 1, vpn).Some? {
        LastStep(tables, Below(tables, t, 1, vpn).value, va);
      }
    }
    assert !LeafFlags(PteFlags(0));
  }

  /** Above the last level, translation follows the pointer or faults. */
  lemma PointerStep(tables: Tables, root: nat, place: map<nat, Place>, t: nat, va: nat)
    requires TreeOk(tables, root, place) && t in tables && 0 < place[t].level < 3
    ensures var l := place[t].level;
      match Below(tables, t, l, va / PAGE_SIZE)
      case None => TranslateFrom(tables, t, l, va) == None
      case Some(u) => TranslateFrom(tables, t, l, va) == TranslateFrom(tables, u, l - 1, va)
  {
    var l := place[t].level;
    var i := Px(l, va / PAGE_SIZE);
    assert EntryOk(tables, place, t, i);
    var e := tables[t][i];
    if IsValid(e) {
      PointerEntry(e);
    }
  }

  /** A pointer entry has no permission, and its page number fits the 44 bits of the format. */
  lemma PointerEntry(e: nat)
    requires PteFlags(e) == V && e < 0x40_0000_0000_0000
    ensures HasV(PteFlags(e)) && !HasR(PteFlags(e)) && !HasW(PteFlags(e)) && !HasX(PteFlags(e))
    ensures e / 1024 % 0x1000_0000_0000 * PAGE_SIZE == PtePa(e)
  {
  }

  lemma LastStep(tables: Tables, t: nat, va: nat)
    requires t in tables
    ensures var e := tables[t][Px(0, va / PAGE_SIZE)];
      TranslateFrom(tables, t, 0, va) == Target(e, va)
  {
  }

  // ----- the kernel's tables -----

  datatype Walked = Entry(table: nat, index: nat) | Missing | OutOfMemory

  datatype MapResult = Mapped | Remapped | NoMemory

  /** The entry of page `vpn` after `map` has put pages `from .. end` at `ppn` on, when it was `e`. */
  function MappedLeaf(e: nat, vpn: nat, from: nat, end: nat, ppn: nat, perm: nat): nat {
    if from <= vpn < end then NewPte((ppn + vpn - from) * PAGE_SIZE, WithV(perm)) else e
  }

  /** Hanging a table under an empty entry keeps every other step of a walk. */
  lemma GrowBelow(tables: Tables, t: nat, i: nat, page: nat, u: nat, level: nat, vpn: nat)
    requires t in tables && i < ENTRIES && tables[t][i] == 0 && page !in tables && level < 3
    requires Below(tables, u, level, vpn).Some?
    ensures Below(tables[page := EmptyTable()][t := tables[t][i := NewPte(page, V)]], u, level, vpn) ==
      Below(tables, u, level, vpn)
  {
  }

  // ----- frames -----

  /** Table `u` is where its place says: reached from the root for the first page it serves. */
  predicate Hung(tables: Tables, root: nat, p: Place, u: nat) {
    match p.level
    case 0 => LeafTable(tables, root, p.prefix * 512) == Some(u)
    case 1 => Below(tables, root, 2, p.prefix * 262144) == Some(u)
    case _ => u == root
  }

  /** No table is left over: every one is reached from the root, so no two serve the same pages. */
  ghost predicate Rooted(tables: Tables, root: nat, place: map<nat, Place>) {
    forall u :: u in place ==> Hung(tables, root, place[u], u)
  }

  /** The indices on the way to the first page served by entry `i` of a table with prefix `q`. */
  lemma FirstPageIndices(q: nat, i: nat)
    requires i < ENTRIES
    ensures Px(2, (q * 512 + i) * 512) == Px(2, q * 262144) && Px(1, (q * 512 + i) * 512) == i
    ensures Px(2, i * 262144) == i
  {
  }

  /** No table is reached through an empty entry. */
  lemma NoTableHere(tables: Tables, root: nat, p: Place, t: nat, i: nat, u: nat)
    requires t in tables && i < ENTRIES && tables[t][i] == 0 && Hung(tables, root, p, t)
    requires p == Place(2, 0) || p.level == 1
    ensures !Hung(tables, root, Place(p.level - 1, p.prefix * 512 + i), u)
  {
    FirstPageIndices(p.prefix, i);
    hide Px, PtePa;
    if p.level == 1 {
      var q := (p.prefix * 512 + i) * 512;
      assert Below(tables, root, 2, q) == Below(tables, root, 2, p.prefix * 262144) == Some(t);
      assert Below(tables, t, 1, q) == None;
    } else {
      assert Below(tables, root, 2, i * 262144) == None;
    }
  }

  /** The table hung under an entry is reached through it. */
  lemma NewTableHung(tables: Tables, root: nat, p: Place, t: nat, i: nat, page: nat)
    requires t in tables && i < ENTRIES && tables[t][i] == 0 && Hung(tables, root, p, t)
    requires p == Place(2, 0) || p.level == 1
    requires page !in tables && page % PAGE_SIZE == 0
    ensures Hung(tables[page := EmptyTable()][t := tables[t][i := NewPte(page, V)]], root,
                 Place(p.level - 1, p.prefix * 512 + i), page)
  {
    var tables1 := tables[page := EmptyTable()][t := tables[t][i := NewPte(page, V)]];
    PteRoundTrip(page, V);
    FirstPageIndices(p.prefix, i);
    hide Px, PtePa, NewPte, EmptyTable;
    if p.level == 1 {
      var q := (p.prefix * 512 + i) * 512;
      assert Below(tables, root, 2, q) == Below(tables, root, 2, p.prefix * 262144) == Some(t);
      GrowBelow(tables, t, i, page, root, 2, q);
      assert Below(tables1, t, 1, q) == Some(page);
    } else {
      assert Below(tables1, root, 2, i * 262144) == Some(page);
    }
  }

  lemma SameKeys(tables: Tables, root: nat, place: map<nat, Place>)
    requires TreeOk(tables, root, place)
    ensures place.Keys == tables.Keys
  {
  }

  /** A table above the last level is the root or in the middle. */
  lemma UpperPlace(tables: Tables, root: nat, place: map<nat, Place>, t: nat)
    requires TreeOk(tables, root, place) && Rooted(tables, root, place) && t in tables
    ensures t in place && Hung(tables, root, place[t], t)
    ensures 0 < place[t].level < 3 ==> place[t] == Place(2, 0) || place[t].level == 1
  {
    hide EntryOk;
    assert Hung(tables, root, place[t], t);
  }

  /** An empty entry has no table, so the place under it is free. */
  lemma NewPlace(tables: Tables, root: nat, place: map<nat, Place>, t: nat, i: nat)
    requires TreeOk(tables, root, place) && Rooted(tables, root, place)
    requires t in tables && 0 < place[t].level < 3 && i < ENTRIES && tables[t][i] == 0
    ensures Place(place[t].level - 1, place[t].prefix * 512 + i) !in place.Values
  {
    hide TreeOk, Hung;
    UpperPlace(tables, root, place, t);
    forall u | u in place
      ensures place[u] != Place(place[t].level - 1, place[t].prefix * 512 + i)
    {
      NoTableHere(tables, root, place[t], t, i, u);
    }
  }

  /** Hanging a table keeps every table reached. */
  lemma GrowRooted(tables: Tables, root: nat, place: map<nat, Place>, t: nat, i: nat, page: nat)
    requires TreeOk(tables, root, place) && Rooted(tables, root, place)
    requires t in tables && 0 < place[t].level < 3 && i < ENTRIES && tables[t][i] == 0
    requires page !in tables && page % PAGE_SIZE == 0
    ensures Rooted(tables[page := EmptyTable()][t := tables[t][i := NewPte(page, V)]], root,
                   place[page := Place(place[t].level - 1, place[t].prefix * 512 + i)])
  {
    hide TreeOk, Hung, NewPte, EmptyTable;
    UpperPlace(tables, root, place, t);
    var tables1 := tables[page := EmptyTable()][t := tables[t][i := NewPte(page, V)]];
    var place1 := place[page := Place(place[t].level - 1, place[t].prefix * 512 + i)];
    forall u | u in place1
      ensures Hung(tables1, root, place1[u], u)
    {
      if u == page {
        NewTableHung(tables, root, place[t], t, i, page);
      } else {
        GrowHung(tables, root, t, i, page, place[u], u);
      }
    }
  }

  lemma GrowHung(tables: Tables, root: nat, t: nat, i: nat, page: nat, p: Place, u: nat)
    requires t in tables && i < ENTRIES && tables[t][i] == 0 && page !in tables && Hung(tables, root, p, u)
    ensures Hung(tables[page := EmptyTable()][t := tables[t][i := NewPte(page, V)]], root, p, u)
  {
    if p.level == 1 {
      GrowBelow(tables, t, i, page, root, 2, p.prefix * 262144);
    } else if p.level == 0 {
      GrowBelow(tables, t, i, page, root, 2, p.prefix * 512);
      GrowBelow(tables, t, i, page, Below(tables, root, 2, p.prefix * 512).value, 1, p.prefix * 512);
    }
  }

  /** The tables a walk for page `vpn` needs below the root. */
  function Need(vpn: nat): set<Place> {
    {Place(1, vpn / 262144), Place(0, vpn / 512)}
  }

  /** The tables that pages `from .. end` need. */
  function NeedRange(from: nat, end: nat): set<Place>
    requires from <= end
    decreases end
  {
    if from == end then {} else NeedRange(from, end - 1) + Need(end - 1)
  }

  /** The places of a level from `lo` up to `hi`. */
  function Places(level: nat, lo: nat, hi: nat): (s: set<Place>)
    requires lo <= hi
    ensures forall x :: x in s <==> x.level == level && lo <= x.prefix < hi
    decreases hi
  {
    if lo == hi then {} else Places(level, lo, hi - 1) + {Place(level, hi - 1)}
  }

  lemma {:induction false} PlacesCard(level: nat, lo: nat, hi: nat)
    requires lo <= hi
    ensures |Places(level, lo, hi)| == hi - lo
    decreases hi
  {
    if lo < hi {
      PlacesCard(level, lo, hi - 1);
      var s, x := Places(level, lo, hi - 1), Place(level, hi - 1);
      assert Places(level, lo, hi) == s + {x} && x !in s;
      hide Places;
    }
  }

  lemma ValuesAdd(place: map<nat, Place>, page: nat, x: Place)
    requires page !in place && x !in place.Values
    ensures place[page := x].Values == place.Values + {x} && |place[page := x].Values| == |place.Values| + 1
  {
    var next := place[page := x];
    forall y | y in place.Values + {x}
      ensures y in next.Values
    {
      if y == x {
        assert next[page] == x;
      } else {
        var u :| u in place && place[u] == y;
        assert next[u] == y;
      }
    }
    assert next.Values == place.Values + {x};
  }

  /** One table per 512 pages the range meets, and one more per 262144. */
  function RangePlaces(from: nat, end: nat): set<Place>
    requires from < end
  {
    Places(0, from / 512, (end - 1) / 512 + 1) + Places(1, from / 262144, (end - 1) / 262144 + 1)
  }

  lemma OnePlace(p: nat)
    ensures RangePlaces(p, p + 1) == Need(p)
  {
    var a, b := p / 512, p / 262144;
    assert Places(0, a, a + 1) == {Place(0, a)};
    assert Places(1, b, b + 1) == {Place(1, b)};
  }

  lemma NextPlaces(from: nat, p: nat)
    requires from < p
    ensures RangePlaces(from, p + 1) == RangePlaces(from, p) + Need(p)
  {
    AddPlace(0, from / 512, (p - 1) / 512, p / 512);
    AddPlace(1, from / 262144, (p - 1) / 262144, p / 262144);
    hide Places;
  }

  lemma AddPlace(level: nat, lo: nat, a: nat, b: nat)
    requires lo <= a && (b == a || b == a + 1)
    ensures Places(level, lo, b + 1) == Places(level, lo, a + 1) + {Place(level, b)}
  {
  }

  lemma {:induction false} NeedRangeIs(from: nat, end: nat)
    requires from < end
    ensures NeedRange(from, end) == RangePlaces(from, end)
    decreases end
  {
    hide RangePlaces, Need;
    if from + 1 == end {
      OnePlace(from);
      assert NeedRange(from, from) == {};
    } else {
      NeedRangeIs(from, end - 1);
      NextPlaces(from, end - 1);
    }
  }

  /** The pages to come are different frames that are not tables yet. */
  predicate PoolOk(tables: Tables, pool: seq<nat>) {
    && (forall i :: 0 <= i < |pool| ==>
          pool[i] !in tables && pool[i] % PAGE_SIZE == 0 && pool[i] < 0x100_0000_0000_0000)
    && (forall i, j :: 0 <= i < j < |pool| ==> pool[i] != pool[j])
  }

  /** Frames have left the pool from the front, and exactly these are new tables. */
  ghost predicate FromPool(t0: Tables, pool0: seq<nat>, t1: Tables, pool1: seq<nat>) {
    && |pool1| <= |pool0|
    && var n := |pool0| - |pool1|;
    && pool1 == pool0[n..] && forall a :: a in t1 <==> a in t0 || a in pool0[..n]
  }

  lemma NoneTaken(t0: Tables, t1: Tables, pool: seq<nat>)
    requires t1.Keys == t0.Keys
    ensures FromPool(t0, pool, t1, pool)
  {
    assert forall a :: a in t1.Keys <==> a in t0.Keys;
  }

  lemma OneTaken(t0: Tables, pool: seq<nat>, t1: Tables)
    requires pool != [] && t1.Keys == t0.Keys + {pool[0]}
    ensures FromPool(t0, pool, t1, pool[1..])
  {
    assert pool[..1] == [pool[0]];
    assert forall a :: a in t1.Keys <==> a in t0.Keys || a == pool[0];
  }

  lemma TakenTwice(t0: Tables, pool0: seq<nat>, t1: Tables, pool1: seq<nat>, t2: Tables, pool2: seq<nat>)
    requires FromPool(t0, pool0, t1, pool1) && FromPool(t1, pool1, t2, pool2)
    ensures FromPool(t0, pool0, t2, pool2)
  {
    var n, m := |pool0| - |pool1|, |pool1| - |pool2|;
    assert pool0[..n + m] == pool0[..n] + pool1[..m];
    assert pool0[n + m..] == pool1[m..];
  }

  lemma PoolTail(tables: Tables, pool: seq<nat>, next: Tables)
    requires PoolOk(tables, pool) && pool != [] && next.Keys == tables.Keys + {pool[0]}
    ensures PoolOk(next, pool[1..])
  {
  }

  /** A tree of unshared tables, all reached from the root, and a pool of other frames. */
  ghost predicate SpaceOk(tables: Tables, root: nat, place: map<nat, Place>, pool: seq<nat>) {
    TreeOk(tables, root, place) && Rooted(tables, root, place) && PoolOk(tables, pool)
  }

  ghost predicate SameLeaves(before: Tables, after: Tables, root: nat) {
    forall vpn: nat :: PageNumber(vpn) ==> Leaf(after, root, vpn) == Leaf(before, root, vpn)
  }

  /** The leaf of page `vpn` is `e` now, and no other leaf differs. */
  ghost predicate OneLeaf(before: Tables, after: Tables, root: nat, vpn: nat, e: nat) {
    forall p: nat :: PageNumber(p) ==> Leaf(after, root, p) == if p == vpn then e else Leaf(before, root, p)
  }

  lemma OneLeafAfter(t0: Tables, t1: Tables, t2: Tables, root: nat, vpn: nat, e: nat)
    requires SameLeaves(t0, t1, root) && OneLeaf(t1, t2, root, vpn, e)
    ensures OneLeaf(t0, t2, root, vpn, e)
  {
  }

  lemma LeafSame(t0: Tables, t1: Tables, root: nat, vpn: nat)
    requires SameLeaves(t0, t1, root) && PageNumber(vpn)
    ensures Leaf(t1, root, vpn) == Leaf(t0, root, vpn)
  {
  }

  /** Hanging the first frame of the pool under an empty entry. */
  lemma HangStep(tables: Tables, root: nat, place: map<nat, Place>, pool: seq<nat>, t: nat, i: nat)
    requires SpaceOk(tables, root, place, pool) && pool != []
    requires t in tables && t in place && 0 < place[t].level < 3 && i < ENTRIES && tables[t][i] == 0
    ensures var tables1 := tables[pool[0] := EmptyTable()][t := tables[t][i := NewPte(pool[0], V)]];
      var x := Place(place[t].level - 1, place[t].prefix * 512 + i);
      && pool[0] !in tables && pool[0] % PAGE_SIZE == 0
      && SpaceOk(tables1, root, place[pool[0] := x], pool[1..]) && SameLeaves(tables, tables1, root)
      && place[pool[0] := x].Values == place.Values + {x} && |place[pool[0] := x].Values| == |place.Values| + 1
  {
    hide TreeOk, Rooted, Leaf, NewPte, EmptyTable;
    UpperPlace(tables, root, place, t);
    SameKeys(tables, root, place);
    var page := pool[0];
    GrowTree(tables, root, place, t, i, page);
    GrowRooted(tables, root, place, t, i, page);
    NewPlace(tables, root, place, t, i);
    ValuesAdd(place, page, Place(place[t].level - 1, place[t].prefix * 512 + i));
    PoolTail(tables, pool, tables[page := EmptyTable()][t := tables[t][i := NewPte(page, V)]]);
  }

  /** What `SpaceOk` says of one entry above the last level. */
  lemma EntryCase(tables: Tables, root: nat, place: map<nat, Place>, pool: seq<nat>, t: nat, i: nat)
    requires SpaceOk(tables, root, place, pool) && t in tables && i < ENTRIES
    ensures t in place && EntryOk(tables, place, t, i)
    ensures 0 < place[t].level < 3 && tables[t][i] == 0 ==>
      Place(place[t].level - 1, place[t].prefix * 512 + i) !in place.Values
  {
    if 0 < place[t].level < 3 && tables[t][i] == 0 {
      NewPlace(tables, root, place, t, i);
    }
  }

  /** The place of the table a walk for `vpn` meets at a level. */
  function PlaceAt(level: nat, vpn: nat): Place {
    if level == 2 then Place(2, 0) else if level == 1 then Place(1, vpn / 262144) else Place(0, vpn / 512)
  }

  /** The index into a table is what its prefix leaves of the page number. */
  lemma PxIsRest(level: nat, vpn: nat)
    requires PageNumber(vpn) && 0 < level < 3
    ensures Place(level - 1, PlaceAt(level, vpn).prefix * 512 + Px(level, vpn)) == PlaceAt(level - 1, vpn)
  {
  }

  /** Writing the last-level entry of a page changes that leaf only. */
  lemma LeafStep(tables: Tables, root: nat, place: map<nat, Place>, pool: seq<nat>, vpn: nat, t: nat, e: nat)
    requires SpaceOk(tables, root, place, pool) && PageNumber(vpn) && IsValid(e)
    requires t in tables && t in place && place[t].level == 0 && LeafTable(tables, root, vpn) == Some(t)
    ensures var tables1 := tables[t := tables[t][vpn % 512 := e]];
      && SpaceOk(tables1, root, place, pool)
      && OneLeaf(tables, tables1, root, vpn, e)
  {
    var tables1 := tables[t := tables[t][vpn % 512 := e]];
    forall p: nat | PageNumber(p)
      ensures Leaf(tables1, root, p) == if p == vpn then e else Leaf(tables, root, p)
      ensures TreeOk(tables1, root, place)
    {
      LeafWrite(tables, root, place, t, vpn % 512, e, p);
      LeafPlace(tables, root, place, p);
      LeafPlace(tables, root, place, vpn);
    }
    assert PageNumber(0);
    forall u | u in place
      ensures Hung(tables1, root, place[u], u)
    {
      LeafWriteHung(tables, root, place, t, vpn % 512, e, u);
    }
  }

  /** A walk to a table reads no last-level entry. */
  lemma LeafWriteHung(tables: Tables, root: nat, place: map<nat, Place>, t: nat, i: nat, e: nat, u: nat)
    requires TreeOk(tables, root, place) && t in tables && place[t].level == 0 && i < ENTRIES
    requires u in place && Hung(tables, root, place[u], u)
    ensures Hung(tables[t := tables[t][i := e]], root, place[u], u)
  {
    if place[u].level == 0 {
      var m := Below(tables, root, 2, place[u].prefix * 512).value;
      assert EntryOk(tables, place, root, Px(2, place[u].prefix * 512));
      assert place[m].level == 1;
    }
  }

  lemma {:induction false} NeedMore(from: nat, p: nat, end: nat)
    requires from <= p < end
    ensures NeedRange(from, p + 1) == NeedRange(from, p) + Need(p)
    ensures NeedRange(from, p) + Need(p) <= NeedRange(from, end)
    decreases end
  {
    hide Need;
    if p + 1 < end {
      NeedMore(from, p, end - 1);
    }
  }

  /** With all frames accounted for, the pool ran out exactly if tables are missing. */
  lemma FramesLeft(before: set<Place>, after: set<Place>, need: set<Place>, had: nat, have: nat)
    requires before <= after <= before + need && had + |before| == have + |after|
    ensures need <= after ==> |need - before| <= had
    ensures !(need <= after) && have == 0 ==> had < |need - before|
  {
    assert after == before + (after - before) && |after| == |before| + |after - before|;
    if need <= after {
      assert need - before == after - before;
    } else {
      var x :| x in need && x !in after;
      assert (after - before) + {x} <= need - before;
      SubsetCard((after - before) + {x}, need - before);
    }
  }

  lemma MorePlaces(before: set<Place>, mid: set<Place>, after: set<Place>, from: nat, p: nat)
    requires from <= p && mid == before + NeedRange(from, p) && mid <= after <= mid + Need(p) && Need(p) <= after
    ensures after == before + NeedRange(from, p + 1)
  {
    hide Need;
  }

  lemma SettledAll(before: set<Place>, after: set<Place>, from: nat, end: nat, had: nat, have: nat)
    requires from <= end && Supplied(before, after, from, end, had, have)
    ensures forall r: MapResult :: r != NoMemory ==> Settled(before, after, from, end, had, r)
  {
    hide NeedRange;
    FramesLeft(before, after, NeedRange(from, end), had, have);
  }

  /** The tables that `places` needs more than `before` have come from the pool. */
  ghost predicate Supplied(before: set<Place>, places: set<Place>, from: nat, p: nat, had: nat, have: nat)
    requires from <= p
  {
    places == before + NeedRange(from, p) && had + |before| == have + |places|
  }

  /** Where the frames stand when mapping pages from `from` on stops, page `reach - 1` being the last one
      looked at: the pool had enough for all tables these pages need, or fewer. */
  ghost predicate Settled(before: set<Place>, places: set<Place>, from: nat, reach: nat, had: nat, r: MapResult)
    requires from <= reach
  {
    && before <= places <= before + NeedRange(from, reach)
    && (r != NoMemory ==> places == before + NeedRange(from, reach))
    && (r == NoMemory <==> had < |NeedRange(from, reach) - before|)
  }

  /** Where the frames stand after one page: the tables it needs are there unless the pool is empty. */
  ghost predicate PageSettled(before: set<Place>, places: set<Place>, vpn: nat, have: nat, r: MapResult) {
    && before <= places <= before + Need(vpn)
    && (r != NoMemory ==> Need(vpn) <= places)
    && (r == NoMemory ==> have == 0 && !(Need(vpn) <= places))
  }

  lemma NothingSupplied(places: set<Place>, from: nat, had: nat)
    ensures Supplied(places, places, from, from, had, had)
  {
    assert NeedRange(from, from) == {};
  }

  lemma SuppliedMore(before: set<Place>, mid: set<Place>, after: set<Place>, from: nat, p: nat,
                     had: nat, left: nat, have: nat, r: MapResult)
    requires from <= p && Supplied(before, mid, from, p, had, left) && left + |mid| == have + |after|
    requires r != NoMemory && PageSettled(mid, after, p, have, r)
    ensures Supplied(before, after, from, p + 1, had, have)
  {
    MorePlaces(before, mid, after, from, p);
  }

  lemma SettledEarly(before: set<Place>, mid: set<Place>, after: set<Place>, from: nat, p: nat,
                     had: nat, left: nat, have: nat, r: MapResult)
    requires from <= p && Supplied(before, mid, from, p, had, left) && left + |mid| == have + |after|
    requires PageSettled(mid, after, p, have, r)
    ensures Settled(before, after, from, p + 1, had, r)
  {
    hide Need, NeedRange;
    NeedMore(from, p, p + 1);
    if r == NoMemory {
      FramesLeft(before, after, NeedRange(from, p + 1), had, have);
    } else {
      SuppliedMore(before, mid, after, from, p, had, left, have, r);
      SettledAll(before, after, from, p + 1, had, have);
    }
  }

  lemma {:induction false} SubsetCard(a: set<Place>, b: set<Place>)
    requires a <= b
    ensures |a| <= |b|
  {
    if a != {} {
      var x :| x in a;
      SubsetCard(a - {x}, b - {x});
    }
  }

  /** Pages `from .. done`, empty in `before`, are mapped to the frames from `ppn` on in `after`; no
      other leaf differs. */
  ghost predicate RangeMapped(before: Tables, after: Tables, root: nat, from: nat, done: nat, ppn: nat, perm: nat) {
    && (forall p: nat :: PageNumber(p) ==>
          Leaf(after, root, p) == MappedLeaf(Leaf(before, root, p), p, from, done, ppn, perm))
    && (forall p: nat :: from <= p < done ==> !IsValid(Leaf(before, root, p)))
  }

  lemma NothingMapped(tables: Tables, root: nat, from: nat, ppn: nat, perm: nat)
    ensures RangeMapped(tables, tables, root, from, from, ppn, perm)
  {
  }

  lemma OneMoreMapped(t0: Tables, t1: Tables, t2: Tables, root: nat, from: nat, done: nat, ppn: nat, perm: nat)
    requires RangeMapped(t0, t1, root, from, done, ppn, perm) && from <= done && PageNumber(done)
    requires !IsValid(Leaf(t1, root, done))
    requires OneLeaf(t1, t2, root, done, NewPte((ppn + (done - from)) * PAGE_SIZE, WithV(perm)))
    ensures RangeMapped(t0, t2, root, from, done + 1, ppn, perm)
  {
    hide Leaf, NewPte;
  }

  lemma StillMapped(t0: Tables, t1: Tables, t2: Tables, root: nat, from: nat, done: nat, ppn: nat, perm: nat)
    requires RangeMapped(t0, t1, root, from, done, ppn, perm) && from <= done && PageNumber(done)
    requires SameLeaves(t1, t2, root)
    ensures RangeMapped(t0, t2, root, from, done, ppn, perm) && Leaf(t1, root, done) == Leaf(t0, root, done)
  {
    hide Leaf, NewPte;
  }

  lemma RootPlace(tables: Tables, root: nat, place: map<nat, Place>, pool: seq<nat>)
    requires SpaceOk(tables, root, place, pool)
    ensures root in tables && root in place && place[root] == Place(2, 0)
  {
  }

  lemma LeavesTwice(t0: Tables, t1: Tables, t2: Tables, root: nat)
    requires SameLeaves(t0, t1, root) && SameLeaves(t1, t2, root)
    ensures SameLeaves(t0, t2, root)
  {
  }

  lemma LeavesStay(tables: Tables, root: nat)
    ensures SameLeaves(tables, tables, root)
  {
  }

  class AddressSpace {
    var tables: Tables
    const root: nat
    /** Addresses of the pages `new_zeroed` will return. */
    var pool: seq<nat>
    ghost var place: map<nat, Place>

    ghost predicate Valid()
      reads this
    {
      SpaceOk(tables, root, place, pool)
    }

    /** Frames in the pool and in tables together. */
    ghost function Frames(): nat
      reads this
    {
      |pool| + |place.Values|
    }

    constructor (root: nat, pool: seq<nat>)
      requires root % PAGE_SIZE == 0 && root < 0x100_0000_0000_0000
      requires forall i ::
        0 <= i < |pool| ==> pool[i] != root && pool[i] % PAGE_SIZE == 0 && pool[i] < 0x100_0000_0000_0000
      requires forall i, j :: 0 <= i < j < |pool| ==> pool[i] != pool[j]
      ensures Valid() && this.root == root && this.pool == pool && tables == map[root := EmptyTable()]
      ensures place.Values == {Place(2, 0)} && Frames() == |pool| + 1
      ensures forall vpn: nat :: PageNumber(vpn) ==> Leaf(tables, root, vpn) == 0
    {
      this.root, this.pool := root, pool;
      tables := map[root := EmptyTable()];
      place := map[root := Place(2, 0)];
      new;
      assert place[root] == Place(2, 0);
      assert place.Values == {Place(2, 0)};
    }

    /** Takes a zeroed page and makes it the table under entry `i` of table `t`. */
    method Hang(t: nat, i: nat) returns (page: nat)
      requires Valid() && pool != [] && t in tables && t in place
      requires 0 < place[t].level < 3 && i < ENTRIES && tables[t][i] == 0
      modifies this
      ensures Valid() && page in tables && page !in old(tables) && page % PAGE_SIZE == 0
      ensures page == old(pool)[0] && pool == old(pool)[1..]
      ensures SameLeaves(old(tables), tables, root) && Frames() == old(Frames())
      ensures place == old(place)[page := Place(old(place)[t].level - 1, old(place)[t].prefix * 512 + i)]
      ensures place.Values == old(place.Values) + {Place(old(place)[t].level - 1, old(place)[t].prefix * 512 + i)}
      ensures tables == old(tables)[page := EmptyTable()][t := old(tables)[t][i := NewPte(page, V)]]
    {
      hide SpaceOk, SameLeaves, NewPte, EmptyTable;
      HangStep(tables, root, place, pool, t, i);
      page := pool[0];
      pool := pool[1..];
      tables := tables[page := EmptyTable()][t := tables[t][i := NewPte(page, V)]];
      place := place[page := Place(place[t].level - 1, place[t].prefix * 512 + i)];
    }

    /** Hangs a new table for `vpn` below the table of a level. */
    method Extend(t: nat, level: nat, vpn: nat) returns (page: nat)
      requires Valid() && pool != [] && PageNumber(vpn) && t in tables && t in place && 0 < level < 3
      requires place[t] == PlaceAt(level, vpn) && tables[t][Px(level, vpn)] == 0
      modifies this
      ensures Valid() && SameLeaves(old(tables), tables, root) && Frames() == old(Frames())
      ensures page in tables && page in place && place[page] == PlaceAt(level - 1, vpn)
      ensures Below(tables, t, level, vpn) == Some(page)
      ensures old(Below(tables, root, 2, vpn)).Some? ==> Below(tables, root, 2, vpn) == old(Below(tables, root, 2, vpn))
      ensures place.Values == old(place.Values) + {PlaceAt(level - 1, vpn)}
      ensures page == old(pool)[0] && pool == old(pool)[1..] && FromPool(old(tables), old(pool), tables, pool)
    {
      hide Valid, SpaceOk, SameLeaves, Px, EmptyTable, FromPool;
      PxIsRest(level, vpn);
      ghost var before := tables;
      page := Hang(t, Px(level, vpn));
      OneTaken(before, old(pool), tables);
      PteRoundTrip(page, V);
      if Below(before, root, 2, vpn).Some? {
        GrowBelow(before, t, Px(level, vpn), page, root, 2, vpn);
      }
      hide PtePa, NewPte;
    }

    /** The entry for `vpn` in the table of a level: empty, or the table below. */
    lemma EntryHere(t: nat, level: nat, vpn: nat)
      requires Valid() && PageNumber(vpn) && t in tables && t in place && 0 < level < 3
      requires place[t] == PlaceAt(level, vpn)
      ensures var pte := tables[t][Px(level, vpn)];
        if IsValid(pte) then
          && Below(tables, t, level, vpn) == Some(PtePa(pte))
          && PtePa(pte) in tables && PtePa(pte) in place && place[PtePa(pte)] == PlaceAt(level - 1, vpn)
        else pte == 0 && Below(tables, t, level, vpn) == None && PlaceAt(level - 1, vpn) !in place.Values
    {
      hide SpaceOk;
      EntryCase(tables, root, place, pool, t, Px(level, vpn));
      PxIsRest(level, vpn);
      hide Px;
    }

    /** One level of `walk`: follows the entry for `vpn`, or hangs a new table under it. */
    method Descend(t: nat, level: nat, vpn: nat, alloc: bool) returns (r: Walked)
      requires Valid() && PageNumber(vpn) && t in tables && t in place && 0 < level < 3
      requires place[t] == PlaceAt(level, vpn)
      modifies this
      ensures Valid() && SameLeaves(old(tables), tables, root)
      ensures !alloc ==> tables == old(tables) && place == old(place) && pool == old(pool)
      ensures r.Entry? ==> r.table in tables && r.table in place && place[r.table] == PlaceAt(level - 1, vpn)
      ensures r.Entry? ==> Below(tables, t, level, vpn) == Some(r.table)
      ensures old(Below(tables, root, 2, vpn)).Some? ==> Below(tables, root, 2, vpn) == old(Below(tables, root, 2, vpn))
      ensures r == Missing <==> !alloc && Below(tables, t, level, vpn) == None
      ensures r == OutOfMemory ==>
        alloc && pool == [] && place == old(place) && PlaceAt(level - 1, vpn) !in place.Values
      ensures Frames() == old(Frames())
      ensures place.Values == old(place.Values) || place.Values == old(place.Values) + {PlaceAt(level - 1, vpn)}
      ensures FromPool(old(tables), old(pool), tables, pool)
    {
      hide Valid, SameLeaves, Px, EntryOk, FromPool;
      NoneTaken(tables, tables, pool);
      var i := Px(level, vpn);
      var pte := tables[t][i];
      EntryHere(t, level, vpn);
      LeavesStay(tables, root);
      hide Below, PlaceAt;
      if IsValid(pte) {
        return Entry(PtePa(pte), 0);
      }
      if !alloc {
        return Missing;
      }
      if pool == [] {
        return OutOfMemory;
      }
      var page := Extend(t, level, vpn);
      r := Entry(page, 0);
    }

    /** `walk`: the place of the last-level entry for `va`. Tables are added on the way when `alloc`
        is set: exactly those the page needs, unless the frames run out. No leaf changes. */
    method Walk(va: nat, alloc: bool) returns (r: Walked)
      requires Valid() && va < MAX_VA
      modifies this
      ensures Valid() && SameLeaves(old(tables), tables, root)
      ensures !alloc ==> tables == old(tables) && place == old(place) && pool == old(pool)
      ensures r.Entry? ==> r.table in tables && r.table in place && place[r.table].level == 0
      ensures r.Entry? ==> r.index == va / PAGE_SIZE % 512
      ensures r.Entry? ==> LeafTable(tables, root, va / PAGE_SIZE) == Some(r.table)
      ensures r == Missing <==> !alloc && LeafTable(tables, root, va / PAGE_SIZE) == None
      ensures Frames() == old(Frames())
      ensures old(place.Values) <= place.Values <= old(place.Values) + Need(va / PAGE_SIZE)
      ensures r.Entry? ==> Need(va / PAGE_SIZE) <= place.Values
      ensures r == OutOfMemory ==> alloc && pool == [] && !(Need(va / PAGE_SIZE) <= place.Values)
      ensures FromPool(old(tables), old(pool), tables, pool)
    {
      var vpn := va / PAGE_SIZE;
      RootPlace(tables, root, place, pool);
      LeavesStay(tables, root);
      assert Need(vpn) == {PlaceAt(1, vpn), PlaceAt(0, vpn)} && PlaceAt(0, vpn).level == 0;
      NoneTaken(tables, tables, pool);
      hide Valid, SpaceOk, SameLeaves, Leaf, Need, Below, FromPool;
      var table := root;
      var level := 2;
      while level > 0
        invariant 0 <= level <= 2 && Valid() && table in tables && table in place && place[table] == PlaceAt(level, vpn)
        invariant SameLeaves(old(tables), tables, root) && Frames() == old(Frames())
        invariant !alloc ==> tables == old(tables) && place == old(place) && pool == old(pool)
        invariant level == 2 ==> table == root
        invariant level == 1 ==> Below(tables, root, 2, vpn) == Some(table)
        invariant level == 0 ==> LeafTable(tables, root, vpn) == Some(table)
        invariant old(place.Values) <= place.Values <= old(place.Values) + Need(vpn)
        invariant level < 2 ==> PlaceAt(1, vpn) in place.Values
        invariant level == 0 ==> PlaceAt(0, vpn) in place.Values
        invariant FromPool(old(tables), old(pool), tables, pool)
      {
        ghost var before, left := tables, pool;
        r := Descend(table, level, vpn, alloc);
        TakenTwice(old(tables), old(pool), before, left, tables, pool);
        LeavesTwice(old(tables), before, tables, root);
        if !r.Entry? {
          return;
        }
        assert place[r.table] in place.Values;
        table := r.table;
        level := level - 1;
      }
      r := Entry(table, Px(0, vpn));
    }

    /** `map`: maps the pages from `va` rounded down on to those from `pa` rounded down on. It stops
        before page `done`, which is past the range unless that page is mapped already, where the
        source panics, or the pool has fewer frames than tables are missing. */
    method Map(va0: nat, pa0: nat, size: nat, perm: nat) returns (r: MapResult, ghost done: nat)
      requires Valid() && size > 0 && perm < 256 && RoundUp(RoundDown(va0) + size) <= MAX_VA
      modifies this
      ensures Valid() && Frames() == old(Frames())
      ensures var from, end := va0 / PAGE_SIZE, RoundUp(RoundDown(va0) + size) / PAGE_SIZE;
        && from <= done <= end && (r == Mapped <==> done == end)
        && RangeMapped(old(tables), tables, root, from, done, pa0 / PAGE_SIZE, perm)
        && (r == Remapped ==> IsValid(old(Leaf(tables, root, done))))
        && Settled(old(place.Values), place.Values, from, if r == Mapped then end else done + 1, |old(pool)|, r)
      ensures FromPool(old(tables), old(pool), tables, pool)
    {
      hide Valid, SpaceOk, Leaf, Settled, RangeMapped, FromPool;
      var va, pa := RoundDown(va0), RoundDown(pa0);
      var end := RoundUp(va + size);
      r, done := MapPages(va, pa, end, perm, va0 / PAGE_SIZE, end / PAGE_SIZE, pa0 / PAGE_SIZE);
    }

    /** The loop of `map`. */
    method MapPages(va0: nat, pa0: nat, end: nat, perm: nat, ghost from: nat, ghost last: nat, ghost ppn: nat)
        returns (r: MapResult, ghost done: nat)
      requires Valid() && perm < 256 && from < last && last * PAGE_SIZE <= MAX_VA
      requires va0 == from * PAGE_SIZE && end == last * PAGE_SIZE && pa0 == ppn * PAGE_SIZE
      modifies this
      ensures Valid() && Frames() == old(Frames())
      ensures from <= done <= last && (r == Mapped <==> done == last)
      ensures RangeMapped(old(tables), tables, root, from, done, ppn, perm)
      ensures r == Remapped ==> IsValid(old(Leaf(tables, root, done)))
      ensures Settled(old(place.Values), place.Values, from, if r == Mapped then last else done + 1, |old(pool)|, r)
      ensures FromPool(old(tables), old(pool), tables, pool)
    {
      hide Valid, SpaceOk, Leaf, RangeMapped, Supplied, Settled, Frames, FromPool;
      NoneTaken(tables, tables, pool);
      ghost var before, places, had := tables, place.Values, |pool|;
      var va, pa := va0, pa0;
      done := from;
      NothingMapped(tables, root, from, ppn, perm);
      NothingSupplied(places, from, had);
      while va != end
        invariant from <= done <= last && va == done * PAGE_SIZE && pa == (ppn + (done - from)) * PAGE_SIZE
        invariant Valid() && Frames() == old(Frames())
        invariant RangeMapped(before, tables, root, from, done, ppn, perm)
        invariant Supplied(places, place.Values, from, done, had, |pool|)
        invariant FromPool(old(tables), old(pool), tables, pool)
        decreases end - va
      {
        ghost var now, left := tables, pool;
        r := MapNext(va, pa, perm, before, places, had, from, done, last, ppn);
        TakenTwice(old(tables), old(pool), now, left, tables, pool);
        if r != Mapped {
          return;
        }
        va, pa, done := va + PAGE_SIZE, pa + PAGE_SIZE, done + 1;
      }
      SettledAll(places, place.Values, from, last, had, |pool|);
      r := Mapped;
    }

    /** One round of `map` after pages `from .. p` have been mapped. */
    method MapNext(va: nat, pa: nat, perm: nat, ghost before: Tables, ghost places: set<Place>, ghost had: nat,
                   ghost from: nat, ghost p: nat, ghost last: nat, ghost ppn: nat) returns (r: MapResult)
      requires Valid() && perm < 256 && from <= p < last && va == p * PAGE_SIZE < MAX_VA
      requires pa == (ppn + (p - from)) * PAGE_SIZE
      requires RangeMapped(before, tables, root, from, p, ppn, perm)
      requires Supplied(places, place.Values, from, p, had, |pool|)
      modifies this
      ensures Valid() && Frames() == old(Frames())
      ensures RangeMapped(before, tables, root, from, if r == Mapped then p + 1 else p, ppn, perm)
      ensures r == Mapped ==> Supplied(places, place.Values, from, p + 1, had, |pool|)
      ensures r != Mapped ==> Settled(places, place.Values, from, p + 1, had, r)
      ensures r == Remapped ==> IsValid(Leaf(before, root, p))
      ensures FromPool(old(tables), old(pool), tables, pool)
    {
      hide Valid, SpaceOk, Leaf, SameLeaves, OneLeaf, RangeMapped, NewPte, Supplied, Settled, PageSettled, FromPool;
      ghost var now, mid, left := tables, place.Values, |pool|;
      r := MapPage(va, pa, perm);
      if r != Mapped {
        StillMapped(before, now, tables, root, from, p, ppn, perm);
        SettledEarly(places, mid, place.Values, from, p, had, left, |pool|, r);
      } else {
        OneMoreMapped(before, now, tables, root, from, p, ppn, perm);
        SuppliedMore(places, mid, place.Values, from, p, had, left, |pool|, r);
      }
    }

    /** Maps one page. */
    method MapPage(va: nat, pa: nat, perm: nat) returns (r: MapResult)
      requires Valid() && va % PAGE_SIZE == 0 && va < MAX_VA && perm < 256
      modifies this
      ensures Valid() && Frames() == old(Frames())
      ensures r == Mapped ==> !IsValid(old(Leaf(tables, root, va / PAGE_SIZE)))
      ensures r == Mapped ==> OneLeaf(old(tables), tables, root, va / PAGE_SIZE, NewPte(pa, WithV(perm)))
      ensures r == Remapped ==> IsValid(old(Leaf(tables, root, va / PAGE_SIZE)))
      ensures r != Mapped ==> SameLeaves(old(tables), tables, root)
      ensures PageSettled(old(place.Values), place.Values, va / PAGE_SIZE, |pool|, r)
      ensures FromPool(old(tables), old(pool), tables, pool)
    {
      hide Valid, SpaceOk, Leaf, Need, NewPte, LeafTable, SameLeaves, OneLeaf, FromPool;
      ghost var before := tables;
      var e := Walk(va, true);
      ghost var walked := tables;
      LeafSame(before, walked, root, va / PAGE_SIZE);
      if e.OutOfMemory? {
        return NoMemory;
      }
      PteRoundTrip(pa, WithV(perm));
      r := SetLeaf(va / PAGE_SIZE, e.table, e.index, NewPte(pa, WithV(perm)));
      NoneTaken(walked, tables, pool);
      TakenTwice(before, old(pool), walked, pool, tables, pool);
      if r == Mapped {
        OneLeafAfter(before, walked, tables, root, va / PAGE_SIZE, NewPte(pa, WithV(perm)));
      }
    }

    /** Writes the last-level entry of page `vpn`, which a walk has found, unless it is valid. */
    method SetLeaf(vpn: nat, t: nat, i: nat, e: nat) returns (r: MapResult)
      requires Valid() && PageNumber(vpn) && i == vpn % 512 && IsValid(e)
      requires t in tables && t in place && place[t].level == 0 && LeafTable(tables, root, vpn) == Some(t)
      modifies this`tables
      ensures Valid()
      ensures r == Remapped <==> IsValid(old(Leaf(tables, root, vpn)))
      ensures r == Remapped ==> tables == old(tables)
      ensures tables.Keys == old(tables.Keys)
      ensures r != Remapped ==> r == Mapped && OneLeaf(old(tables), tables, root, vpn, e)
    {
      if IsValid(tables[t][i]) {
        return Remapped;
      }
      LeafStep(tables, root, place, pool, vpn, t, e);
      hide Valid, SpaceOk, Leaf;
      tables := tables[t := tables[t][i := e]];
      r := Mapped;
    }
  }

  /** `map` takes the end from the rounded start, so it reaches the end of the requested range
      exactly when the range does not cross one more page boundary than its length needs. */
  lemma MapCoversIff(va: nat, size: nat)
    requires size > 0
    ensures va + size <= RoundUp(RoundDown(va) + size) <==> va % PAGE_SIZE + (size - 1) % PAGE_SIZE < PAGE_SIZE
  {
  }

  lemma PageNumberFits(pa: nat, flags: nat)
    requires pa % PAGE_SIZE == 0 && pa < 0x100_0000_0000_0000 && flags < 256
    ensures NewPte(pa, flags) / 1024 % 0x1000_0000_0000 * PAGE_SIZE == pa
  {
    assert NewPte(pa, flags) / 1024 == pa / PAGE_SIZE;
  }

  /** A mapped page translates to its physical page with its flags exactly when the permissions make
      a leaf. */
  lemma MappedTranslates(tables: Tables, root: nat, place: map<nat, Place>, va: nat, pa: nat, perm: nat)
    requires TreeOk(tables, root, place) && va < MAX_VA && perm < 256
    requires pa % PAGE_SIZE == 0 && pa < 0x100_0000_0000_0000
    requires Leaf(tables, root, va / PAGE_SIZE) == NewPte(pa, WithV(perm))
    ensures LeafFlags(WithV(perm)) ==> Translate(tables, root, va) == Some((pa + va % PAGE_SIZE, WithV(perm)))
    ensures !LeafFlags(WithV(perm)) ==> Translate(tables, root, va) == None
  {
    hide Translate, NewPte, PteFlags, TreeOk, Leaf;
    TranslateIsLeaf(tables, root, place, va);
    PteRoundTrip(pa, WithV(perm));
    PageNumberFits(pa, WithV(perm));
  }

  /** A page whose last-level entry is the same translates the same, however the trees differ. */
  lemma SameLeafSameTranslation(t0: Tables, root0: nat, p0: map<nat, Place>, t1: Tables, root1: nat,
      p1: map<nat, Place>, va: nat)
    requires TreeOk(t0, root0, p0) && TreeOk(t1, root1, p1) && va < MAX_VA
    requires Leaf(t1, root1, va / PAGE_SIZE) == Leaf(t0, root0, va / PAGE_SIZE)
    ensures Translate(t1, root1, va) == Translate(t0, root0, va)
  {
    hide TreeOk, Translate, Leaf;
    TranslateIsLeaf(t0, root0, p0, va);
    TranslateIsLeaf(t1, root1, p1, va);
  }
}

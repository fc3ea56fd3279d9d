/** The kernel's address space: the mappings `kvm_make` makes, and what they translate to. */
module KernelSpace {
  import opened Common
  import opened PageTable

  const KERNEL_BASE: nat := 0x8020_0000
  const MEM_END: nat := 0x8800_0000
  const TRAMPOLINE: nat := 0x3f_ffff_f000
  const VIRTIO_MMIO_BASE: nat := 0x1000_1000
  const VIRTIO_MMIO_LEN: nat := 0x1000
  const PLIC_BASE: nat := 0x0c00_0000
  const PLIC_LEN: nat := 0x400_0000

  const TEXT_FLAGS: nat := 10        // R | X
  const DATA_FLAGS: nat := 6         // R | W
  const TRAMPOLINE_FLAGS: nat := 42  // R | X | G
  const PLIC_FLAGS: nat := 38        // R | W | G

  /** Permissions of the identity mapping at `va`, if it is mapped that way. */
  function IdentityPerm(etext: nat, va: nat): Option<nat> {
    if KERNEL_BASE <= va < etext then Some(TEXT_FLAGS)
    else if etext <= va < MEM_END then Some(DATA_FLAGS)
    else if VIRTIO_MMIO_BASE <= va < VIRTIO_MMIO_BASE + VIRTIO_MMIO_LEN then Some(DATA_FLAGS)
    else if PLIC_BASE <= va < PLIC_BASE + PLIC_LEN then Some(PLIC_FLAGS)
    else None
  }

  /** The entry the kernel's table holds for a page. */
  function KernelLeaf(etext: nat, trampoline: nat, vpn: nat): nat {
    if vpn == TRAMPOLINE / PAGE_SIZE then NewPte(RoundDown(trampoline), WithV(TRAMPOLINE_FLAGS))
    else
      match IdentityPerm(etext, vpn * PAGE_SIZE)
      case Some(perm) => NewPte(vpn * PAGE_SIZE, WithV(perm))
      case None => 0
  }

  /** Where the kernel's table sends `va`. */
  function KernelTarget(etext: nat, trampoline: nat, va: nat): Option<(nat, nat)> {
    if va >= TRAMPOLINE then Some((RoundDown(trampoline) + (va - TRAMPOLINE), WithV(TRAMPOLINE_FLAGS)))
    else
      match IdentityPerm(etext, va)
      case Some(perm) => Some((va, WithV(perm)))
      case None => None
  }

  predicate EtextOk(etext: nat) {
    KERNEL_BASE < etext < MEM_END
  }

  /** The five mappings of `kvm_make`: first page, page after the last, target page, permissions. */
  datatype Mapping = Mapping(from: nat, end: nat, ppn: nat, perm: nat)

  function MappingOf(k: nat, etext: nat, trampoline: nat): Mapping
    requires EtextOk(etext) && k < 5
  {
    match k
    case 0 => Mapping(KERNEL_BASE / PAGE_SIZE, RoundUp(etext) / PAGE_SIZE, KERNEL_BASE / PAGE_SIZE, TEXT_FLAGS)
    case 1 =>
      var end := RoundUp(RoundDown(etext) + (MEM_END - etext));
      Mapping(etext / PAGE_SIZE, end / PAGE_SIZE, etext / PAGE_SIZE, DATA_FLAGS)
    case 2 => Mapping(TRAMPOLINE / PAGE_SIZE, TRAMPOLINE / PAGE_SIZE + 1, trampoline / PAGE_SIZE, TRAMPOLINE_FLAGS)
    case 3 =>
      Mapping(VIRTIO_MMIO_BASE / PAGE_SIZE, VIRTIO_MMIO_BASE / PAGE_SIZE + 1, VIRTIO_MMIO_BASE / PAGE_SIZE, DATA_FLAGS)
    case 4 => Mapping(PLIC_BASE / PAGE_SIZE, (PLIC_BASE + PLIC_LEN) / PAGE_SIZE, PLIC_BASE / PAGE_SIZE, PLIC_FLAGS)
  }

  /** The entry of page `p` after the first `k` mappings. */
  function Stage(k: nat, etext: nat, trampoline: nat, p: nat): nat
    requires EtextOk(etext) && k <= 5
  {
    if k == 0 then 0
    else
      var m := MappingOf(k - 1, etext, trampoline);
      MappedLeaf(Stage(k - 1, etext, trampoline, p), p, m.from, m.end, m.ppn, m.perm)
  }

  /** A page is still empty when it is outside the mappings made so far. */
  lemma {:induction false} StageOutside(k: nat, etext: nat, trampoline: nat, p: nat)
    requires EtextOk(etext) && k <= 5
    requires forall j: nat {:trigger MappingOf(j, etext, trampoline)} :: j < k ==>
      !(MappingOf(j, etext, trampoline).from <= p < MappingOf(j, etext, trampoline).end)
    ensures Stage(k, etext, trampoline, p) == 0
  {
    if k > 0 {
      StageOutside(k - 1, etext, trampoline, p);
      var m := MappingOf(k - 1, etext, trampoline);
    }
  }

  /** With the end of the text on a page boundary the mappings do not meet. */
  lemma MappingsDisjoint(j: nat, k: nat, etext: nat, trampoline: nat, p: nat)
    requires EtextOk(etext) && etext % PAGE_SIZE == 0 && j < k < 5
    requires MappingOf(k, etext, trampoline).from <= p < MappingOf(k, etext, trampoline).end
    ensures !(MappingOf(j, etext, trampoline).from <= p < MappingOf(j, etext, trampoline).end)
  {
  }

  lemma StageFree(k: nat, etext: nat, trampoline: nat, p: nat)
    requires EtextOk(etext) && etext % PAGE_SIZE == 0 && k < 5
    requires MappingOf(k, etext, trampoline).from <= p < MappingOf(k, etext, trampoline).end
    ensures Stage(k, etext, trampoline, p) == 0
  {
    forall j: nat {:trigger MappingOf(j, etext, trampoline)} | j < k
      ensures !(MappingOf(j, etext, trampoline).from <= p < MappingOf(j, etext, trampoline).end)
    {
      MappingsDisjoint(j, k, etext, trampoline, p);
    }
    StageOutside(k, etext, trampoline, p);
  }

  /** A page of mapping `k` keeps that mapping to the end. */
  lemma StageInside(k: nat, etext: nat, trampoline: nat, p: nat)
    requires EtextOk(etext) && etext % PAGE_SIZE == 0 && k < 5
    requires MappingOf(k, etext, trampoline).from <= p < MappingOf(k, etext, trampoline).end
    ensures var m := MappingOf(k, etext, trampoline);
      Stage(5, etext, trampoline, p) == NewPte((m.ppn + p - m.from) * PAGE_SIZE, WithV(m.perm))
  {
    var j := k + 1;
    while j < 5
      invariant k < j <= 5
      invariant Stage(j, etext, trampoline, p) == Stage(k + 1, etext, trampoline, p)
    {
      var n := MappingOf(j, etext, trampoline);
      if n.from <= p < n.end {
        MappingsDisjoint(k, j, etext, trampoline, p);
      }
      j := j + 1;
    }
  }

  /** All five together are the kernel's table. */
  lemma AllStages(etext: nat, trampoline: nat, p: nat)
    requires EtextOk(etext) && etext % PAGE_SIZE == 0
    ensures Stage(5, etext, trampoline, p) == KernelLeaf(etext, trampoline, p)
  {
    hide Stage, NewPte;
    if k: nat :| k < 5 && MappingOf(k, etext, trampoline).from <= p < MappingOf(k, etext, trampoline).end {
      StageInside(k, etext, trampoline, p);
    } else {
      StageOutside(5, etext, trampoline, p);
      assert forall k: nat ::
        k < 5 ==> !(MappingOf(k, etext, trampoline).from <= p < MappingOf(k, etext, trampoline).end);
      Unmapped(etext, trampoline, p);
    }
  }

  lemma Unmapped(etext: nat, trampoline: nat, p: nat)
    requires EtextOk(etext) && etext % PAGE_SIZE == 0
    requires forall k: nat {:trigger MappingOf(k, etext, trampoline)} :: k < 5 ==>
      !(MappingOf(k, etext, trampoline).from <= p < MappingOf(k, etext, trampoline).end)
    ensures KernelLeaf(etext, trampoline, p) == 0
  {
    var m0, m1, m2 := MappingOf(0, etext, trampoline), MappingOf(1, etext, trampoline), MappingOf(2, etext, trampoline);
    var m3, m4 := MappingOf(3, etext, trampoline), MappingOf(4, etext, trampoline);
  }

  /** Otherwise the second mapping starts on the last page of the first. */
  lemma TextOverlaps(etext: nat, trampoline: nat)
    requires EtextOk(etext) && etext % PAGE_SIZE != 0
    ensures var m := MappingOf(1, etext, trampoline);
      m.from < m.end && IsValid(Stage(1, etext, trampoline, m.from))
  {
    var m := MappingOf(0, etext, trampoline);
    var p := etext / PAGE_SIZE;
    PteRoundTrip((m.ppn + p - m.from) * PAGE_SIZE, WithV(m.perm));
    assert Stage(0, etext, trampoline, p) == 0;
  }

  /** The places of the tables after the first `k` mappings. */
  ghost function StagePlaces(k: nat, etext: nat, trampoline: nat): set<Place>
    requires EtextOk(etext) && k <= 5
  {
    if k == 0 then {Place(2, 0)}
    else
      var m := MappingOf(k - 1, etext, trampoline);
      StagePlaces(k - 1, etext, trampoline) + NeedRange(m.from, m.end)
  }

  lemma {:induction false} StagePlacesGrow(k: nat, etext: nat, trampoline: nat)
    requires EtextOk(etext) && k <= 5
    ensures |StagePlaces(k, etext, trampoline)| <= |StagePlaces(5, etext, trampoline)|
    decreases 5 - k
  {
    if k < 5 {
      StagePlacesGrow(k + 1, etext, trampoline);
      SubsetCard(StagePlaces(k, etext, trampoline), StagePlaces(k + 1, etext, trampoline));
    }
  }

  /** The tables of the kernel's address space: the root, 3 in the middle and 97 at the last level. */
  predicate KernelTable(x: Place) {
    || x == Place(2, 0)
    || (x.level == 1 && (x.prefix == 0 || x.prefix == 2 || x.prefix == 255))
    || (x.level == 0 && (96 <= x.prefix < 129 || 1025 <= x.prefix < 1088 || x.prefix == 131071))
  }

  /** The place of a table that some page of the mapping needs. */
  predicate NeedsTable(m: Mapping, x: Place)
    requires m.from < m.end
  {
    || (x.level == 0 && m.from / 512 <= x.prefix <= (m.end - 1) / 512)
    || (x.level == 1 && m.from / 262144 <= x.prefix <= (m.end - 1) / 262144)
  }

  lemma StageTable(k: nat, etext: nat, trampoline: nat, x: Place)
    requires EtextOk(etext) && k < 5 && MappingOf(k, etext, trampoline).from < MappingOf(k, etext, trampoline).end
    ensures x in StagePlaces(k + 1, etext, trampoline)
       <==> x in StagePlaces(k, etext, trampoline) || NeedsTable(MappingOf(k, etext, trampoline), x)
  {
    var m := MappingOf(k, etext, trampoline);
    NeedRangeIs(m.from, m.end);
    hide NeedRange, MappingOf, EtextOk;
    assert x in RangePlaces(m.from, m.end) <==> NeedsTable(m, x);
  }

  lemma TextTable(etext: nat, trampoline: nat, x: Place)
    requires EtextOk(etext)
    ensures NeedsTable(MappingOf(0, etext, trampoline), x) <==>
      x == Place(1, 2) || (x.level == 0 && 1025 <= x.prefix <= (etext - 1) / 0x20_0000)
  {
    var m := MappingOf(0, etext, trampoline);
    assert m.from == 0x8_0200 && m.end - 1 == (etext - 1) / PAGE_SIZE;
  }

  lemma DataTable(etext: nat, trampoline: nat, x: Place)
    requires EtextOk(etext)
    ensures NeedsTable(MappingOf(1, etext, trampoline), x) <==>
      x == Place(1, 2) || (x.level == 0 && etext / 0x20_0000 <= x.prefix < 1088)
  {
    var m := MappingOf(1, etext, trampoline);
    assert RoundUp(MEM_END - etext % PAGE_SIZE) == MEM_END;
    assert m.end == 0x8_8000 && m.from / 512 == etext / 0x20_0000 && m.from / 262144 == 2;
  }

  lemma DeviceTables(etext: nat, trampoline: nat, x: Place)
    requires EtextOk(etext)
    ensures NeedsTable(MappingOf(2, etext, trampoline), x) <==> x == Place(1, 255) || x == Place(0, 131071)
    ensures NeedsTable(MappingOf(3, etext, trampoline), x) <==> x == Place(1, 0) || x == Place(0, 128)
    ensures NeedsTable(MappingOf(4, etext, trampoline), x) <==>
      x == Place(1, 0) || (x.level == 0 && 96 <= x.prefix < 128)
  {
  }

  lemma MappingsNonEmpty(etext: nat, trampoline: nat)
    requires EtextOk(etext)
    ensures forall k: nat :: k < 5 ==> MappingOf(k, etext, trampoline).from < MappingOf(k, etext, trampoline).end
  {
    assert RoundUp(MEM_END - etext % PAGE_SIZE) == MEM_END;
  }

  lemma AllTables(etext: nat, trampoline: nat, x: Place)
    requires EtextOk(etext)
    ensures x in StagePlaces(5, etext, trampoline) <==> KernelTable(x)
  {
    assert x in StagePlaces(0, etext, trampoline) <==> x == Place(2, 0);
    assert etext / 0x20_0000 <= (etext - 1) / 0x20_0000 + 1;
    hide StagePlaces, MappingOf, NeedsTable;
    MappingsNonEmpty(etext, trampoline);
    StageTable(0, etext, trampoline, x);
    StageTable(1, etext, trampoline, x);
    StageTable(2, etext, trampoline, x);
    StageTable(3, etext, trampoline, x);
    StageTable(4, etext, trampoline, x);
    TextTable(etext, trampoline, x);
    DataTable(etext, trampoline, x);
    DeviceTables(etext, trampoline, x);
  }

  /** Adding a stretch of places that are not there yet. */
  lemma AddStretch(s: set<Place>, level: nat, lo: nat, hi: nat)
    requires lo <= hi && forall x :: x in s && x.level == level ==> !(lo <= x.prefix < hi)
    ensures |s + Places(level, lo, hi)| == |s| + (hi - lo)
  {
    PlacesCard(level, lo, hi);
    assert s !! Places(level, lo, hi);
  }

  lemma UpperTables(s: set<Place>)
    requires forall x :: x in s <==> KernelTable(x) && x.level > 0
    ensures |s| == 4
  {
    assert s == {Place(2, 0), Place(1, 0), Place(1, 2), Place(1, 255)};
  }

  lemma LowerTables(s: set<Place>)
    requires forall x :: x in s <==> KernelTable(x) && x.level == 0
    ensures |s| == 97
  {
    hide Places;
    var a, b := Places(0, 96, 129), Places(0, 1025, 1088);
    PlacesCard(0, 96, 129);
    AddStretch(a, 0, 1025, 1088);
    AddStretch(a + b, 0, 131071, 131072);
    assert s == a + b + Places(0, 131071, 131072);
  }

  lemma HundredTables(s: set<Place>)
    requires forall x :: x in s <==> KernelTable(x)
    ensures |s| == 101
  {
    var upper, lower := set x | x in s && x.level > 0, set x | x in s && x.level == 0;
    UpperTables(upper);
    LowerTables(lower);
    assert s == upper + lower && upper !! lower;
  }

  /** The tables of the text below the root: one in the middle, and one per 2 MiB it meets. */
  function TextTables(etext: nat): (n: nat)
    requires EtextOk(etext)
    ensures 2 <= n <= 64
  {
    1 + (etext - 1) / 0x20_0000 - KERNEL_BASE / 0x20_0000 + 1
  }

  lemma TextTablesAre(etext: nat, trampoline: nat)
    requires EtextOk(etext)
    ensures |StagePlaces(1, etext, trampoline)| == TextTables(etext) + 1
  {
    var s, upper, end := StagePlaces(1, etext, trampoline), {Place(2, 0), Place(1, 2)}, (etext - 1) / 0x20_0000 + 1;
    assert StagePlaces(0, etext, trampoline) == {Place(2, 0)};
    hide StagePlaces, MappingOf, NeedsTable, Places;
    MappingsNonEmpty(etext, trampoline);
    forall x
      ensures x in s <==> x in upper || (x.level == 0 && 1025 <= x.prefix < end)
    {
      StageTable(0, etext, trampoline, x);
      TextTable(etext, trampoline, x);
    }
    AddStretch(upper, 0, 1025, end);
    assert s == upper + Places(0, 1025, end);
  }

  /** `kvm_make`. With the end of the text on a page boundary no page is mapped twice, and the table
      is exactly the kernel's if and only if there are frames for its hundred tables below the root.
      Otherwise the second mapping meets the last page of the text, if there are frames for the
      tables of the text. */
  method KvmMake(root: nat, pool: seq<nat>, etext: nat, trampoline: nat) returns (space: AddressSpace, r: MapResult)
    requires EtextOk(etext) && root % PAGE_SIZE == 0 && root < 0x100_0000_0000_0000
    requires forall i ::
      0 <= i < |pool| ==> pool[i] != root && pool[i] % PAGE_SIZE == 0 && pool[i] < 0x100_0000_0000_0000
    requires forall i, j :: 0 <= i < j < |pool| ==> pool[i] != pool[j]
    ensures fresh(space) && space.Valid() && space.root == root
    ensures FromPool(map[root := EmptyTable()], pool, space.tables, space.pool)
    ensures etext % PAGE_SIZE == 0 ==> r == if |pool| >= 100 then Mapped else NoMemory
    ensures etext % PAGE_SIZE != 0 ==> r == if |pool| >= TextTables(etext) then Remapped else NoMemory
    ensures r == Mapped ==> forall p: nat ::
      PageNumber(p) ==> Leaf(space.tables, space.root, p) == KernelLeaf(etext, trampoline, p)
    ensures r == Mapped ==> forall x :: x in space.place.Values <==> KernelTable(x)
  {
    hide SpaceOk, Leaf;
    space := new AddressSpace(root, pool);
    r := MapAll(space, etext, trampoline);
    forall x
      ensures x in StagePlaces(5, etext, trampoline) <==> KernelTable(x)
    {
      AllTables(etext, trampoline, x);
    }
    HundredTables(StagePlaces(5, etext, trampoline));
    TextTablesAre(etext, trampoline);
    if r == Mapped {
      forall p: nat | PageNumber(p)
        ensures Leaf(space.tables, space.root, p) == KernelLeaf(etext, trampoline, p)
      {
        AllStages(etext, trampoline, p);
      }
    }
  }

  /** The five calls of `map` on an empty address space. */
  method MapAll(space: AddressSpace, etext: nat, trampoline: nat) returns (r: MapResult)
    requires space.Valid() && EtextOk(etext) && space.place.Values == {Place(2, 0)}
    requires forall p: nat :: PageNumber(p) ==> Leaf(space.tables, space.root, p) == 0
    modifies space
    ensures space.Valid() && space.Frames() == old(space.Frames())
    ensures etext % PAGE_SIZE == 0 ==>
      r == if space.Frames() >= |StagePlaces(5, etext, trampoline)| then Mapped else NoMemory
    ensures etext % PAGE_SIZE != 0 ==>
      r == if space.Frames() >= |StagePlaces(1, etext, trampoline)| then Remapped else NoMemory
    ensures r == Mapped ==> AtStage(space.tables, space.root, space.place.Values, 5, etext, trampoline)
    ensures FromPool(old(space.tables), old(space.pool), space.tables, space.pool)
  {
    hide AddressSpace.Valid, Leaf, Stage, StagePlaces, FromPool;
    ghost var t0, pool0 := space.tables, space.pool;
    NoneTaken(t0, t0, pool0);
    FirstStage(space.tables, space.root, space.place.Values, etext, trampoline);
    hide AtStage;
    r := MapStage(space, 0, KERNEL_BASE, KERNEL_BASE, etext - KERNEL_BASE, TEXT_FLAGS, etext, trampoline, t0, pool0);
    if r != Mapped {
      StagePlacesGrow(1, etext, trampoline);
      return;
    }
    r := MapStage(space, 1, etext, etext, MEM_END - etext, DATA_FLAGS, etext, trampoline, t0, pool0);
    if r != Mapped {
      StagePlacesGrow(2, etext, trampoline);
      return;
    }
    r := MapStage(space, 2, TRAMPOLINE, trampoline, PAGE_SIZE, TRAMPOLINE_FLAGS, etext, trampoline, t0, pool0);
    if r != Mapped {
      StagePlacesGrow(3, etext, trampoline);
      return;
    }
    r := MapStage(space, 3, VIRTIO_MMIO_BASE, VIRTIO_MMIO_BASE, VIRTIO_MMIO_LEN, DATA_FLAGS, etext, trampoline,
                  t0, pool0);
    if r != Mapped {
      StagePlacesGrow(4, etext, trampoline);
      return;
    }
    r := MapStage(space, 4, PLIC_BASE, PLIC_BASE, PLIC_LEN, PLIC_FLAGS, etext, trampoline, t0, pool0);
  }

  /** The first `k` mappings have been made, and no other. */
  ghost predicate AtStage(tables: Tables, root: nat, places: set<Place>, k: nat, etext: nat, trampoline: nat)
    requires EtextOk(etext) && k <= 5
  {
    && (forall p: nat :: PageNumber(p) ==> Leaf(tables, root, p) == Stage(k, etext, trampoline, p))
    && places == StagePlaces(k, etext, trampoline)
  }

  lemma FirstStage(tables: Tables, root: nat, places: set<Place>, etext: nat, trampoline: nat)
    requires EtextOk(etext) && places == {Place(2, 0)}
    requires forall p: nat :: PageNumber(p) ==> Leaf(tables, root, p) == 0
    ensures AtStage(tables, root, places, 0, etext, trampoline)
  {
    hide Leaf;
  }

  /** Mapping the range of the next mapping goes one stage on. */
  lemma NextStage(t0: Tables, t1: Tables, root: nat, p0: set<Place>, p1: set<Place>, k: nat, etext: nat,
      trampoline: nat, had: nat)
    requires EtextOk(etext) && k < 5 && AtStage(t0, root, p0, k, etext, trampoline)
    requires var m := MappingOf(k, etext, trampoline);
      RangeMapped(t0, t1, root, m.from, m.end, m.ppn, m.perm) && Settled(p0, p1, m.from, m.end, had, Mapped)
    ensures AtStage(t1, root, p1, k + 1, etext, trampoline)
  {
    hide Leaf, NewPte, NeedRange, MappingOf, EtextOk;
  }

  /** The pages of the next mapping are empty if the text ends on a page boundary; otherwise the first
      page of the second mapping is not. */
  lemma StageEmpty(tables: Tables, root: nat, places: set<Place>, k: nat, etext: nat, trampoline: nat, p: nat)
    requires EtextOk(etext) && k < 5 && AtStage(tables, root, places, k, etext, trampoline) && PageNumber(p)
    ensures (etext % PAGE_SIZE == 0 || k == 0)
      && MappingOf(k, etext, trampoline).from <= p < MappingOf(k, etext, trampoline).end
      ==> !IsValid(Leaf(tables, root, p))
    ensures etext % PAGE_SIZE != 0 && k == 1 && p == MappingOf(k, etext, trampoline).from
      ==> IsValid(Leaf(tables, root, p)) && p < MappingOf(k, etext, trampoline).end
  {
    hide Leaf;
    var m := MappingOf(k, etext, trampoline);
    if etext % PAGE_SIZE == 0 {
      if m.from <= p < m.end {
        StageFree(k, etext, trampoline, p);
      }
    } else if k == 1 {
      TextOverlaps(etext, trampoline);
    }
  }

  /** One call of `map` in `kvm_make`. */
  method MapStage(space: AddressSpace, ghost k: nat, va: nat, pa: nat, size: nat, perm: nat,
                  ghost etext: nat, ghost trampoline: nat, ghost t0: Tables, ghost pool0: seq<nat>)
      returns (r: MapResult)
    requires space.Valid() && EtextOk(etext) && k < 5 && size > 0 && perm < 256
    requires RoundUp(RoundDown(va) + size) <= MAX_VA
    requires MappingOf(k, etext, trampoline)
          == Mapping(va / PAGE_SIZE, RoundUp(RoundDown(va) + size) / PAGE_SIZE, pa / PAGE_SIZE, perm)
    requires AtStage(space.tables, space.root, space.place.Values, k, etext, trampoline)
    requires FromPool(t0, pool0, space.tables, space.pool)
    modifies space
    ensures space.Valid() && space.Frames() == old(space.Frames()) && FromPool(t0, pool0, space.tables, space.pool)
    ensures etext % PAGE_SIZE == 0 ==> r != Remapped
    ensures etext % PAGE_SIZE != 0 ==> (k == 0 ==> r != Remapped) && (k == 1 ==> r == Remapped)
    ensures r == Mapped ==> AtStage(space.tables, space.root, space.place.Values, k + 1, etext, trampoline)
    ensures r == Mapped ==> |StagePlaces(k + 1, etext, trampoline)| <= space.Frames()
    ensures r == NoMemory ==> space.Frames() < |StagePlaces(k + 1, etext, trampoline)|
  {
    hide AddressSpace.Valid, Leaf, AtStage, RangeMapped, Settled, MappingOf, StagePlaces, EtextOk, FromPool;
    ghost var left := space.pool;
    ghost var had, places, before := |space.pool|, space.place.Values, space.tables;
    ghost var done;
    r, done := space.Map(va, pa, size, perm);
    TakenTwice(t0, pool0, before, left, space.tables, space.pool);
    StageResult(before, space.tables, space.root, places, space.place.Values, k, etext, trampoline, had, r, done);
  }

  /** What one mapping leaves, by its result. */
  lemma StageResult(t0: Tables, t1: Tables, root: nat, p0: set<Place>, p1: set<Place>,
                    k: nat, etext: nat, trampoline: nat, had: nat, r: MapResult, done: nat)
    requires EtextOk(etext) && k < 5 && AtStage(t0, root, p0, k, etext, trampoline)
    requires var m := MappingOf(k, etext, trampoline);
      && m.from < m.end <= 0x400_0000 && m.from <= done <= m.end && (r == Mapped <==> done == m.end)
      && RangeMapped(t0, t1, root, m.from, done, m.ppn, m.perm)
      && Settled(p0, p1, m.from, if r == Mapped then m.end else done + 1, had, r)
      && (r == Remapped ==> IsValid(Leaf(t0, root, done)))
    ensures etext % PAGE_SIZE == 0 ==> r != Remapped
    ensures etext % PAGE_SIZE != 0 ==> (k == 0 ==> r != Remapped) && (k == 1 ==> r == Remapped)
    ensures r == Mapped ==> AtStage(t1, root, p1, k + 1, etext, trampoline)
    ensures r == Mapped ==> |StagePlaces(k + 1, etext, trampoline)| <= had + |p0|
    ensures r == NoMemory ==> had + |p0| < |StagePlaces(k + 1, etext, trampoline)|
  {
    var m := MappingOf(k, etext, trampoline);
    var reach := if r == Mapped then m.end else done + 1;
    hide Leaf, AtStage, RangeMapped, Settled, MappingOf, StagePlaces, EtextOk;
    StagePlacesAre(t0, root, p0, k, etext, trampoline);
    StageEmpty(t0, root, p0, k, etext, trampoline, m.from);
    if m.from < done {
      MappedWereEmpty(t0, t1, root, m.from, done, m.ppn, m.perm);
    }
    StageFrames(k, etext, trampoline, p1, reach, had, r);
    if r == Mapped {
      NextStage(t0, t1, root, p0, p1, k, etext, trampoline, had);
    } else if r == Remapped {
      StageEmpty(t0, root, p0, k, etext, trampoline, done);
    } else if etext % PAGE_SIZE != 0 && k == 1 {
      TextTableThere(etext, trampoline);
    }
  }

  /** How the frames for a mapping relate to those for all mappings up to it. */
  lemma StageFrames(k: nat, etext: nat, trampoline: nat, places: set<Place>, reach: nat, had: nat, r: MapResult)
    requires EtextOk(etext) && k < 5
    requires var m := MappingOf(k, etext, trampoline);
      && m.from <= reach <= m.end && (r == Mapped ==> reach == m.end)
      && Settled(StagePlaces(k, etext, trampoline), places, m.from, reach, had, r)
    ensures var s, m := StagePlaces(k, etext, trampoline), MappingOf(k, etext, trampoline);
      && (r == Mapped ==> |StagePlaces(k + 1, etext, trampoline)| <= had + |s|)
      && (r == NoMemory ==> had + |s| < |StagePlaces(k + 1, etext, trampoline)|)
      && (r == NoMemory ==> had < |NeedRange(m.from, reach) - s|)
  {
    var s, m := StagePlaces(k, etext, trampoline), MappingOf(k, etext, trampoline);
    var need := NeedRange(m.from, m.end);
    assert StagePlaces(k + 1, etext, trampoline) == s + (need - s);
    hide MappingOf, StagePlaces, EtextOk, NeedRange;
    assert |s + (need - s)| == |s| + |need - s|;
    NeedGrows(m.from, reach, m.end);
    SubsetCard(NeedRange(m.from, reach) - s, need - s);
  }

  lemma {:induction false} NeedGrows(from: nat, p: nat, end: nat)
    requires from <= p <= end
    ensures NeedRange(from, p) <= NeedRange(from, end)
    decreases end
  {
    if p < end {
      NeedGrows(from, p, end - 1);
      NeedMore(from, end - 1, end);
    }
  }

  /** When the text ends within a page, the first page of the second mapping has its tables. */
  lemma TextTableThere(etext: nat, trampoline: nat)
    requires EtextOk(etext) && etext % PAGE_SIZE != 0
    ensures var p := MappingOf(1, etext, trampoline).from;
      NeedRange(p, p + 1) - StagePlaces(1, etext, trampoline) == {}
  {
    var m, p := MappingOf(0, etext, trampoline), etext / PAGE_SIZE;
    NeedMore(m.from, p, m.end);
    NeedMore(p, p, p + 1);
    assert NeedRange(p, p) == {};
    hide Need;
  }

  lemma StagePlacesAre(tables: Tables, root: nat, places: set<Place>, k: nat, etext: nat, trampoline: nat)
    requires EtextOk(etext) && k <= 5 && AtStage(tables, root, places, k, etext, trampoline)
    ensures places == StagePlaces(k, etext, trampoline)
  {
  }

  lemma MappedWereEmpty(t0: Tables, t1: Tables, root: nat, from: nat, done: nat, ppn: nat, perm: nat)
    requires RangeMapped(t0, t1, root, from, done, ppn, perm) && from < done
    ensures !IsValid(Leaf(t0, root, from))
  {
  }

  /** The kernel's table translates the text, the memory and the devices to themselves, the
      trampoline page to the trampoline, and nothing else. */
  lemma KernelTranslates(tables: Tables, root: nat, place: map<nat, Place>, etext: nat, trampoline: nat, va: nat)
    requires TreeOk(tables, root, place) && EtextOk(etext) && etext % PAGE_SIZE == 0
    requires trampoline < 0x100_0000_0000_0000 && va < MAX_VA
    requires forall p: nat :: PageNumber(p) ==> Leaf(tables, root, p) == KernelLeaf(etext, trampoline, p)
    ensures Translate(tables, root, va) == KernelTarget(etext, trampoline, va)
  {
    hide TreeOk, Translate, Leaf, NewPte;
    var vpn := va / PAGE_SIZE;
    assert PageNumber(vpn) && Leaf(tables, root, vpn) == KernelLeaf(etext, trampoline, vpn);
    SamePage(etext, va);
    if vpn == TRAMPOLINE / PAGE_SIZE {
      MappedTranslates(tables, root, place, va, RoundDown(trampoline), TRAMPOLINE_FLAGS);
    } else if IdentityPerm(etext, va).Some? {
      MappedTranslates(tables, root, place, va, vpn * PAGE_SIZE, IdentityPerm(etext, va).value);
    } else {
      TranslateIsLeaf(tables, root, place, va);
    }
  }

  lemma SideOfPage(b: nat, va: nat)
    requires b % PAGE_SIZE == 0
    ensures b <= va / PAGE_SIZE * PAGE_SIZE <==> b <= va
  {
    assert b == b / PAGE_SIZE * PAGE_SIZE;
  }

  /** All addresses of a page are mapped alike. */
  lemma SamePage(etext: nat, va: nat)
    requires etext % PAGE_SIZE == 0 && va < MAX_VA
    ensures IdentityPerm(etext, va / PAGE_SIZE * PAGE_SIZE) == IdentityPerm(etext, va)
    ensures va / PAGE_SIZE == TRAMPOLINE / PAGE_SIZE <==> va >= TRAMPOLINE
  {
    var base := va / PAGE_SIZE * PAGE_SIZE;
    SideOfPage(etext, va);
    SideOfPage(KERNEL_BASE, va);
    SideOfPage(MEM_END, va);
    SideOfPage(VIRTIO_MMIO_BASE, va);
    SideOfPage(VIRTIO_MMIO_BASE + VIRTIO_MMIO_LEN, va);
    SideOfPage(PLIC_BASE, va);
    SideOfPage(PLIC_BASE + PLIC_LEN, va);
  }
}

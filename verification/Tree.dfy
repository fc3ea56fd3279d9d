/** The file system as its users see it: numbered nodes with bytes, directories whose bytes are
    entries, and what every sequence of operations keeps of them. */
module Tree {
  import opened Common
  import opened Codec

  datatype Node = Node(kind: InodeType, links: nat, bytes: seq<byte>)

  /** `used` holds the inode numbers handed out so far. */
  datatype Fs = Fs(nodes: seq<Node>, used: set<nat>)

  // ----- directories -----

  function EntryAt(bytes: seq<byte>, k: nat): DirEntry
    requires k < |bytes| / DIR_ENTRY_SIZE
  {
    DecodeEntry(bytes[k * DIR_ENTRY_SIZE..k * DIR_ENTRY_SIZE + DIR_ENTRY_SIZE])
  }

  function Entries(bytes: seq<byte>): (es: seq<DirEntry>)
    ensures |es| == |bytes| / DIR_ENTRY_SIZE
  {
    seq(|bytes| / DIR_ENTRY_SIZE, k requires 0 <= k < |bytes| / DIR_ENTRY_SIZE => EntryAt(bytes, k))
  }

  /** Names in creation order. */
  function Names(es: seq<DirEntry>): (ns: seq<seq<byte>>)
    ensures |ns| == |es|
  {
    seq(|es|, k requires 0 <= k < |es| => es[k].name)
  }

  /** The first entry with the name: what `look_up` finds. */
  function Find(es: seq<DirEntry>, name: seq<byte>): (r: Option<nat>)
    ensures r == None <==> forall k :: 0 <= k < |es| ==> es[k].name != name
    ensures r.Some? ==> r.value < |es| && es[r.value].name == name
    ensures r.Some? ==> forall k :: 0 <= k < r.value ==> es[k].name != name
  {
    FindFrom(es, name, 0)
  }

  function FindFrom(es: seq<DirEntry>, name: seq<byte>, from: nat): (r: Option<nat>)
    requires from <= |es|
    ensures r == None <==> forall k :: from <= k < |es| ==> es[k].name != name
    ensures r.Some? ==> from <= r.value < |es| && es[r.value].name == name
    ensures r.Some? ==> forall k :: from <= k < r.value ==> es[k].name != name
    decreases |es| - from
  {
    if from == |es| then None
    else if es[from].name == name then Some(from)
    else FindFrom(es, name, from + 1)
  }

  /** Entries in the direct range of a directory. */
  const DIRECT_ENTRIES: nat := 3584

  /** Scanning for the name goes past the direct range, where reading an entry never returns. */
  predicate Blocks(es: seq<DirEntry>, name: seq<byte>) {
    match Find(es, name)
    case Some(k) => k >= DIRECT_ENTRIES
    case None => |es| > DIRECT_ENTRIES
  }

  lemma EntryOfAppend(bytes: seq<byte>, e: DirEntry, k: nat)
    requires |bytes| % DIR_ENTRY_SIZE == 0 && |e.name| <= DIR_NAME_SIZE && k <= |bytes| / DIR_ENTRY_SIZE
    ensures EntryAt(bytes + EncodeEntry(e), k)
         == if k < |bytes| / DIR_ENTRY_SIZE then EntryAt(bytes, k) else DirEntry(e.inum, CutName(e.name))
  {
    DecodeEncodeEntry(e);
    hide EncodeEntry, DecodeEntry, CutName, NameLength;
    var all, at := bytes + EncodeEntry(e), k * DIR_ENTRY_SIZE;
    if k < |bytes| / DIR_ENTRY_SIZE {
      assert all[at..at + DIR_ENTRY_SIZE] == bytes[at..at + DIR_ENTRY_SIZE];
    } else {
      assert all[at..at + DIR_ENTRY_SIZE] == EncodeEntry(e);
    }
  }

  /** Appending an encoded entry appends exactly that entry, its name cut at a NUL. */
  lemma AppendEntry(bytes: seq<byte>, e: DirEntry)
    requires |bytes| % DIR_ENTRY_SIZE == 0 && |e.name| <= DIR_NAME_SIZE
    ensures Entries(bytes + EncodeEntry(e)) == Entries(bytes) + [DirEntry(e.inum, CutName(e.name))]
  {
    hide EncodeEntry, DecodeEntry, CutName, NameLength, EntryAt;
    var n := |bytes| / DIR_ENTRY_SIZE;
    var all := bytes + EncodeEntry(e);
    assert |all| / DIR_ENTRY_SIZE == n + 1;
    forall k: nat | k <= n
      ensures Entries(all)[k] == (Entries(bytes) + [DirEntry(e.inum, CutName(e.name))])[k]
    {
      EntryOfAppend(bytes, e, k);
    }
  }

  // ----- the invariant -----

  predicate IsDir(fs: Fs, d: nat) {
    d < |fs.nodes| && fs.nodes[d].kind == Directory
  }

  function Dir(fs: Fs, d: nat): seq<DirEntry>
    requires d < |fs.nodes|
  {
    Entries(fs.nodes[d].bytes)
  }

  /** Entry `k` of directory `d` refers to inode `i`. */
  predicate Refers(fs: Fs, d: nat, k: nat, i: nat) {
    IsDir(fs, d) && k < |Dir(fs, d)| && Dir(fs, d)[k].inum == i
  }

  ghost predicate Referenced(fs: Fs, i: nat) {
    exists d: nat, k: nat :: Refers(fs, d, k, i)
  }

  /** A directory holds whole entries with good, distinct names, and each refers to a used inode
      with a larger number than its own. */
  ghost predicate DirOk(fs: Fs, d: nat)
    requires d < |fs.nodes|
  {
    && |fs.nodes[d].bytes| % DIR_ENTRY_SIZE == 0
    && (forall k: nat :: k < |Dir(fs, d)| ==>
          GoodName(Dir(fs, d)[k].name) && d < Dir(fs, d)[k].inum < |fs.nodes| && Dir(fs, d)[k].inum in fs.used)
    && (forall k: nat, l: nat :: k < l < |Dir(fs, d)| ==> Dir(fs, d)[k].name != Dir(fs, d)[l].name)
  }

  /** Inode numbers are handed out in order; every node in use has as many links as entries refer
      to it, and at most one does: the directories form a forest. */
  ghost predicate TreeOk(fs: Fs) {
    && (forall i: nat, j: nat :: i in fs.used && j < i ==> j in fs.used)
    && (forall i: nat :: i < |fs.nodes| && fs.nodes[i].kind != Invalid ==> i in fs.used)
    && (forall d: nat :: IsDir(fs, d) ==> DirOk(fs, d))
    && (forall d: nat, k: nat, d2: nat, k2: nat, i: nat {:trigger Refers(fs, d, k, i), Refers(fs, d2, k2, i)} ::
          Refers(fs, d, k, i) && Refers(fs, d2, k2, i) ==> d == d2 && k == k2)
    && (forall i: nat :: i < |fs.nodes| && i in fs.used ==>
          fs.nodes[i].links == if Referenced(fs, i) then 1 else 0)
  }

  // ----- operations -----

  datatype Op =
    | Write(i: nat, off: nat, buf: seq<byte>)
    | Grow(i: nat, size: nat)
    | Alloc(i: nat, kind: InodeType)
    | Link(dir: nat, name: seq<byte>, i: nat)

  /** Node `i` has no links yet and comes after directory `d`; the name fits in an entry. */
  predicate CanEnter(fs: Fs, d: nat, name: seq<byte>, i: nat) {
    && IsDir(fs, d) && d < i < |fs.nodes| < 0x1_0000_0000_0000_0000 && i in fs.used && fs.nodes[i].links == 0
    && |name| <= DIR_NAME_SIZE
  }

  /** What a caller of the file system can do: write and grow files that are not directories,
      take the next inode, and enter a node without links under a name of at most 24 bytes that,
      cut at a NUL, its directory lacks. */
  predicate Legal(fs: Fs, op: Op) {
    match op
    case Write(i, off, buf) =>
      i < |fs.nodes| && fs.nodes[i].kind != Directory && off + |buf| <= |fs.nodes[i].bytes|
    case Grow(i, size) =>
      i < |fs.nodes| && fs.nodes[i].kind != Directory && |fs.nodes[i].bytes| <= size
    case Alloc(i, kind) =>
      i < |fs.nodes| && i !in fs.used && forall j: nat :: j < i ==> j in fs.used
    case Link(d, name, i) =>
      CanEnter(fs, d, name, i) && Find(Dir(fs, d), CutName(name)) == None
  }

  /** The bytes of node `i` from `off` on are replaced. */
  function Written(fs: Fs, i: nat, off: nat, buf: seq<byte>): Fs
    requires i < |fs.nodes| && off + |buf| <= |fs.nodes[i].bytes|
  {
    fs.(nodes := fs.nodes[i := fs.nodes[i].(bytes := Splice(fs.nodes[i].bytes, off, buf))])
  }

  /** Node `i` grows to `size` bytes with zeros. */
  function Grown(fs: Fs, i: nat, size: nat): Fs
    requires i < |fs.nodes| && |fs.nodes[i].bytes| <= size
  {
    var n := fs.nodes[i];
    fs.(nodes := fs.nodes[i := n.(bytes := n.bytes + Zeros(size - |n.bytes|))])
  }

  /** Inode `i` is handed out and starts empty. */
  function Allocated(fs: Fs, i: nat, kind: InodeType): Fs
    requires i < |fs.nodes|
  {
    Fs(fs.nodes[i := Node(kind, 0, [])], fs.used + {i})
  }

  /** Node `i` is entered in directory `d` under `name` and counts its link. */
  function Linked(fs: Fs, d: nat, name: seq<byte>, i: nat): Fs
    requires d < |fs.nodes| && i < |fs.nodes| < 0x1_0000_0000_0000_0000 && |name| <= DIR_NAME_SIZE
  {
    var n := fs.nodes[d];
    var nodes := fs.nodes[d := n.(bytes := n.bytes + EncodeEntry(DirEntry(i, name)))];
    fs.(nodes := nodes[i := nodes[i].(links := nodes[i].links + 1)])
  }

  function Apply(fs: Fs, op: Op): Fs
    requires Legal(fs, op)
  {
    match op
    case Write(i, off, buf) => Written(fs, i, off, buf)
    case Grow(i, size) => Grown(fs, i, size)
    case Alloc(i, kind) => Allocated(fs, i, kind)
    case Link(d, name, i) => Linked(fs, d, name, i)
  }

  /** An operation on nodes that are not directories keeps every reference. */
  lemma SameDirs(fs: Fs, gs: Fs)
    requires |gs.nodes| == |fs.nodes|
    requires forall d: nat ::
      d < |fs.nodes| ==> (IsDir(fs, d) <==> IsDir(gs, d)) && (IsDir(fs, d) ==> gs.nodes[d].bytes == fs.nodes[d].bytes)
    ensures forall d: nat, k: nat, i: nat :: Refers(gs, d, k, i) <==> Refers(fs, d, k, i)
    ensures forall i: nat :: Referenced(gs, i) <==> Referenced(fs, i)
  {
    forall d: nat, k: nat, i: nat
      ensures Refers(gs, d, k, i) <==> Refers(fs, d, k, i)
    {
    }
    forall i: nat
      ensures Referenced(gs, i) <==> Referenced(fs, i)
    {
      if Referenced(fs, i) {
        var d: nat, k: nat :| Refers(fs, d, k, i);
        assert Refers(gs, d, k, i);
      }
    }
  }

  lemma FileOpKeeps(fs: Fs, op: Op)
    requires TreeOk(fs) && Legal(fs, op) && (op.Write? || op.Grow?)
    ensures TreeOk(Apply(fs, op))
  {
    var gs := Apply(fs, op);
    SameDirs(fs, gs);
    forall d: nat | IsDir(gs, d)
      ensures DirOk(gs, d)
    {
      assert IsDir(fs, d) && Dir(gs, d) == Dir(fs, d);
    }
  }

  /** A new inode is referenced by nobody and is empty. */
  lemma AllocKeeps(fs: Fs, op: Op)
    requires TreeOk(fs) && Legal(fs, op) && op.Alloc?
    ensures TreeOk(Apply(fs, op))
    ensures !Referenced(Apply(fs, op), op.i)
  {
    var gs := Apply(fs, op);
    assert fs.nodes[op.i].kind == Invalid;
    forall d: nat, k: nat, i: nat
      ensures Refers(gs, d, k, i) <==> Refers(fs, d, k, i)
    {
    }
    forall i: nat
      ensures Referenced(gs, i) <==> Referenced(fs, i)
    {
      if Referenced(fs, i) {
        var d: nat, k: nat :| Refers(fs, d, k, i);
        assert Refers(gs, d, k, i);
      }
    }
    forall d: nat | IsDir(gs, d)
      ensures DirOk(gs, d)
    {
      if d != op.i {
        assert IsDir(fs, d) && DirOk(fs, d) && Dir(gs, d) == Dir(fs, d);
      }
    }
  }

  /** Entering a node in a directory adds exactly that reference, at the end. */
  lemma LinkRefers(fs: Fs, dir: nat, name: seq<byte>, i: nat)
    requires TreeOk(fs) && CanEnter(fs, dir, name, i)
    ensures var gs := Linked(fs, dir, name, i);
      && IsDir(gs, dir) && Dir(gs, dir) == Dir(fs, dir) + [DirEntry(i, CutName(name))]
      && (forall d: nat :: d != dir && d < |fs.nodes| ==> (IsDir(gs, d) <==> IsDir(fs, d)) && Dir(gs, d) == Dir(fs, d))
      && (forall d: nat, k: nat, j: nat ::
            Refers(gs, d, k, j) <==> Refers(fs, d, k, j) || (d == dir && k == |Dir(fs, dir)| && j == i))
  {
    var gs := Linked(fs, dir, name, i);
    assert DirOk(fs, dir);
    AppendEntry(fs.nodes[dir].bytes, DirEntry(i, name));
    assert gs.nodes[dir].bytes == fs.nodes[dir].bytes + EncodeEntry(DirEntry(i, name));
  }

  lemma LinkDirOk(fs: Fs, op: Op, d: nat)
    requires TreeOk(fs) && Legal(fs, op) && op.Link? && IsDir(Apply(fs, op), d)
    ensures DirOk(Apply(fs, op), d)
  {
    hide Entries, EncodeEntry;
    var gs := Apply(fs, op);
    LinkRefers(fs, op.dir, op.name, op.i);
    assert IsDir(fs, d) && DirOk(fs, d);
    if d != op.dir {
      assert Dir(gs, d) == Dir(fs, d) && |gs.nodes[d].bytes| == |fs.nodes[d].bytes|;
    }
  }

  lemma LinkReferenced(fs: Fs, op: Op, i: nat)
    requires TreeOk(fs) && Legal(fs, op) && op.Link?
    ensures Referenced(Apply(fs, op), i) <==> Referenced(fs, i) || i == op.i
  {
    hide Entries, EncodeEntry;
    var gs := Apply(fs, op);
    LinkRefers(fs, op.dir, op.name, op.i);
    assert Refers(gs, op.dir, |Dir(fs, op.dir)|, op.i);
    if Referenced(fs, i) {
      var d: nat, k: nat :| Refers(fs, d, k, i);
      assert Refers(gs, d, k, i);
    }
  }

  lemma LinkKeeps(fs: Fs, op: Op)
    requires TreeOk(fs) && Legal(fs, op) && op.Link?
    ensures TreeOk(Apply(fs, op))
  {
    hide Entries, EncodeEntry;
    var gs := Apply(fs, op);
    forall i: nat
      ensures Referenced(gs, i) <==> Referenced(fs, i) || i == op.i
    {
      LinkReferenced(fs, op, i);
    }
    forall d: nat | IsDir(gs, d)
      ensures DirOk(gs, d)
    {
      LinkDirOk(fs, op, d);
    }
    LinkOneRef(fs, op);
  }

  lemma LinkOneRef(fs: Fs, op: Op)
    requires TreeOk(fs) && Legal(fs, op) && op.Link?
    ensures var gs := Apply(fs, op);
      forall d: nat, k: nat, d2: nat, k2: nat, i: nat {:trigger Refers(gs, d, k, i), Refers(gs, d2, k2, i)} ::
        Refers(gs, d, k, i) && Refers(gs, d2, k2, i) ==> d == d2 && k == k2
  {
    hide Entries, EncodeEntry;
    LinkRefers(fs, op.dir, op.name, op.i);
    assert !Referenced(fs, op.i);
  }

  /** Entering a node keeps the forest exactly when the directory lacks the name as it is cut. */
  lemma LinkKeepsIff(fs: Fs, d: nat, name: seq<byte>, i: nat)
    requires TreeOk(fs) && CanEnter(fs, d, name, i)
    ensures TreeOk(Linked(fs, d, name, i)) <==> Find(Dir(fs, d), CutName(name)) == None
  {
    var f := Find(Dir(fs, d), CutName(name));
    if f == None {
      LinkKeeps(fs, Link(d, name, i));
    } else {
      var gs := Linked(fs, d, name, i);
      LinkRefers(fs, d, name, i);
      hide Entries, EncodeEntry;
      assert Dir(gs, d)[f.value].name == Dir(gs, d)[|Dir(fs, d)|].name;
      assert !DirOk(gs, d);
    }
  }

  lemma CutAtNul(name: seq<byte>, rest: seq<byte>)
    requires forall k :: 0 <= k < |name| ==> name[k] != 0
    ensures CutName(name + [0] + rest) == name
  {
    var all := name + [0] + rest;
    var n := NameLength(all);
    assert forall k :: 0 <= k < |name| ==> all[k] == name[k];
    assert all[|name|] == 0;
    assert all[..|name|] == name;
  }

  /** Whenever a directory holds a name, creating that name with a NUL and more behind it passes the
      check for an existing entry and breaks the tree. */
  lemma NulNameBreaks(fs: Fs, d: nat, name: seq<byte>, rest: seq<byte>, i: nat)
    requires TreeOk(fs) && CanEnter(fs, d, name + [0] + rest, i) && Find(Dir(fs, d), name).Some?
    ensures Find(Dir(fs, d), name + [0] + rest) == None
    ensures !TreeOk(Linked(fs, d, name + [0] + rest, i))
  {
    var es, all := Dir(fs, d), name + [0] + rest;
    assert DirOk(fs, d);
    var k := Find(es, name).value;
    assert GoodName(es[k].name);
    CutAtNul(name, rest);
    LinkKeepsIff(fs, d, all, i);
    assert all[|name|] == 0;
    hide Dir, Linked;
    assert forall j: nat :: j < |es| ==> GoodName(es[j].name);
    assert !GoodName(all);
  }

  // ----- runs -----

  /** `gs` is reached from `fs` by the operations `ops`, each of them legal when it is made. */
  ghost predicate Reaches(fs: Fs, ops: seq<Op>, gs: Fs)
    decreases |ops|
  {
    if ops == [] then fs == gs
    else Legal(fs, ops[0]) && Reaches(Apply(fs, ops[0]), ops[1..], gs)
  }

  /** Every run keeps the forest. */
  lemma {:induction false} RunKeeps(fs: Fs, ops: seq<Op>, gs: Fs)
    requires TreeOk(fs) && Reaches(fs, ops, gs)
    ensures TreeOk(gs)
    decreases |ops|
  {
    if ops != [] {
      StepKeeps(fs, ops[0]);
      RunKeeps(Apply(fs, ops[0]), ops[1..], gs);
    }
  }

  /** The entries one operation appends to directory `d`. */
  function Appended(op: Op, d: nat): seq<DirEntry> {
    if op.Link? && op.dir == d && op.i < 0x1_0000_0000_0000_0000 then [DirEntry(op.i, CutName(op.name))] else []
  }

  /** The entries that the creations in `ops` make in directory `d`, in order. */
  function CreatedIn(ops: seq<Op>, d: nat): seq<DirEntry> {
    if ops == [] then [] else Appended(ops[0], d) + CreatedIn(ops[1..], d)
  }

  /** A step appends to every directory exactly what it creates there. */
  lemma StepExtends(fs: Fs, op: Op, d: nat)
    requires TreeOk(fs) && Legal(fs, op) && IsDir(fs, d)
    ensures IsDir(Apply(fs, op), d) && Dir(Apply(fs, op), d) == Dir(fs, d) + Appended(op, d)
  {
    if op.Link? {
      LinkRefers(fs, op.dir, op.name, op.i);
    }
  }

  lemma StepKeeps(fs: Fs, op: Op)
    requires TreeOk(fs) && Legal(fs, op)
    ensures TreeOk(Apply(fs, op))
  {
    match op {
      case Write(_, _, _) => FileOpKeeps(fs, op);
      case Grow(_, _) => FileOpKeeps(fs, op);
      case Alloc(_, _) => AllocKeeps(fs, op);
      case Link(_, _, _) => LinkKeeps(fs, op);
    }
  }

  /** After every run a directory holds what it held before, then what the run created in it, in
      the order of creation. */
  lemma {:induction false} RunExtends(fs: Fs, ops: seq<Op>, gs: Fs, d: nat)
    requires TreeOk(fs) && Reaches(fs, ops, gs) && IsDir(fs, d)
    ensures IsDir(gs, d) && Dir(gs, d) == Dir(fs, d) + CreatedIn(ops, d)
    decreases |ops|
  {
    hide TreeOk, Dir, Apply, Legal, Appended;
    if ops != [] {
      var next := Apply(fs, ops[0]);
      StepKeeps(fs, ops[0]);
      StepExtends(fs, ops[0], d);
      RunExtends(next, ops[1..], gs, d);
      assert Dir(gs, d) == Dir(fs, d) + Appended(ops[0], d) + CreatedIn(ops[1..], d);
    }
  }

  /** Looking up in one list of entries after another. */
  lemma FindInBoth(es: seq<DirEntry>, more: seq<DirEntry>, name: seq<byte>)
    ensures Find(es + more, name) ==
      match Find(es, name)
      case Some(k) => Some(k)
      case None => match Find(more, name)
                   case Some(k) => Some(|es| + k)
                   case None => None
  {
    var all := es + more;
    assert forall k :: 0 <= k < |es| ==> all[k] == es[k];
    assert forall k :: 0 <= k < |more| ==> all[|es| + k] == more[k];
    match Find(es, name)
    case Some(k) =>
      assert all[k].name == name;
    case None =>
      match Find(more, name)
      case Some(k) =>
        assert all[|es| + k].name == name;
      case None =>
  }

  /** After every run a name is found exactly if it was there before or was created in the run, and
      at the place where it was entered; a name found once is found there ever after. */
  lemma FoundIffCreated(fs: Fs, ops: seq<Op>, gs: Fs, d: nat, name: seq<byte>)
    requires TreeOk(fs) && Reaches(fs, ops, gs) && IsDir(fs, d)
    ensures IsDir(gs, d)
    ensures Find(Dir(fs, d), name).Some? ==> Find(Dir(gs, d), name) == Find(Dir(fs, d), name)
    ensures Find(Dir(gs, d), name).Some? <==> Find(Dir(fs, d), name).Some? || WasCreated(ops, d, name)
    ensures Names(Dir(gs, d)) == Names(Dir(fs, d)) + Names(CreatedIn(ops, d))
  {
    hide TreeOk, Dir, Reaches, CreatedIn, Find;
    RunExtends(fs, ops, gs, d);
    FindInBoth(Dir(fs, d), CreatedIn(ops, d), name);
    CreatedFound(ops, d, name);
  }

  /** Some creation in `ops` entered `name` in directory `d`. */
  ghost predicate WasCreated(ops: seq<Op>, d: nat, name: seq<byte>) {
    exists k :: 0 <= k < |ops| && Enters(ops[k], d, name)
  }

  predicate Enters(op: Op, d: nat, name: seq<byte>) {
    op.Link? && op.dir == d && op.i < 0x1_0000_0000_0000_0000 && CutName(op.name) == name
  }

  lemma {:induction false} CreatedFound(ops: seq<Op>, d: nat, name: seq<byte>)
    ensures Find(CreatedIn(ops, d), name).Some? <==> WasCreated(ops, d, name)
    decreases |ops|
  {
    if ops != [] {
      var op, rest := ops[0], ops[1..];
      CreatedFound(rest, d, name);
      FindInBoth(Appended(op, d), CreatedIn(rest, d), name);
      assert Find(Appended(op, d), name).Some? <==> Enters(op, d, name);
      assert forall k :: 0 <= k < |rest| ==> rest[k] == ops[k + 1];
      if WasCreated(ops, d, name) {
        var k :| 0 <= k < |ops| && Enters(ops[k], d, name);
        assert k > 0 ==> Enters(rest[k - 1], d, name);
      }
      if WasCreated(rest, d, name) {
        var k :| 0 <= k < |rest| && Enters(rest[k], d, name);
        assert Enters(ops[k + 1], d, name);
      }
    }
  }
}

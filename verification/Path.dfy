/** Path strings: `skip` and the components of a path. */
module Path {
  import opened Common
  import opened Codec
  import Tree

  const SLASH: byte := 47

  /** The pieces of a path between slashes, `current` being the piece read so far; empty pieces
      are dropped. */
  function Pieces(path: seq<byte>, current: seq<byte>): seq<seq<byte>>
    decreases |path|
  {
    if path == [] then Piece(current)
    else if path[0] == SLASH then Piece(current) + Pieces(path[1..], [])
    else Pieces(path[1..], current + [path[0]])
  }

  function Piece(p: seq<byte>): seq<seq<byte>> {
    if p == [] then [] else [p]
  }

  /** The non-empty components of splitting on slashes. */
  function Components(path: seq<byte>): seq<seq<byte>> {
    Pieces(path, [])
  }

  predicate NoSlash(p: seq<byte>) {
    SLASH !in p
  }

  predicate AllSlash(p: seq<byte>) {
    forall i :: 0 <= i < |p| ==> p[i] == SLASH
  }

  /** Leading slashes do not matter. */
  lemma {:induction false} SkipSlashes(s: seq<byte>, path: seq<byte>)
    requires AllSlash(s)
    ensures Components(s + path) == Components(path)
  {
    if s == [] {
      assert s + path == path;
    } else {
      SkipSlashes(s[1..], path);
      assert (s + path)[1..] == s[1..] + path;
    }
  }

  /** Bytes without a slash extend the current piece. */
  lemma {:induction false} ReadPiece(name: seq<byte>, path: seq<byte>, current: seq<byte>)
    requires NoSlash(name)
    ensures Pieces(name + path, current) == Pieces(path, current + name)
  {
    if name == [] {
      assert name + path == path && current + name == current;
    } else {
      ReadPiece(name[1..], path, current + [name[0]]);
      assert (name + path)[1..] == name[1..] + path;
      assert current + [name[0]] + name[1..] == current + name;
    }
  }

  /** A name, then the end or a slash: the name is the first component. */
  lemma FirstComponent(name: seq<byte>, path: seq<byte>)
    requires name != [] && NoSlash(name) && (path == [] || path[0] == SLASH)
    ensures Components(name + path) == [name] + Components(path)
  {
    ReadPiece(name, path, []);
    assert [] + name == name;
  }

  /** Slashes up to `a`, a name up to `b`, slashes up to `c`: the name is the first component and
      the rest of the components is in what follows. */
  lemma SplitOff(path: seq<byte>, a: nat, b: nat, c: nat)
    requires a < b <= c <= |path|
    requires forall k :: 0 <= k < a ==> path[k] == SLASH
    requires forall k :: a <= k < b ==> path[k] != SLASH
    requires forall k :: b <= k < c ==> path[k] == SLASH
    requires b < |path| ==> path[b] == SLASH
    ensures Components(path) == [path[a..b]] + Components(path[c..])
  {
    hide Components;
    CutInTwo(path, 0, a);
    CutInTwo(path, a, b);
    CutInTwo(path, b, c);
    SkipSlashes(path[0..a], path[a..]);
    FirstComponent(path[a..b], path[b..]);
    SkipSlashes(path[b..c], path[c..]);
  }

  lemma CutInTwo(path: seq<byte>, a: nat, b: nat)
    requires a <= b <= |path|
    ensures path[a..b] + path[b..] == path[a..] && path[0..] == path
  {
  }

  lemma OnlySlashes(path: seq<byte>)
    requires AllSlash(path)
    ensures Components(path) == []
  {
    SkipSlashes(path, []);
    assert path + [] == path;
  }

  /** `skip`: the first component and the rest of the path, or `None` when there is no component.
      The rest is shorter and does not start with a slash. */
  method Skip(path: seq<byte>) returns (r: Option<(seq<byte>, seq<byte>)>)
    ensures r == None <==> Components(path) == []
    ensures r.Some? ==> r.value.0 != [] && NoSlash(r.value.0)
    ensures r.Some? ==> Components(path) == [r.value.0] + Components(r.value.1)
    ensures r.Some? ==> |r.value.1| < |path| && (r.value.1 != [] ==> r.value.1[0] != SLASH)
  {
    var p := 0;
    while p < |path| && path[p] == SLASH
      invariant p <= |path| && forall k :: 0 <= k < p ==> path[k] == SLASH
    {
      p := p + 1;
    }
    if p == |path| {
      OnlySlashes(path);
      return None;
    }
    var nameStart := p;
    while p < |path| && path[p] != SLASH
      invariant nameStart <= p <= |path| && forall k :: nameStart <= k < p ==> path[k] != SLASH
    {
      p := p + 1;
    }
    var nameEnd := p;
    while p < |path| && path[p] == SLASH
      invariant nameEnd <= p <= |path| && forall k :: nameEnd <= k < p ==> path[k] == SLASH
    {
      p := p + 1;
    }
    SplitOff(path, nameStart, nameEnd, p);
    r := Some((path[nameStart..nameEnd], path[p..]));
  }

  /** A path that is not empty and does not start with a slash has a component. */
  lemma HasComponent(path: seq<byte>)
    requires path != [] && path[0] != SLASH
    ensures Components(path) != []
  {
    NonEmptyPiece(path[1..], [path[0]]);
    assert [] + [path[0]] == [path[0]];
  }

  lemma {:induction false} NonEmptyPiece(path: seq<byte>, current: seq<byte>)
    requires current != []
    ensures Pieces(path, current) != []
    decreases |path|
  {
    if path != [] && path[0] != SLASH {
      NonEmptyPiece(path[1..], current + [path[0]]);
    }
  }

  // ----- walking -----

  /** Looking up the components one after the other, each in a directory. */
  function Walk(fs: Tree.Fs, i: nat, comps: seq<seq<byte>>): Option<nat>
    decreases |comps|
  {
    if comps == [] then Some(i)
    else if !Tree.IsDir(fs, i) then None
    else
      match Tree.Find(Tree.Dir(fs, i), comps[0])
      case None => None
      case Some(k) => Walk(fs, Tree.Dir(fs, i)[k].inum, comps[1..])
  }

  /** What `get_inode_from_path` computes: the walk, except that a path of slashes only finds
      nothing. */
  function PathTarget(fs: Tree.Fs, i: nat, path: seq<byte>): Option<nat> {
    if path != [] && Components(path) == [] then None else Walk(fs, i, Components(path))
  }

  /** Some directory on the way blocks the look-up of its component. */
  predicate WalkBlocks(fs: Tree.Fs, i: nat, comps: seq<seq<byte>>)
    decreases |comps|
  {
    comps != [] && Tree.IsDir(fs, i) &&
    (Tree.Blocks(Tree.Dir(fs, i), comps[0]) ||
     match Tree.Find(Tree.Dir(fs, i), comps[0])
     case None => false
     case Some(k) => WalkBlocks(fs, Tree.Dir(fs, i)[k].inum, comps[1..]))
  }

  predicate PathBlocks(fs: Tree.Fs, i: nat, path: seq<byte>) {
    WalkBlocks(fs, i, Components(path))
  }

  /** The nodes a walk asks for: those its look-ups find, up to one that blocks. */
  function WalkVisits(fs: Tree.Fs, i: nat, comps: seq<seq<byte>>): set<nat>
    decreases |comps|
  {
    if comps == [] || !Tree.IsDir(fs, i) || Tree.Blocks(Tree.Dir(fs, i), comps[0]) then {}
    else
      match Tree.Find(Tree.Dir(fs, i), comps[0])
      case None => {}
      case Some(k) => var next := Tree.Dir(fs, i)[k].inum; {next} + WalkVisits(fs, next, comps[1..])
  }

  function Visited(fs: Tree.Fs, i: nat, path: seq<byte>): set<nat> {
    WalkVisits(fs, i, Components(path))
  }

  lemma EmptyPathTarget(fs: Tree.Fs, i: nat)
    ensures PathTarget(fs, i, []) == Some(i) && !PathBlocks(fs, i, []) && Visited(fs, i, []) == {}
  {
  }

  lemma NoComponentTarget(fs: Tree.Fs, i: nat, path: seq<byte>)
    requires path != [] && Components(path) == []
    ensures PathTarget(fs, i, path) == None && !PathBlocks(fs, i, path) && Visited(fs, i, path) == {}
  {
  }

  /** One step of the walk. */
  lemma TargetStep(fs: Tree.Fs, i: nat, path: seq<byte>, name: seq<byte>, rest: seq<byte>)
    requires Components(path) == [name] + Components(rest) && (rest == [] || rest[0] != SLASH)
    ensures !Tree.IsDir(fs, i) ==>
      PathTarget(fs, i, path) == None && !PathBlocks(fs, i, path) && Visited(fs, i, path) == {}
    ensures Tree.IsDir(fs, i) && Tree.Blocks(Tree.Dir(fs, i), name) ==>
      PathBlocks(fs, i, path) && Visited(fs, i, path) == {}
    ensures Tree.IsDir(fs, i) && !Tree.Blocks(Tree.Dir(fs, i), name) ==>
      match Tree.Find(Tree.Dir(fs, i), name)
      case None => PathTarget(fs, i, path) == None && !PathBlocks(fs, i, path) && Visited(fs, i, path) == {}
      case Some(k) =>
        var next := Tree.Dir(fs, i)[k].inum;
        && PathTarget(fs, i, path) == PathTarget(fs, next, rest)
        && Visited(fs, i, path) == {next} + Visited(fs, next, rest)
        && (PathBlocks(fs, i, path) <==> PathBlocks(fs, next, rest))
  {
    if rest != [] {
      HasComponent(rest);
    }
  }

  /** Along every walk inode numbers grow, so a walk never returns to a directory it left. */
  lemma {:induction false} WalkGoesDown(fs: Tree.Fs, i: nat, comps: seq<seq<byte>>)
    requires Tree.TreeOk(fs) && Walk(fs, i, comps).Some?
    ensures Walk(fs, i, comps).value >= i + |comps|
    ensures comps != [] ==> Walk(fs, i, comps).value < |fs.nodes|
    decreases |comps|
  {
    if comps != [] {
      var k := Tree.Find(Tree.Dir(fs, i), comps[0]).value;
      assert Tree.DirOk(fs, i);
      WalkGoesDown(fs, Tree.Dir(fs, i)[k].inum, comps[1..]);
    }
  }

  /** A walk only asks for nodes with larger numbers than its start, so handles of the start and of
      what lies before it stay usable. */
  lemma {:induction false} VisitedAbove(fs: Tree.Fs, i: nat, comps: seq<seq<byte>>)
    requires Tree.TreeOk(fs)
    ensures forall j :: j in WalkVisits(fs, i, comps) ==> i < j
    decreases |comps|
  {
    if WalkVisits(fs, i, comps) != {} {
      var k := Tree.Find(Tree.Dir(fs, i), comps[0]).value;
      assert Tree.DirOk(fs, i);
      VisitedAbove(fs, Tree.Dir(fs, i)[k].inum, comps[1..]);
    }
  }

  lemma OneComponent(name: seq<byte>)
    requires name != [] && NoSlash(name)
    ensures Components(name) == [name] && Components([]) == []
  {
    FirstComponent(name, []);
    assert name + [] == name;
    assert Components([]) == [];
  }

  /** A path of one component is found where the directory has it, and blocks where looking it up does. */
  lemma OneComponentTarget(fs: Tree.Fs, d: nat, name: seq<byte>)
    requires name != [] && NoSlash(name) && Tree.IsDir(fs, d)
    ensures PathBlocks(fs, d, name) <==> Tree.Blocks(Tree.Dir(fs, d), name)
    ensures !PathBlocks(fs, d, name) ==>
      PathTarget(fs, d, name) == match Tree.Find(Tree.Dir(fs, d), name)
                                 case None => None
                                 case Some(k) => Some(Tree.Dir(fs, d)[k].inum)
  {
    hide Tree.Find, Tree.Dir, Tree.Blocks, Components;
    OneComponent(name);
    TargetStep(fs, d, name, name, []);
    match Tree.Find(Tree.Dir(fs, d), name)
    case None =>
    case Some(k) => EmptyPathTarget(fs, Tree.Dir(fs, d)[k].inum);
  }

  /** A node entered under a name without a slash that the directory lacked is what the path of that
      name leads to. */
  lemma EnteredIsFound(v: Tree.Fs, d: nat, name: seq<byte>, i: nat)
    requires Tree.IsDir(v, d) && |v.nodes[d].bytes| % DIR_ENTRY_SIZE == 0
    requires GoodName(name) && name != [] && NoSlash(name)
    requires d != i && i < |v.nodes| < 0x1_0000_0000_0000_0000
    requires Tree.Find(Tree.Dir(v, d), name) == None
    ensures var w := Tree.Linked(v, d, name, i);
      && (PathBlocks(w, d, name) <==> |Tree.Dir(v, d)| >= Tree.DIRECT_ENTRIES)
      && (!PathBlocks(w, d, name) ==> PathTarget(w, d, name) == Some(i))
  {
    hide PathTarget, PathBlocks, Codec.EncodeEntry, Codec.CutName;
    var w := Tree.Linked(v, d, name, i);
    Tree.AppendEntry(v.nodes[d].bytes, DirEntry(i, name));
    OneComponentTarget(w, d, name);
    Tree.FindInBoth(Tree.Dir(v, d), [DirEntry(i, name)], name);
  }
}

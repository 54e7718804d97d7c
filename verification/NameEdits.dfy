/** What adding, dropping and moving a name does to every path of the tree. */
module NameEdits {
  import opened Tilings
  import opened NameTrees

  /** The path's directory part and its last component. */
  function Front(path: Path): Path
    requires path != []
  {
    path[..|path|-1]
  }

  function Last(path: Path): string
    requires path != []
  {
    path[|path|-1]
  }

  /** The entry a path names, when its directory part leads to a directory. */
  ghost predicate Placed(t: Tree, path: Path) {
    path != [] && Resolve(t, Front(path)).Some? && IsDir(t, Resolve(t, Front(path)).value)
  }

  ghost function EntryOf(t: Tree, path: Path): Key
    requires Placed(t, path)
  {
    Key(Resolve(t, Front(path)).value, Last(path))
  }

  lemma ResolveEntryOf(t: Tree, path: Path)
    requires Placed(t, path)
    ensures Resolve(t, path) == if EntryOf(t, path) in t.dentries then Some(t.dentries[EntryOf(t, path)]) else None
  {
    WalkLast(t, ROOT, path);
  }

  lemma ResolvedIsPlaced(t: Tree, path: Path)
    requires Shape(t) && path != [] && Resolve(t, path).Some?
    ensures Placed(t, path)
  {
    PassesDirectories(t, Front(path), path);
  }

  // ----- a new name

  function Added(t: Tree, key: Key, i: nat, kind: Kind): Tree {
    Tree(t.inodes[i := Inode(kind, 1)], t.dentries[key := i])
  }

  ghost predicate CanAdd(t: Tree, path: Path, i: nat) {
    WellFormed(t) && Placed(t, path) && Resolve(t, path) == None && i !in t.inodes
  }

  lemma AddedShape(t: Tree, path: Path, i: nat, kind: Kind)
    requires CanAdd(t, path, i)
    ensures var t' := Added(t, EntryOf(t, path), i, kind);
            Shape(t') && SameOff(t, t', EntryOf(t, path)) && EntryOf(t, path) !in t.dentries
  {
    hide Resolve, Reachable, Counted;
    ResolveEntryOf(t, path);
    var t' := Added(t, EntryOf(t, path), i, kind);
    forall a, b | NameOneDir(t', a, b) ensures a == b {
      assert a in t.dentries ==> t.dentries[a] in t.inodes;
      assert b in t.dentries ==> t.dentries[b] in t.inodes;
      assert a in t.dentries && b in t.dentries ==> NameOneDir(t, a, b);
    }
  }

  /** Creating `path` makes it lead to the new inode and changes no other path. */
  lemma AddedResolves(t: Tree, path: Path, i: nat, kind: Kind, p: Path)
    requires CanAdd(t, path, i)
    ensures Resolve(Added(t, EntryOf(t, path), i, kind), p)
         == if p == path then Some(i) else Resolve(t, p)
  {
    hide Resolve, Reachable, Counted, Shape, SameOff;
    var t' := Added(t, EntryOf(t, path), i, kind);
    AddedShape(t, path, i, kind);
    var dir, name := Front(path), Last(path);
    assert dir + [name] == path;
    if path <= p {
      var rest := p[|path|..];
      assert path + rest == p;
      ResolveElsewhere(t, t', dir, dir, name);
      ResolveEntry(t', dir, name, rest);
      NothingBelowNew(t, path, i, kind, rest);
      if p != path {
        NothingBelowMissing(t, path, p);
      }
    } else {
      ResolveElsewhere(t, t', p, dir, name);
    }
  }

  lemma NothingBelowMissing(t: Tree, a: Path, b: Path)
    requires Resolve(t, a) == None && a <= b
    ensures Resolve(t, b) == None
  {
    if Resolve(t, b).Some? {
      PrefixResolves(t, a, b);
    }
  }

  lemma NothingBelowNew(t: Tree, path: Path, i: nat, kind: Kind, rest: Path)
    requires CanAdd(t, path, i)
    ensures Walk(Added(t, EntryOf(t, path), i, kind), i, rest) == if rest == [] then Some(i) else None
  {
    hide Resolve, Reachable, Counted;
    if rest != [] && Key(i, rest[0]) in t.dentries {
      EntryIn(t, Key(i, rest[0]));
    }
  }

  lemma AddedWellFormed(t: Tree, path: Path, i: nat, kind: Kind)
    requires CanAdd(t, path, i)
    ensures WellFormed(Added(t, EntryOf(t, path), i, kind))
  {
    hide Resolve, Shape, SameOff, Counted;
    var key := EntryOf(t, path);
    var t' := Added(t, key, i, kind);
    AddedShape(t, path, i, kind);
    forall d: nat | IsDir(t', d) ensures Reachable(t', d) {
      if d == i {
        AddedResolves(t, path, i, kind, path);
      } else {
        assert IsDir(t, d);
        var p: Path :| Resolve(t, p) == Some(d);
        AddedResolves(t, path, i, kind, p);
      }
    }
    forall j | j in t'.inodes ensures Counted(t', j) {
      AddedCounts(t, key, i, kind, j);
    }
  }

  lemma AddedCounts(t: Tree, key: Key, i: nat, kind: Kind, j: nat)
    requires Shape(t) && key !in t.dentries && i !in t.inodes
    requires j in t.inodes ==> Counted(t, j)
    requires j == i || j in t.inodes
    ensures Counted(Added(t, key, i, kind), j)
  {
    var t' := Added(t, key, i, kind);
    if j == i {
      forall k | k in t.dentries ensures t.dentries[k] != i {
        EntryIn(t, k);
      }
      assert Names(t', i) == {key};
    } else {
      assert Names(t', j) == Names(t, j);
    }
  }

  // ----- a name gone

  /** Drop a name: a directory goes with its name, a file when it was its last. */
  function Dropped(t: Tree, key: Key): Tree
    requires key in t.dentries && t.dentries[key] in t.inodes
  {
    var i := t.dentries[key];
    var inode := t.inodes[i];
    Tree(if inode.kind == Dir || inode.nlink - 1 <= 0 then t.inodes - {i}
         else t.inodes[i := inode.(nlink := inode.nlink - 1)],
         t.dentries - {key})
  }

  ghost predicate CanDrop(t: Tree, path: Path) {
    && WellFormed(t) && path != [] && Resolve(t, path).Some?
    && (IsDir(t, Resolve(t, path).value) ==> Childless(t, Resolve(t, path).value))
  }

  lemma EntryPresent(t: Tree, path: Path)
    requires Shape(t) && path != [] && Resolve(t, path).Some?
    ensures Placed(t, path) && EntryOf(t, path) in t.dentries
    ensures t.dentries[EntryOf(t, path)] == Resolve(t, path).value && Resolve(t, path).value in t.inodes
  {
    hide Resolve, Shape;
    ResolvedIsPlaced(t, path);
    ResolveEntryOf(t, path);
    EntryIn(t, EntryOf(t, path));
  }

  /** Removing `path` makes it and everything below it lead nowhere and changes no other
      path. */
  lemma DroppedResolves(t: Tree, path: Path, p: Path)
    requires CanDrop(t, path)
    ensures Placed(t, path) && EntryOf(t, path) in t.dentries && Resolve(t, path).value in t.inodes
    ensures t.dentries[EntryOf(t, path)] == Resolve(t, path).value
    ensures Resolve(Dropped(t, EntryOf(t, path)), p) == if path <= p then None else Resolve(t, p)
  {
    hide Resolve, Reachable, Counted, Shape;
    EntryPresent(t, path);
    Unlinked(t, Dropped(t, EntryOf(t, path)), path, p);
  }

  lemma Unlinked(t: Tree, t': Tree, path: Path, p: Path)
    requires Shape(t) && Placed(t, path)
    requires t'.dentries == t.dentries - {EntryOf(t, path)}
    ensures Resolve(t', p) == if path <= p then None else Resolve(t, p)
  {
    hide Resolve, Shape;
    var dir, name := Front(path), Last(path);
    assert dir + [name] == path;
    if path <= p {
      assert path + p[|path|..] == p;
      ResolveElsewhere(t, t', dir, dir, name);
      ResolveGone(t', dir, name, p[|path|..]);
    } else {
      ResolveElsewhere(t, t', p, dir, name);
    }
  }

  /** Nothing lies below a file or an empty directory. */
  lemma LeafIsLast(t: Tree, path: Path, p: Path)
    requires CanDrop(t, path) && path <= p && Resolve(t, p).Some?
    ensures p == path
  {
    hide Walk, Reachable, Counted, Shape;
    if path < p {
      PassesDirectories(t, path, p);
      var rest := p[|path|..];
      assert path + rest == p;
      WalkAppend(t, ROOT, path, rest);
      WalkStarts(t, Resolve(t, path).value, rest);
      assert false;
    }
  }

  lemma WalkStarts(t: Tree, i: nat, rest: Path)
    requires rest != [] && Walk(t, i, rest).Some?
    ensures !Childless(t, i)
  {
    assert Key(i, rest[0]) in t.dentries;
  }

  lemma DroppedShape(t: Tree, path: Path)
    requires CanDrop(t, path)
    ensures Placed(t, path) && EntryOf(t, path) in t.dentries && t.dentries[EntryOf(t, path)] in t.inodes
    ensures Shape(Dropped(t, EntryOf(t, path)))
  {
    hide Resolve, Reachable;
    EntryPresent(t, path);
    var key, i := EntryOf(t, path), Resolve(t, path).value;
    var t' := Dropped(t, key);
    assert i != ROOT && Counted(t, i);
    forall k | k in t'.dentries
      ensures IsDir(t', k.parent) && t'.dentries[k] in t'.inodes && t'.dentries[k] != ROOT
    {
      assert k in t.dentries && k.parent != i;
      assert NameOneDir(t, k, key) ==> k == key;
      if t.dentries[k] == i {
        TwoNames(t, i, k, key);
      }
    }
    forall a, b | NameOneDir(t', a, b) ensures a == b {
      assert NameOneDir(t, a, b);
    }
  }

  lemma TwoNames(t: Tree, i: nat, a: Key, b: Key)
    requires a in t.dentries && b in t.dentries && t.dentries[a] == i == t.dentries[b] && a != b
    ensures |Names(t, i)| >= 2
  {
    assert {a, b} <= Names(t, i);
    SubsetCount({a, b}, Names(t, i));
  }

  lemma SubsetCount(a: set<Key>, b: set<Key>)
    requires a <= b
    ensures |a| <= |b|
  {
    assert b == a + (b - a);
  }

  lemma DroppedWellFormed(t: Tree, path: Path)
    requires CanDrop(t, path)
    ensures Placed(t, path) && EntryOf(t, path) in t.dentries && t.dentries[EntryOf(t, path)] in t.inodes
    ensures WellFormed(Dropped(t, EntryOf(t, path)))
  {
    hide Resolve, Shape, Counted;
    DroppedShape(t, path);
    EntryPresent(t, path);
    var t' := Dropped(t, EntryOf(t, path));
    forall d: nat | IsDir(t', d) ensures Reachable(t', d) {
      assert IsDir(t, d);
      var p: Path :| Resolve(t, p) == Some(d);
      DroppedResolves(t, path, p);
      if path <= p {
        LeafIsLast(t, path, p);
        assert false;
      }
    }
    forall j | j in t'.inodes ensures Counted(t', j) {
      DroppedCounts(t, EntryOf(t, path), j);
    }
  }

  lemma DroppedCounts(t: Tree, key: Key, j: nat)
    requires key in t.dentries && t.dentries[key] in t.inodes && j in t.inodes && Counted(t, j)
    requires j in Dropped(t, key).inodes
    ensures Counted(Dropped(t, key), j)
  {
    var t' := Dropped(t, key);
    if j == t.dentries[key] {
      assert Names(t', j) == Names(t, j) - {key};
    } else {
      assert Names(t', j) == Names(t, j);
    }
  }

  // ----- a name moved

  function Moved(t: Tree, src: Key, dst: Key): Tree
    requires src in t.dentries
  {
    Tree(t.inodes, (t.dentries - {src})[dst := t.dentries[src]])
  }

  /** `from` leads somewhere, `to` is free and not inside `from`. */
  ghost predicate CanMove(t: Tree, from: Path, to: Path) {
    && WellFormed(t)
    && from != [] && Resolve(t, from).Some?
    && Placed(t, to) && Resolve(t, to) == None
    && !(from <= Front(to))
  }

  /** Where `p` leads once `from` became `to`. */
  ghost function Substituted(t: Tree, from: Path, to: Path, p: Path): Option<nat> {
    if to <= p then Resolve(t, from + p[|to|..])
    else if from <= p then None
    else Resolve(t, p)
  }

  lemma MovedShape(t: Tree, from: Path, to: Path)
    requires CanMove(t, from, to)
    ensures Placed(t, from) && EntryOf(t, from) in t.dentries
    ensures EntryOf(t, to) !in t.dentries
    ensures Shape(Tree(t.inodes, t.dentries - {EntryOf(t, from)}))
    ensures Shape(Moved(t, EntryOf(t, from), EntryOf(t, to)))
  {
    hide Resolve, Reachable, Counted;
    EntryPresent(t, from);
    ResolveEntryOf(t, to);
    var src, dst := EntryOf(t, from), EntryOf(t, to);
    var mid, t' := Tree(t.inodes, t.dentries - {src}), Moved(t, src, dst);
    forall a, b | NameOneDir(mid, a, b) ensures a == b {
      assert NameOneDir(t, a, b);
    }
    forall a, b | NameOneDir(t', a, b) ensures a == b {
      assert NameOneDir(t, if a == dst then src else a, if b == dst then src else b);
    }
  }

  lemma MovedResolves(t: Tree, from: Path, to: Path, p: Path)
    requires CanMove(t, from, to)
    ensures Placed(t, from) && EntryOf(t, from) in t.dentries
    ensures Resolve(Moved(t, EntryOf(t, from), EntryOf(t, to)), p) == Substituted(t, from, to, p)
  {
    hide Resolve, Reachable, Counted, Shape;
    MovedShape(t, from, to);
    var mid := Tree(t.inodes, t.dentries - {EntryOf(t, from)});
    var t' := Moved(t, EntryOf(t, from), EntryOf(t, to));
    Unlinked(t, mid, from, Front(to));
    var dir, name := Front(to), Last(to);
    assert dir + [name] == to;
    if to <= p {
      var rest := p[|to|..];
      assert to + rest == p;
      ResolveElsewhere(mid, t', dir, dir, name);
      ResolveEntry(t', dir, name, rest);
      CarriedAlong(t, mid, t', from, to, rest);
    } else {
      ResolveElsewhere(mid, t', p, dir, name);
      Unlinked(t, mid, from, p);
    }
  }

  /** Below the moved inode nothing changes. */
  lemma CarriedAlong(t: Tree, mid: Tree, t': Tree, from: Path, to: Path, rest: Path)
    requires CanMove(t, from, to) && Placed(t, from) && EntryOf(t, from) in t.dentries
    requires mid == Tree(t.inodes, t.dentries - {EntryOf(t, from)})
    requires t' == Moved(t, EntryOf(t, from), EntryOf(t, to)) && Shape(mid) && Shape(t')
    requires Resolve(t', Front(to)) == Resolve(t, Front(to))
    ensures Walk(t', t.dentries[EntryOf(t, from)], rest) == Resolve(t, from + rest)
  {
    hide Walk, Reachable, Counted, Shape;
    var i := t.dentries[EntryOf(t, from)];
    ResolveEntryOf(t, from);
    ResolveEntryOf(t', to);
    assert Front(to) + [Last(to)] == to;
    assert Front(from) + [Last(from)] == from;
    WalkElsewhere(t', mid, to, rest, Front(to), Last(to));
    WalkElsewhere(t, mid, from, rest, Front(from), Last(from));
    WalkAppend(t, ROOT, from, rest);
  }

  lemma MovedWellFormed(t: Tree, from: Path, to: Path)
    requires CanMove(t, from, to)
    ensures Placed(t, from) && EntryOf(t, from) in t.dentries
    ensures WellFormed(Moved(t, EntryOf(t, from), EntryOf(t, to)))
  {
    hide Resolve, Shape, Counted;
    MovedShape(t, from, to);
    var src, dst := EntryOf(t, from), EntryOf(t, to);
    var t' := Moved(t, src, dst);
    forall d: nat | IsDir(t', d) ensures Reachable(t', d) {
      assert IsDir(t, d);
      var p: Path :| Resolve(t, p) == Some(d);
      if from <= p {
        var rest := p[|from|..];
        assert from + rest == p;
        assert (to + rest)[|to|..] == rest;
        MovedResolves(t, from, to, to + rest);
      } else {
        if to <= p {
          NothingBelowMissing(t, to, p);
        }
        MovedResolves(t, from, to, p);
      }
    }
    forall j | j in t'.inodes ensures Counted(t', j) {
      MovedCounts(t, src, dst, j);
    }
  }

  lemma MovedCounts(t: Tree, src: Key, dst: Key, j: nat)
    requires src in t.dentries && dst !in t.dentries && j in t.inodes && Counted(t, j)
    ensures Counted(Moved(t, src, dst), j)
  {
    var t' := Moved(t, src, dst);
    if j == t.dentries[src] {
      assert Names(t', j) == Names(t, j) - {src} + {dst};
    } else {
      assert Names(t', j) == Names(t, j);
    }
  }

  // ----- rename

  /** The destination's entry, if there is one, is dropped before the move. */
  function Renamed(t: Tree, src: Key, dst: Key): Tree
    requires src in t.dentries && src != dst
    requires dst in t.dentries ==> t.dentries[dst] in t.inodes
  {
    Moved(if dst in t.dentries then Dropped(t, dst) else t, src, dst)
  }

  ghost predicate CanRename(t: Tree, from: Path, to: Path) {
    && WellFormed(t)
    && from != [] && Resolve(t, from).Some?
    && Placed(t, to) && !(from <= Front(to))
    && Resolve(t, to) != Resolve(t, from)
    && (Resolve(t, to).Some? ==> CanDrop(t, to))
  }

  /** A replaceable destination does not hold the source. */
  lemma DestinationApart(t: Tree, from: Path, to: Path)
    requires CanRename(t, from, to)
    ensures !(to <= from)
  {
    if to <= from {
      PrefixResolves(t, to, from);
      LeafIsLast(t, to, from);
    }
  }

  /** What is left once the destination's entry is dropped. */
  lemma Cleared(t: Tree, from: Path, to: Path) returns (free: Tree)
    requires CanRename(t, from, to)
    ensures Placed(t, from) && EntryOf(t, from) in t.dentries && EntryOf(t, from) != EntryOf(t, to)
    ensures EntryOf(t, to) in t.dentries ==> t.dentries[EntryOf(t, to)] in t.inodes
    ensures free == (if EntryOf(t, to) in t.dentries then Dropped(t, EntryOf(t, to)) else t)
    ensures CanMove(free, from, to)
    ensures forall p: Path | !(to <= p) :: Resolve(free, p) == Resolve(t, p)
    ensures Placed(free, from) && EntryOf(free, from) == EntryOf(t, from) && EntryOf(free, to) == EntryOf(t, to)
  {
    hide Resolve, Reachable, Counted, Shape;
    EntryPresent(t, from);
    ResolveEntryOf(t, to);
    DestinationApart(t, from, to);
    free := t;
    if Resolve(t, to).Some? {
      DroppedWellFormed(t, to);
      free := Dropped(t, EntryOf(t, to));
      DroppedResolves(t, to, to);
      forall p: Path | !(to <= p) ensures Resolve(free, p) == Resolve(t, p) {
        DroppedResolves(t, to, p);
      }
      DirectoriesStay(t, to, Front(to));
    }
    ResolvedIsPlaced(free, from);
    assert !(to <= Front(from)) && !(to <= Front(to));
  }

  lemma DirectoriesStay(t: Tree, path: Path, dir: Path)
    requires CanDrop(t, path) && !(path <= dir)
    requires Resolve(t, dir).Some? && IsDir(t, Resolve(t, dir).value)
    ensures Placed(t, path) && EntryOf(t, path) in t.dentries && t.dentries[EntryOf(t, path)] in t.inodes
    ensures IsDir(Dropped(t, EntryOf(t, path)), Resolve(t, dir).value)
  {
    hide Resolve, Reachable, Counted, Shape;
    EntryPresent(t, path);
    if Resolve(t, dir) == Resolve(t, path) {
      OnePath(t, dir, path);
    }
  }

  /** After a rename `to/q` leads where `from/q` did, `from` and everything below it lead
      nowhere, and paths under neither are unchanged; the tree is still a tree. */
  lemma RenameSubstitutes(t: Tree, from: Path, to: Path, p: Path)
    requires CanRename(t, from, to)
    ensures Placed(t, from) && EntryOf(t, from) in t.dentries && EntryOf(t, from) != EntryOf(t, to)
    ensures EntryOf(t, to) in t.dentries ==> t.dentries[EntryOf(t, to)] in t.inodes
    ensures WellFormed(Renamed(t, EntryOf(t, from), EntryOf(t, to)))
    ensures Resolve(Renamed(t, EntryOf(t, from), EntryOf(t, to)), p) == Substituted(t, from, to, p)
  {
    hide Resolve, WellFormed;
    var free := Cleared(t, from, to);
    MovedWellFormed(free, from, to);
    MovedResolves(free, from, to, p);
    if to <= p {
      RenameApart(t, from, to, p[|to|..]);
    }
  }

  lemma RenameApart(t: Tree, from: Path, to: Path, rest: Path)
    requires CanRename(t, from, to)
    ensures !(to <= from + rest)
  {
    DestinationApart(t, from, to);
    if to <= from + rest {
      PrefixCases(from, to, rest);
    }
  }

  lemma PrefixCases(from: Path, to: Path, rest: Path)
    requires to != [] && to <= from + rest
    ensures to <= from || from <= Front(to)
  {
  }
}

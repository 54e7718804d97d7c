/** The directory tree as two maps, inodes and named edges, and what a path means in
    it. */
module NameTrees {
  import opened Tilings

  datatype Kind = Dir | File | Symlink

  datatype Inode = Inode(kind: Kind, nlink: int)

  /** A directory entry's place: the directory it is in and its name there. */
  datatype Key = Key(parent: nat, name: string)

  datatype Tree = Tree(inodes: map<nat, Inode>, dentries: map<Key, nat>)

  /** The components of an absolute path. */
  type Path = seq<string>

  const ROOT: nat := 1

  /** Where `path` leads from inode `i`. */
  function Walk(t: Tree, i: nat, path: Path): Option<nat>
    decreases |path|
  {
    if path == [] then Some(i)
    else if Key(i, path[0]) in t.dentries then Walk(t, t.dentries[Key(i, path[0])], path[1..])
    else None
  }

  function Resolve(t: Tree, path: Path): Option<nat> {
    Walk(t, ROOT, path)
  }

  predicate IsDir(t: Tree, i: nat) {
    i in t.inodes && t.inodes[i].kind == Dir
  }

  /** Every name of inode `i`. */
  function Names(t: Tree, i: nat): set<Key> {
    set key | key in t.dentries && t.dentries[key] == i
  }

  predicate Childless(t: Tree, i: nat) {
    forall key | key in t.dentries :: key.parent != i
  }

  // ----- the invariant

  /** Two entries that name one directory. */
  ghost predicate NameOneDir(t: Tree, a: Key, b: Key) {
    a in t.dentries && b in t.dentries && t.dentries[a] == t.dentries[b] && IsDir(t, t.dentries[a])
  }

  /** Entries stand in directories and lead to inodes; a directory has at most one
      name, the root none. */
  ghost predicate Shape(t: Tree) {
    && IsDir(t, ROOT)
    && (forall key | key in t.dentries ::
          IsDir(t, key.parent) && t.dentries[key] in t.inodes && t.dentries[key] != ROOT)
    && (forall a, b | NameOneDir(t, a, b) :: a == b)
  }

  ghost predicate Reachable(t: Tree, i: nat) {
    exists path :: Resolve(t, path) == Some(i)
  }

  /** A file's link count is the number of its names, and it has one. */
  ghost predicate Counted(t: Tree, i: nat)
    requires i in t.inodes
  {
    t.inodes[i].kind != Dir ==> t.inodes[i].nlink == |Names(t, i)| > 0
  }

  ghost predicate WellFormed(t: Tree) {
    && Shape(t)
    && (forall i | IsDir(t, i) :: Reachable(t, i))
    && (forall i | i in t.inodes :: Counted(t, i))
  }

  // ----- walking

  lemma {:induction false} WalkAppend(t: Tree, i: nat, a: Path, b: Path)
    ensures Walk(t, i, a + b) == if Walk(t, i, a).Some? then Walk(t, Walk(t, i, a).value, b) else None
    decreases |a|
  {
    if a == [] {
      assert a + b == b;
    } else {
      assert (a + b)[0] == a[0] && (a + b)[1..] == a[1..] + b;
      if Key(i, a[0]) in t.dentries {
        WalkAppend(t, t.dentries[Key(i, a[0])], a[1..], b);
      }
    }
  }

  /** The last edge of a walk. */
  lemma WalkLast(t: Tree, i: nat, path: Path)
    requires path != []
    ensures var front := Walk(t, i, path[..|path|-1]);
            var name := path[|path|-1];
            Walk(t, i, path) == if front.Some? && Key(front.value, name) in t.dentries
                                then Some(t.dentries[Key(front.value, name)]) else None
  {
    var front, last := path[..|path|-1], path[|path|-1..];
    assert front + last == path;
    WalkAppend(t, i, front, last);
    if Walk(t, i, front).Some? {
      assert last[1..] == [];
    }
  }

  /** A directory has one path. */
  lemma {:induction false} OnePath(t: Tree, a: Path, b: Path)
    requires Shape(t) && Resolve(t, a).Some? && Resolve(t, a) == Resolve(t, b) && IsDir(t, Resolve(t, a).value)
    ensures a == b
    decreases |a|
  {
    hide Walk;
    if a == [] {
      if b != [] {
        WalkLast(t, ROOT, b);
        RootPath(t);
        assert false;
      }
    } else if b == [] {
      WalkLast(t, ROOT, a);
      RootPath(t);
      assert false;
    } else {
      WalkLast(t, ROOT, a);
      WalkLast(t, ROOT, b);
      assert NameOneDir(t, Key(Resolve(t, a[..|a|-1]).value, a[|a|-1]), Key(Resolve(t, b[..|b|-1]).value, b[|b|-1]));
      OnePath(t, a[..|a|-1], b[..|b|-1]);
      assert a == a[..|a|-1] + [a[|a|-1]];
      assert b == b[..|b|-1] + [b[|b|-1]];
    }
  }

  lemma RootPath(t: Tree)
    ensures Resolve(t, []) == Some(ROOT)
  {
  }

  /** Everything a path leads to exists. */
  lemma ResolvesToInode(t: Tree, path: Path)
    requires Shape(t) && Resolve(t, path).Some?
    ensures Resolve(t, path).value in t.inodes
    ensures path != [] ==> Resolve(t, path).value != ROOT
  {
    hide Walk;
    if path == [] {
      RootPath(t);
    } else {
      WalkLast(t, ROOT, path);
    }
  }

  /** Only directories are passed through. */
  lemma PassesDirectories(t: Tree, a: Path, b: Path)
    requires Shape(t) && Resolve(t, b).Some? && a < b
    ensures Resolve(t, a).Some? && IsDir(t, Resolve(t, a).value)
  {
    hide Shape;
    var rest := b[|a|..];
    assert b == a + rest && rest != [];
    WalkAppend(t, ROOT, a, rest);
    var i := Resolve(t, a).value;
    assert Key(i, rest[0]) in t.dentries;
    EntryIn(t, Key(i, rest[0]));
  }

  lemma EntryIn(t: Tree, key: Key)
    requires Shape(t) && key in t.dentries
    ensures IsDir(t, key.parent) && t.dentries[key] in t.inodes && t.dentries[key] != ROOT
  {
  }

  lemma PrefixResolves(t: Tree, a: Path, b: Path)
    requires Resolve(t, b).Some? && a <= b
    ensures Resolve(t, a).Some?
  {
    assert b == a + b[|a|..];
    WalkAppend(t, ROOT, a, b[|a|..]);
  }

  /** No directory lies inside itself. */
  lemma NoCycle(t: Tree, d: nat, path: Path)
    requires WellFormed(t) && IsDir(t, d) && Walk(t, d, path) == Some(d)
    ensures path == []
  {
    hide Walk;
    assert Reachable(t, d);
    var home: Path :| Resolve(t, home) == Some(d);
    WalkAppend(t, ROOT, home, path);
    OnePath(t, home, home + path);
  }

  // ----- one entry changed

  ghost predicate SameOff(t: Tree, t': Tree, key: Key) {
    forall k | k != key ::
      (k in t.dentries <==> k in t'.dentries) && (k in t.dentries ==> t.dentries[k] == t'.dentries[k])
  }

  /** Whether following `path` from `i` looks `key` up. */
  predicate Tries(t: Tree, i: nat, path: Path, key: Key)
    decreases |path|
  {
    path != [] &&
    (Key(i, path[0]) == key ||
     (Key(i, path[0]) in t.dentries && Tries(t, t.dentries[Key(i, path[0])], path[1..], key)))
  }

  lemma {:induction false} WalkUntried(t: Tree, t': Tree, i: nat, path: Path, key: Key)
    requires SameOff(t, t', key) && !Tries(t, i, path, key)
    ensures Walk(t', i, path) == Walk(t, i, path)
    decreases |path|
  {
    if path == [] {
    } else {
      assert Key(i, path[0]) in t.dentries <==> Key(i, path[0]) in t'.dentries;
      if Key(i, path[0]) in t.dentries {
        WalkUntried(t, t', t.dentries[Key(i, path[0])], path[1..], key);
      }
    }
  }

  lemma {:induction false} TriedAt(t: Tree, i: nat, path: Path, key: Key) returns (a: Path)
    requires Tries(t, i, path, key)
    ensures a + [key.name] <= path && Walk(t, i, a) == Some(key.parent)
    decreases |path|
  {
    if Key(i, path[0]) == key {
      a := [];
    } else {
      var next := t.dentries[Key(i, path[0])];
      var rest := TriedAt(t, next, path[1..], key);
      a := [path[0]] + rest;
      assert a[1..] == rest;
      assert path == [path[0]] + path[1..];
    }
  }

  /** An entry is looked up only on the way through its own path. */
  lemma TriedUnder(t: Tree, home: Path, path: Path, dir: Path, name: string)
    requires Shape(t) && Resolve(t, home).Some? && Resolve(t, dir).Some? && IsDir(t, Resolve(t, dir).value)
    requires Tries(t, Resolve(t, home).value, path, Key(Resolve(t, dir).value, name))
    ensures home <= dir && dir + [name] <= home + path
  {
    hide Shape, Walk, Tries;
    var a := TriedAt(t, Resolve(t, home).value, path, Key(Resolve(t, dir).value, name));
    WalkAppend(t, ROOT, home, a);
    OnePath(t, home + a, dir);
    assert home + (a + [name]) == dir + [name];
    assert home + path == (dir + [name]) + path[|a| + 1..];
  }

  /** Changing the entry `name` of the directory at `dir` moves nothing but what is at or
      below `dir/name`: seen from the inode at `home`, `path` leads where it did. */
  lemma WalkElsewhere(t: Tree, t': Tree, home: Path, path: Path, dir: Path, name: string)
    requires Shape(t) && Resolve(t, home).Some? && Resolve(t, dir).Some? && IsDir(t, Resolve(t, dir).value)
    requires SameOff(t, t', Key(Resolve(t, dir).value, name))
    requires !(home <= dir && dir + [name] <= home + path)
    ensures Walk(t', Resolve(t, home).value, path) == Walk(t, Resolve(t, home).value, path)
  {
    hide Shape, Walk, Tries, SameOff;
    var i, key := Resolve(t, home).value, Key(Resolve(t, dir).value, name);
    if Tries(t, i, path, key) {
      TriedUnder(t, home, path, dir, name);
    } else {
      WalkUntried(t, t', i, path, key);
    }
  }

  lemma ResolveElsewhere(t: Tree, t': Tree, path: Path, dir: Path, name: string)
    requires Shape(t) && Resolve(t, dir).Some? && IsDir(t, Resolve(t, dir).value)
    requires SameOff(t, t', Key(Resolve(t, dir).value, name))
    requires !(dir + [name] <= path)
    ensures Resolve(t', path) == Resolve(t, path)
  {
    hide Shape, SameOff;
    assert [] + path == path;
    WalkElsewhere(t, t', [], path, dir, name);
  }

  /** With an entry gone, nothing is at or below it. */
  lemma ResolveGone(t: Tree, dir: Path, name: string, rest: Path)
    requires Resolve(t, dir).Some? && Key(Resolve(t, dir).value, name) !in t.dentries
    ensures Resolve(t, dir + [name] + rest) == None
  {
    hide Walk;
    assert (dir + [name])[..|dir|] == dir;
    WalkLast(t, ROOT, dir + [name]);
    WalkAppend(t, ROOT, dir + [name], rest);
  }

  lemma ResolveEntry(t: Tree, dir: Path, name: string, rest: Path)
    requires Resolve(t, dir).Some? && Key(Resolve(t, dir).value, name) in t.dentries
    ensures Resolve(t, dir + [name] + rest) == Walk(t, t.dentries[Key(Resolve(t, dir).value, name)], rest)
  {
    hide Walk;
    assert (dir + [name])[..|dir|] == dir;
    WalkLast(t, ROOT, dir + [name]);
    WalkAppend(t, ROOT, dir + [name], rest);
  }
}

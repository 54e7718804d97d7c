/** The engine's directory operations over the inode and entry tables. */
module Namespace {
  import opened Tilings
  import opened NameTrees
  import opened NameEdits

  datatype Error =
    | InvalidPath | NotFound | NotADirectory | IsADirectory
    | AlreadyExists | DirectoryNotEmpty | InvalidArgument | Corrupt

  datatype Result<+T> = Ok(value: T) | Err(error: Error)

  const MAX_ANCESTOR_WALK: nat := 4096

  /** Why `to`'s directory cannot take an entry. */
  ghost function PlaceRefusal(t: Tree, path: Path): Option<Error> {
    if path == [] then Some(InvalidPath)
    else if Resolve(t, Front(path)).None? then Some(NotFound)
    else if !IsDir(t, Resolve(t, Front(path)).value) then Some(NotADirectory)
    else None
  }

  ghost function CreateRefusal(t: Tree, path: Path): Option<Error> {
    if PlaceRefusal(t, path).Some? then PlaceRefusal(t, path)
    else if Resolve(t, path).Some? then Some(AlreadyExists)
    else None
  }

  ghost function LookupRefusal(t: Tree, path: Path): Option<Error> {
    if path == [] then Some(InvalidPath)
    else if Resolve(t, path).None? then Some(NotFound)
    else None
  }

  ghost function UnlinkRefusal(t: Tree, path: Path): Option<Error> {
    if LookupRefusal(t, path).Some? then LookupRefusal(t, path)
    else if IsDir(t, Resolve(t, path).value) then Some(IsADirectory)
    else None
  }

  ghost function RmdirRefusal(t: Tree, path: Path): Option<Error> {
    if LookupRefusal(t, path).Some? then LookupRefusal(t, path)
    else if !IsDir(t, Resolve(t, path).value) then Some(NotADirectory)
    else if !Childless(t, Resolve(t, path).value) then Some(DirectoryNotEmpty)
    else None
  }

  /** The climb from the destination directory `dir`: it meets `from` or runs out. */
  ghost function ClimbRefusal(from: Path, dir: Path): Option<Error> {
    if from <= dir && |dir| - |from| < MAX_ANCESTOR_WALK then Some(InvalidArgument)
    else if |dir| >= MAX_ANCESTOR_WALK then Some(Corrupt)
    else None
  }

  ghost function RenameRefusal(t: Tree, from: Path, to: Path): Option<Error> {
    if LookupRefusal(t, from).Some? then LookupRefusal(t, from)
    else if PlaceRefusal(t, to).Some? then PlaceRefusal(t, to)
    else if ClimbRefusal(from, Front(to)).Some? then ClimbRefusal(from, Front(to))
    else if Resolve(t, to).Some? && Resolve(t, to) != Resolve(t, from)
            && IsDir(t, Resolve(t, to).value) && !Childless(t, Resolve(t, to).value) then Some(DirectoryNotEmpty)
    else None
  }

  /** Climbing: the inode at `dir[..n]` is reached after `|dir| - n` steps. */
  ghost predicate MetOnTheWay(t: Tree, dir: Path, n: nat, i: nat) {
    exists m | n <= m <= |dir| :: Resolve(t, dir[..m]) == Some(i)
  }

  /** The only ancestor the moved inode can be is the one at its own path. */
  lemma MetIffInside(t: Tree, from: Path, dir: Path, n: nat)
    requires Shape(t) && from != [] && Resolve(t, from).Some?
    requires Resolve(t, dir).Some? && IsDir(t, Resolve(t, dir).value) && n <= |dir|
    ensures MetOnTheWay(t, dir, n, Resolve(t, from).value) <==> from <= dir && n <= |from|
  {
    hide Resolve, Shape;
    if from <= dir && n <= |from| {
      assert dir[..|from|] == from;
    }
    if m: nat :| n <= m <= |dir| && Resolve(t, dir[..m]) == Resolve(t, from) {
      if m < |dir| {
        PassesDirectories(t, dir[..m], dir);
      } else {
        assert dir[..m] == dir;
      }
      OnePath(t, dir[..m], from);
    }
  }

  class Workspace {
    var inodes: map<nat, Inode>
    var dentries: map<Key, nat>
    var nextIno: nat

    function T(): Tree
      reads this
    {
      Tree(inodes, dentries)
    }

    /** A tree, and the next inode number is unused. */
    ghost predicate Valid()
      reads this
    {
      WellFormed(T()) && forall i | i in inodes :: i < nextIno
    }

    constructor ()
      ensures Valid() && T() == Tree(map[ROOT := Inode(Dir, 1)], map[])
    {
      inodes, dentries, nextIno := map[ROOT := Inode(Dir, 1)], map[], ROOT + 1;
      new;
      assert Resolve(T(), []) == Some(ROOT);
    }

    function Lookup(parent: nat, name: string): (r: Option<nat>)
      reads this
    {
      if Key(parent, name) in dentries then Some(dentries[Key(parent, name)]) else None
    }

    method ResolvePath(path: Path) returns (r: Result<nat>)
      ensures r == if Resolve(T(), path).Some? then Ok(Resolve(T(), path).value) else Err(NotFound)
    {
      hide Walk;
      var ino, n: nat := ROOT, 0;
      RootPath(T());
      assert path[..0] == [];
      while n < |path|
        invariant n <= |path| && Resolve(T(), path[..n]) == Some(ino)
      {
        assert path[..n+1][..n] == path[..n];
        WalkLast(T(), ROOT, path[..n+1]);
        var child := Lookup(ino, path[n]);
        if child.None? {
          NothingBelowMissing(T(), path[..n+1], path);
          return Err(NotFound);
        }
        ino, n := child.value, n + 1;
      }
      assert path[..n] == path;
      r := Ok(ino);
    }

    method ResolveParent(path: Path) returns (r: Result<(nat, string)>)
      ensures r == if path == [] then Err(InvalidPath)
                   else if Resolve(T(), Front(path)).None? then Err(NotFound)
                   else Ok((Resolve(T(), Front(path)).value, Last(path)))
    {
      if path == [] {
        return Err(InvalidPath);
      }
      var dir := ResolvePath(Front(path));
      r := if dir.Ok? then Ok((dir.value, Last(path))) else Err(NotFound);
    }

    /** Where a new entry would go. */
    method ResolvePlace(path: Path) returns (r: Result<Key>)
      requires Valid()
      ensures r == if PlaceRefusal(T(), path).Some? then Err(PlaceRefusal(T(), path).value) else Ok(EntryOf(T(), path))
    {
      hide Resolve;
      var place := ResolveParent(path);
      if place.Err? {
        return Err(place.error);
      }
      ResolvesToInode(T(), Front(path));
      var (dir, name) := place.value;
      if inodes[dir].kind != Dir {
        return Err(NotADirectory);
      }
      r := Ok(Key(dir, name));
    }

    /** The existing entry at `path`. */
    method ResolveExisting(path: Path) returns (r: Result<Key>)
      requires Valid()
      ensures r.Err? ==> LookupRefusal(T(), path) == Some(r.error)
      ensures r.Ok? ==> LookupRefusal(T(), path) == None && Placed(T(), path) && r.value == EntryOf(T(), path)
      ensures r.Ok? ==>
        r.value in dentries && Resolve(T(), path) == Some(dentries[r.value]) && dentries[r.value] in inodes
    {
      hide Walk, Shape;
      var place := ResolveParent(path);
      if place.Err? {
        if path != [] {
          NothingBelowMissing(T(), Front(path), path);
        }
        return Err(place.error);
      }
      var (dir, name) := place.value;
      WalkLast(T(), ROOT, path);
      if Lookup(dir, name).None? {
        return Err(NotFound);
      }
      EntryPresent(T(), path);
      r := Ok(Key(dir, name));
    }

    /** Create an inode and its name in one transaction. */
    method Create(path: Path, kind: Kind) returns (r: Result<nat>)
      requires Valid()
      modifies this
      ensures Valid()
      ensures r.Err? <==> CreateRefusal(old(T()), path).Some?
      ensures r.Err? ==> CreateRefusal(old(T()), path) == Some(r.error) && T() == old(T())
      ensures r.Ok? ==>
        CanAdd(old(T()), path, r.value) && T() == Added(old(T()), EntryOf(old(T()), path), r.value, kind)
      ensures r.Ok? ==>
        && r.value in inodes && r.value !in old(inodes) && inodes[r.value].kind == kind
        && OthersKept(old(T()), T(), {r.value})
      ensures r.Ok? ==> forall p: Path :: Resolve(T(), p) == if p == path then Some(r.value) else Resolve(old(T()), p)
    {
      hide Resolve, Shape, Reachable, Counted;
      var place := ResolvePlace(path);
      if place.Err? {
        return Err(place.error);
      }
      ResolveEntryOf(T(), path);
      var key := place.value;
      if key in dentries {
        return Err(AlreadyExists);
      }
      var ino := nextIno;
      AddedWellFormed(T(), path, ino, kind);
      forall p: Path
        ensures Resolve(Added(T(), EntryOf(T(), path), ino, kind), p)
             == if p == path then Some(ino) else Resolve(T(), p)
      {
        AddedResolves(T(), path, ino, kind, p);
      }
      inodes, dentries, nextIno := inodes[ino := Inode(kind, 1)], dentries[key := ino], nextIno + 1;
      r := Ok(ino);
    }

    method Mkdir(path: Path) returns (r: Result<nat>)
      requires Valid()
      modifies this
      ensures Valid()
      ensures r.Err? <==> CreateRefusal(old(T()), path).Some?
      ensures r.Err? ==> CreateRefusal(old(T()), path) == Some(r.error) && T() == old(T())
      ensures r.Ok? ==> IsDir(T(), r.value) && r.value !in old(inodes) && OthersKept(old(T()), T(), {r.value})
      ensures r.Ok? ==> forall p: Path :: Resolve(T(), p) == if p == path then Some(r.value) else Resolve(old(T()), p)
    {
      hide Resolve, CanAdd, WellFormed;
      r := Create(path, Dir);
    }

    /** Create the directory and those above it that are missing. A refusal leaves the
        tree as it was. */
    method MkdirP(path: Path) returns (r: Result<nat>)
      requires Valid()
      modifies this
      ensures Valid()
      ensures r.Err? <==> exists n: nat | n <= |path| :: BlocksAt(old(T()), path, n)
      ensures r.Err? ==> r.error == NotADirectory && T() == old(T())
      ensures r.Ok? ==> IsDir(T(), r.value) && Resolve(T(), path) == Some(r.value)
      ensures r.Ok? ==> forall p: Path :: Grown(old(T()), T(), path, p)
      ensures OnlyNewDirectories(old(T()), T())
    {
      hide Resolve, CanAdd, WellFormed;
      var ino, n: nat := ROOT, 0;
      RootPath(T());
      assert path[..0] == [];
      RootIsDir(T());
      while n < |path|
        invariant Valid() && n <= |path| && Resolve(T(), path[..n]) == Some(ino) && IsDir(T(), ino)
        invariant T() == old(T()) || Resolve(old(T()), path[..n]).None?
        invariant forall p: Path :: Grown(old(T()), T(), path[..n], p)
        invariant OnlyNewDirectories(old(T()), T())
        invariant forall m: nat | m <= n :: !BlocksAt(old(T()), path, m)
      {
        var next := path[..n+1];
        assert Front(next) == path[..n] && Last(next) == path[n];
        ResolveEntryOf(T(), next);
        assert Grown(old(T()), T(), path[..n], next);
        assert |next| > n;
        var child := Lookup(ino, path[n]);
        if child.Some? {
          ResolvesAsInode(T(), next);
          if inodes[child.value].kind != Dir {
            if T() != old(T()) { NothingBelowMissing(old(T()), path[..n], next); }
            assert BlocksAt(old(T()), path, n + 1);
            return Err(NotADirectory);
          }
          if T() != old(T()) { NothingBelowMissing(old(T()), path[..n], next); }
          ino := child.value;
        } else {
          ghost var before := T();
          var made := Mkdir(next);
          ino := made.value;
          forall p: Path ensures Grown(old(T()), T(), next, p) {
            assert Grown(old(T()), before, path[..n], p);
            PrefixOfNext(path, n, p);
          }
        }
        forall p: Path ensures Grown(old(T()), T(), next, p) {
          assert child.Some? ==> Grown(old(T()), T(), path[..n], p);
          PrefixOfNext(path, n, p);
        }
        n := n + 1;
      }
      assert path[..n] == path;
      r := Ok(ino);
    }

    /** Drop the entry; a file's link count goes down, and its inode goes at zero. */
    method DropName(path: Path, key: Key)
      requires Valid() && CanDrop(T(), path) && Placed(T(), path) && key == EntryOf(T(), path)
      requires key in dentries && Resolve(T(), path) == Some(dentries[key]) && dentries[key] in inodes
      modifies this
      ensures Valid() && T() == Dropped(old(T()), key)
      ensures OthersKept(old(T()), T(), {old(dentries)[key]}) && KindsKept(old(T()), T())
      ensures forall p: Path :: Resolve(T(), p) == if path <= p then None else Resolve(old(T()), p)
    {
      hide Resolve, WellFormed, CanDrop;
      DroppedWellFormed(T(), path);
      forall p: Path ensures Resolve(Dropped(T(), key), p) == if path <= p then None else Resolve(T(), p) {
        DroppedResolves(T(), path, p);
      }
      var ino := dentries[key];
      var inode := inodes[ino];
      dentries := dentries - {key};
      if inode.kind == Dir || inode.nlink - 1 <= 0 {
        inodes := inodes - {ino};
      } else {
        inodes := inodes[ino := inode.(nlink := inode.nlink - 1)];
      }
    }

    method Unlink(path: Path) returns (r: Result<()>)
      requires Valid()
      modifies this
      ensures Valid()
      ensures r.Err? <==> UnlinkRefusal(old(T()), path).Some?
      ensures r.Err? ==> UnlinkRefusal(old(T()), path) == Some(r.error) && T() == old(T())
      ensures r.Ok? ==> forall p: Path :: Resolve(T(), p) == if path <= p then None else Resolve(old(T()), p)
      ensures r.Ok? ==> FileGoesWithItsLastName(old(T()), T(), Resolve(old(T()), path).value)
      ensures r.Ok? ==> OthersKept(old(T()), T(), {Resolve(old(T()), path).value}) && KindsKept(old(T()), T())
    {
      hide Resolve, Shape, Reachable, Counted;
      var entry := ResolveExisting(path);
      if entry.Err? {
        return Err(entry.error);
      }
      if inodes[dentries[entry.value]].kind == Dir {
        return Err(IsADirectory);
      }
      LastNameIffCounted(T(), entry.value);
      DropName(path, entry.value);
      r := Ok(());
    }

    method Rmdir(path: Path) returns (r: Result<()>)
      requires Valid()
      modifies this
      ensures Valid()
      ensures r.Err? <==> RmdirRefusal(old(T()), path).Some?
      ensures r.Err? ==> RmdirRefusal(old(T()), path) == Some(r.error) && T() == old(T())
      ensures r.Ok? ==> forall p: Path :: Resolve(T(), p) == if path <= p then None else Resolve(old(T()), p)
      ensures r.Ok? ==> Resolve(old(T()), path).value !in inodes
      ensures r.Ok? ==> OthersKept(old(T()), T(), {Resolve(old(T()), path).value}) && KindsKept(old(T()), T())
    {
      hide Resolve, Shape, Reachable, Counted;
      var entry := ResolveExisting(path);
      if entry.Err? {
        return Err(entry.error);
      }
      var ino := dentries[entry.value];
      if inodes[ino].kind != Dir {
        return Err(NotADirectory);
      }
      if exists key | key in dentries :: key.parent == ino {
        return Err(DirectoryNotEmpty);
      }
      DropName(path, entry.value);
      r := Ok(());
    }

    /** Removing the root is refused by the path, as it has no entry. */
    method Remove(path: Path) returns (r: Result<()>)
      requires Valid()
      modifies this
      ensures Valid()
      ensures r.Ok? <==> path != [] && Resolve(old(T()), path).Some?
                         && (IsDir(old(T()), Resolve(old(T()), path).value) ==>
                               Childless(old(T()), Resolve(old(T()), path).value))
      ensures r.Err? ==> T() == old(T())
      ensures r.Ok? ==> forall p: Path :: Resolve(T(), p) == if path <= p then None else Resolve(old(T()), p)
      ensures r.Ok? ==> OthersKept(old(T()), T(), {Resolve(old(T()), path).value}) && KindsKept(old(T()), T())
    {
      hide Resolve, WellFormed;
      var found := ResolvePath(path);
      if found.Err? {
        return Err(found.error);
      }
      ResolvesAsInode(T(), path);
      if inodes[found.value].kind == Dir {
        r := Rmdir(path);
      } else {
        r := Unlink(path);
      }
    }

    /** The directory holding an entry for `ino`. */
    method ParentOf(ino: nat) returns (r: Option<nat>)
      ensures r.Some? ==> exists key | key in dentries :: dentries[key] == ino && key.parent == r.value
      ensures r.None? ==> forall key | key in dentries :: dentries[key] != ino
    {
      if key :| key in dentries && dentries[key] == ino {
        r := Some(key.parent);
      } else {
        r := None;
      }
    }

    /** Climb from the directory at `dir` towards the root. */
    method EnsureNotOwnDescendant(sino: nat, dstParent: nat, ghost dir: Path) returns (r: Result<()>)
      requires Valid() && Resolve(T(), dir) == Some(dstParent) && IsDir(T(), dstParent) && sino != ROOT
      ensures var n: nat := if |dir| < MAX_ANCESTOR_WALK then 0 else |dir| - MAX_ANCESTOR_WALK + 1;
              if MetOnTheWay(T(), dir, n, sino) then r == Err(InvalidArgument)
              else if |dir| >= MAX_ANCESTOR_WALK then r == Err(Corrupt)
              else r == Ok(())
    {
      hide Resolve, WellFormed;
      ghost var n: nat := if |dir| < MAX_ANCESTOR_WALK then 0 else |dir| - MAX_ANCESTOR_WALK + 1;
      var cur, step: nat := dstParent, 0;
      assert dir[..|dir|] == dir;
      while step < MAX_ANCESTOR_WALK
        invariant step <= MAX_ANCESTOR_WALK && step <= |dir| + 1
        invariant step <= |dir| ==> Resolve(T(), dir[..|dir| - step]) == Some(cur) && IsDir(T(), cur)
        invariant step == |dir| + 1 ==> false
        invariant !MetOnTheWay(T(), dir, |dir| - step + 1, sino)
      {
        ghost var at := |dir| - step;
        if cur == sino {
          return Err(InvalidArgument);
        }
        NotMetYet(T(), dir, at, sino);
        if cur == ROOT {
          OnlyRootAtTop(T(), dir[..at]);
          return Ok(());
        }
        RootPath(T());
        assert at > 0;
        ClimbStep(T(), dir, at, cur);
        var up := ParentOf(cur);
        cur, step := up.value, step + 1;
      }
      r := Err(Corrupt);
    }

    method Rename(from: Path, to: Path) returns (r: Result<()>)
      requires Valid()
      modifies this
      ensures Valid()
      ensures r.Err? <==> RenameRefusal(old(T()), from, to).Some?
      ensures r.Err? ==> RenameRefusal(old(T()), from, to) == Some(r.error) && T() == old(T())
      ensures r.Ok? && Resolve(old(T()), to) == Resolve(old(T()), from) ==> T() == old(T())
      ensures r.Ok? && Resolve(old(T()), to) != Resolve(old(T()), from) ==>
                forall p: Path :: Resolve(T(), p) == Substituted(old(T()), from, to, p)
      ensures KindsKept(old(T()), T())
      ensures r.Ok? ==>
        OthersKept(old(T()), T(), if Resolve(old(T()), to).Some? then {Resolve(old(T()), to).value} else {})
      ensures r.Ok? && Resolve(old(T()), to).Some? && Resolve(old(T()), to) != Resolve(old(T()), from) ==>
        var replaced := Resolve(old(T()), to).value;
        if IsDir(old(T()), replaced) then replaced !in inodes else FileGoesWithItsLastName(old(T()), T(), replaced)
    {
      hide Resolve, WellFormed, Substituted;
      var source := ResolveExisting(from);
      if source.Err? {
        return Err(source.error);
      }
      var src := source.value;
      var sino := dentries[src];
      var place := ResolvePlace(to);
      if place.Err? {
        return Err(place.error);
      }
      var dst := place.value;
      SourceIsNotRoot(T(), from);
      var climb := EnsureNotOwnDescendant(sino, dst.parent, Front(to));
      ClimbOutcome(T(), from, to);
      if climb.Err? {
        return Err(climb.error);
      }
      ResolveEntryOf(T(), to);
      if dst in dentries {
        var dino := dentries[dst];
        if dino == sino {
          return Ok(());
        }
        EntryLeadsToInode(T(), dst);
        if inodes[dino].kind == Dir && exists key | key in dentries :: key.parent == dino {
          return Err(DirectoryNotEmpty);
        }
      }
      assert CanRename(T(), from, to);
      forall p: Path
        ensures Resolve(Renamed(T(), src, dst), p) == Substituted(T(), from, to, p)
      {
        RenameSubstitutes(T(), from, to, p);
      }
      RenameSubstitutes(T(), from, to, []);
      if dst in dentries {
        var dino := dentries[dst];
        var dinode := inodes[dino];
        dentries := dentries - {dst};
        if dinode.kind == Dir || dinode.nlink - 1 <= 0 {
          inodes := inodes - {dino};
        } else {
          inodes := inodes[dino := dinode.(nlink := dinode.nlink - 1)];
        }
      }
      dentries := (dentries - {src})[dst := sino];
      assert T() == Renamed(old(T()), src, dst);
      if dst in old(dentries) && !IsDir(old(T()), old(dentries)[dst]) {
        ReplacedGoes(old(T()), src, dst);
      }
      r := Ok(());
    }

    /** Any sequence of operations, each done or refused in turn, leaves a tree. */
    method Run(requests: seq<Request>) returns (ghost trees: seq<Tree>)
      requires Valid()
      modifies this
      ensures Valid()
      ensures forall d: nat | IsDir(T(), d) :: HasOneHome(T(), d)
      ensures |trees| == |requests| + 1 && trees[0] == old(T()) && trees[|requests|] == T()
      ensures forall n | 0 <= n < |requests| :: Done(trees[n], trees[n+1], requests[n])
    {
      hide WellFormed, HasOneHome, Done;
      trees := [T()];
      for n := 0 to |requests|
        invariant Valid() && |trees| == n + 1 && trees[0] == old(T()) && trees[n] == T()
        invariant forall k | 0 <= k < n :: Done(trees[k], trees[k+1], requests[k])
      {
        Perform(requests[n]);
        trees := trees + [T()];
      }
      forall d: nat | IsDir(T(), d) ensures HasOneHome(T(), d) {
        OneHome(T(), d);
      }
    }

    method Perform(request: Request)
      requires Valid()
      modifies this
      ensures Valid() && Done(old(T()), T(), request)
    {
      hide WellFormed, Resolve, CanAdd, Grown, Substituted, FileGoesWithItsLastName, OthersKept;
      match request
      case NewDirectory(path) => var r := Create(path, Dir);
      case NewDirectories(path) => var r := MkdirP(path);
      case NewFile(path) => var r := Create(path, File);
      case NewSymlink(path) => var r := Create(path, Symlink);
      case UnlinkFile(path) => var r := Unlink(path);
      case RemoveDirectory(path) => var r := Rmdir(path);
      case RemoveAny(path) => var r := Remove(path);
      case Move(from, to) => var r := Rename(from, to);
    }
  }

  /** A new inode of this kind is at `path`, and nothing else is different. */
  ghost predicate Made(t: Tree, t': Tree, path: Path, kind: Kind) {
    && Resolve(t', path).Some? && Resolve(t', path).value in t'.inodes
    && t'.inodes[Resolve(t', path).value].kind == kind && Resolve(t', path).value !in t.inodes
    && OthersKept(t, t', {Resolve(t', path).value})
    && forall p: Path | p != path :: Resolve(t', p) == Resolve(t, p)
  }

  ghost predicate Gone(t: Tree, t': Tree, path: Path) {
    forall p: Path :: Resolve(t', p) == if path <= p then None else Resolve(t, p)
  }

  /** What each operation makes of a tree: nothing where it is refused. */
  ghost predicate Done(t: Tree, t': Tree, request: Request) {
    match request
    case NewDirectory(path) => if CreateRefusal(t, path).Some? then t' == t else Made(t, t', path, Dir)
    case NewFile(path) => if CreateRefusal(t, path).Some? then t' == t else Made(t, t', path, File)
    case NewSymlink(path) => if CreateRefusal(t, path).Some? then t' == t else Made(t, t', path, Symlink)
    case NewDirectories(path) =>
      if exists n: nat | n <= |path| :: BlocksAt(t, path, n) then t' == t
      else OnlyNewDirectories(t, t') && forall p: Path :: Grown(t, t', path, p)
    case UnlinkFile(path) =>
      if UnlinkRefusal(t, path).Some? then t' == t
      else Gone(t, t', path) && FileGoesWithItsLastName(t, t', Resolve(t, path).value)
    case RemoveDirectory(path) =>
      if RmdirRefusal(t, path).Some? then t' == t else Gone(t, t', path) && Resolve(t, path).value !in t'.inodes
    case RemoveAny(path) =>
      if UnlinkRefusal(t, path).Some? && RmdirRefusal(t, path).Some? then t' == t else Gone(t, t', path)
    case Move(from, to) =>
      if RenameRefusal(t, from, to).Some? || Resolve(t, to) == Resolve(t, from) then t' == t
      else KindsKept(t, t') && forall p: Path :: Resolve(t', p) == Substituted(t, from, to, p)
  }

  datatype Request =
    | NewDirectory(path: Path)
    | NewDirectories(path: Path)
    | NewFile(path: Path)
    | NewSymlink(path: Path)
    | UnlinkFile(path: Path)
    | RemoveDirectory(path: Path)
    | RemoveAny(path: Path)
    | Move(from: Path, to: Path)

  /** `path` leads from the root to `d`, no other does, and no path leads from `d` back to it. */
  ghost predicate HomeOf(t: Tree, d: nat, path: Path) {
    && (forall p: Path :: Resolve(t, p) == Some(d) <==> p == path)
    && (forall p: Path :: Walk(t, d, p) == Some(d) ==> p == [])
    && |Names(t, d)| == if d == ROOT then 0 else 1
  }

  ghost predicate HasOneHome(t: Tree, d: nat) {
    exists path :: HomeOf(t, d, path)
  }

  /** In a tree every directory has one path, one parent, and does not contain itself. */
  lemma OneHome(t: Tree, d: nat)
    requires WellFormed(t) && IsDir(t, d)
    ensures HasOneHome(t, d)
  {
    hide Resolve, Walk, Counted;
    assert Reachable(t, d);
    var path: Path :| Resolve(t, path) == Some(d);
    forall p: Path ensures Resolve(t, p) == Some(d) <==> p == path {
      if Resolve(t, p) == Some(d) {
        OnePath(t, p, path);
      }
    }
    forall p: Path | Walk(t, d, p) == Some(d) ensures p == [] {
      NoCycle(t, d, p);
    }
    OneName(t, path, d);
    assert HomeOf(t, d, path);
  }

  lemma OneName(t: Tree, path: Path, d: nat)
    requires WellFormed(t) && Resolve(t, path) == Some(d) && IsDir(t, d)
    ensures |Names(t, d)| == if d == ROOT then 0 else 1
  {
    hide Resolve, Counted, Reachable;
    if d == ROOT {
      assert Names(t, d) == {};
    } else {
      assert path != [] by {
        if path == [] { RootPath(t); }
      }
      EntryPresent(t, path);
      forall key | key in Names(t, d) ensures key == EntryOf(t, path) {
        assert NameOneDir(t, key, EntryOf(t, path));
      }
      assert Names(t, d) == {EntryOf(t, path)};
    }
  }

  // ----- facts the operations rest on

  lemma PrefixOfNext(path: Path, n: nat, p: Path)
    requires n < |path|
    ensures p <= path[..n+1] <==> p == path[..n+1] || p <= path[..n]
  {
    if p <= path[..n+1] && |p| == n + 1 {
      assert p == path[..n+1];
    }
  }

  lemma RootIsDir(t: Tree)
    requires WellFormed(t)
    ensures IsDir(t, ROOT)
  {
  }

  /** Something other than a directory stands where one is wanted. */
  ghost predicate BlocksAt(t: Tree, path: Path, n: nat) {
    n <= |path| && Resolve(t, path[..n]).Some? && !IsDir(t, Resolve(t, path[..n]).value)
  }

  /** What led somewhere still does; of the rest, exactly the parts of `path` now lead
      somewhere. */
  ghost predicate Grown(t: Tree, t': Tree, path: Path, p: Path) {
    if Resolve(t, p).Some? then Resolve(t', p) == Resolve(t, p)
    else Resolve(t', p).Some? <==> p <= path
  }

  /** Every inode but these is there exactly if it was, and of the kind it was. */
  ghost predicate OthersKept(t: Tree, t': Tree, but: set<nat>) {
    forall i | i !in but ::
      (i in t'.inodes <==> i in t.inodes) && (i in t.inodes ==> t'.inodes[i].kind == t.inodes[i].kind)
  }

  /** No inode changes its kind. */
  ghost predicate KindsKept(t: Tree, t': Tree) {
    forall i | i in t.inodes && i in t'.inodes :: t'.inodes[i].kind == t.inodes[i].kind
  }

  ghost predicate OnlyNewDirectories(t: Tree, t': Tree) {
    && (forall i | i in t.inodes :: i in t'.inodes && t'.inodes[i].kind == t.inodes[i].kind)
    && (forall i | i in t'.inodes && i !in t.inodes :: IsDir(t', i))
  }

  /** What a rename replaces loses the name it had there. */
  lemma ReplacedGoes(t: Tree, src: Key, dst: Key)
    requires WellFormed(t) && src in t.dentries && dst in t.dentries && src != dst
    requires t.dentries[src] != t.dentries[dst] && t.dentries[dst] in t.inodes && !IsDir(t, t.dentries[dst])
    ensures FileGoesWithItsLastName(t, Renamed(t, src, dst), t.dentries[dst])
  {
    hide WellFormed, Shape, Reachable;
    LastNameIffCounted(t, dst);
    assert Names(Renamed(t, src, dst), t.dentries[dst]) == Names(Dropped(t, dst), t.dentries[dst]);
  }

  ghost predicate FileGoesWithItsLastName(t: Tree, t': Tree, i: nat) {
    && (i in t'.inodes <==> |Names(t, i)| > 1)
    && |Names(t', i)| == |Names(t, i)| - 1
  }

  lemma LastNameIffCounted(t: Tree, key: Key)
    requires WellFormed(t) && key in t.dentries && t.dentries[key] in t.inodes && !IsDir(t, t.dentries[key])
    ensures FileGoesWithItsLastName(t, Dropped(t, key), t.dentries[key])
  {
    hide Shape, Reachable;
    var i := t.dentries[key];
    assert Counted(t, i);
    assert Names(Dropped(t, key), i) == Names(t, i) - {key};
  }

  lemma ResolvesAsInode(t: Tree, path: Path)
    requires WellFormed(t) && Resolve(t, path).Some?
    ensures Resolve(t, path).value in t.inodes
    ensures path == [] ==> IsDir(t, Resolve(t, path).value)
  {
    ResolvesToInode(t, path);
  }

  lemma SourceIsNotRoot(t: Tree, from: Path)
    requires WellFormed(t) && from != [] && Resolve(t, from).Some?
    ensures Resolve(t, from).value != ROOT
  {
    ResolvesToInode(t, from);
  }

  lemma EntryLeadsToInode(t: Tree, key: Key)
    requires WellFormed(t) && key in t.dentries
    ensures t.dentries[key] in t.inodes
  {
    EntryIn(t, key);
  }

  lemma NotMetYet(t: Tree, dir: Path, at: nat, i: nat)
    requires at <= |dir| && !MetOnTheWay(t, dir, at + 1, i) && Resolve(t, dir[..at]) != Some(i)
    ensures !MetOnTheWay(t, dir, at, i)
  {
  }

  lemma OnlyRootAtTop(t: Tree, path: Path)
    requires WellFormed(t) && Resolve(t, path) == Some(ROOT)
    ensures path == []
  {
    ResolvesToInode(t, path);
  }

  /** A directory's one entry is in the directory above it. */
  lemma ClimbStep(t: Tree, dir: Path, at: nat, cur: nat)
    requires WellFormed(t) && 0 < at <= |dir| && Resolve(t, dir[..at]) == Some(cur) && IsDir(t, cur)
    ensures Resolve(t, dir[..at-1]).Some? && IsDir(t, Resolve(t, dir[..at-1]).value)
    ensures exists key | key in t.dentries :: t.dentries[key] == cur
    ensures forall key | key in t.dentries && t.dentries[key] == cur :: key.parent == Resolve(t, dir[..at-1]).value
  {
    hide Resolve, Reachable, Counted;
    assert Front(dir[..at]) == dir[..at-1];
    EntryPresent(t, dir[..at]);
    forall key | key in t.dentries && t.dentries[key] == cur ensures key.parent == Resolve(t, dir[..at-1]).value {
      assert NameOneDir(t, key, EntryOf(t, dir[..at]));
    }
  }

  /** What the climb decides, told by the paths. */
  lemma ClimbOutcome(t: Tree, from: Path, to: Path)
    requires WellFormed(t) && from != [] && Resolve(t, from).Some? && Placed(t, to)
    ensures var dir := Front(to);
            var n: nat := if |dir| < MAX_ANCESTOR_WALK then 0 else |dir| - MAX_ANCESTOR_WALK + 1;
            MetOnTheWay(t, dir, n, Resolve(t, from).value) <==> ClimbRefusal(from, dir) == Some(InvalidArgument)
  {
    hide Resolve, Shape, Reachable, Counted, MetOnTheWay;
    var dir := Front(to);
    var n: nat := if |dir| < MAX_ANCESTOR_WALK then 0 else |dir| - MAX_ANCESTOR_WALK + 1;
    MetIffInside(t, from, dir, n);
  }

  // ----- which error, and when

  /** A create, an unlink and a removal of a directory, error by error. */
  lemma WhenRefused(t: Tree, path: Path)
    ensures var create := CreateRefusal(t, path);
      var placeable := path != [] && Resolve(t, Front(path)).Some? && IsDir(t, Resolve(t, Front(path)).value);
      && (create == Some(InvalidPath) <==> path == [])
      && (create == Some(NotFound) <==> path != [] && Resolve(t, Front(path)).None?)
      && (create == Some(NotADirectory) <==>
            path != [] && Resolve(t, Front(path)).Some? && !IsDir(t, Resolve(t, Front(path)).value))
      && (create == Some(AlreadyExists) <==> placeable && Resolve(t, path).Some?)
      && (create == None <==> placeable && Resolve(t, path).None?)
    ensures var unlink, there := UnlinkRefusal(t, path), path != [] && Resolve(t, path).Some?;
      && (unlink == Some(InvalidPath) <==> path == [])
      && (unlink == Some(NotFound) <==> path != [] && Resolve(t, path).None?)
      && (unlink == Some(IsADirectory) <==> there && IsDir(t, Resolve(t, path).value))
      && (unlink == None <==> there && !IsDir(t, Resolve(t, path).value))
    ensures var rmdir, there := RmdirRefusal(t, path), path != [] && Resolve(t, path).Some?;
      && (rmdir == Some(InvalidPath) <==> path == [])
      && (rmdir == Some(NotFound) <==> path != [] && Resolve(t, path).None?)
      && (rmdir == Some(NotADirectory) <==> there && !IsDir(t, Resolve(t, path).value))
      && (rmdir == Some(DirectoryNotEmpty) <==>
            there && IsDir(t, Resolve(t, path).value) && !Childless(t, Resolve(t, path).value))
      && (rmdir == None <==> there && IsDir(t, Resolve(t, path).value) && Childless(t, Resolve(t, path).value))
  {
    hide Resolve, Childless;
  }

  /** A rename, error by error: what is wrong with the source comes before what is wrong with
      the destination's directory, that before the climb, and that before what is there. */
  lemma WhenRenameRefused(t: Tree, from: Path, to: Path)
    ensures var r, found := RenameRefusal(t, from, to), from != [] && Resolve(t, from).Some?;
      var placeable := found && to != [] && Resolve(t, Front(to)).Some? && IsDir(t, Resolve(t, Front(to)).value);
      && (r == Some(InvalidPath) <==> from == [] || (found && to == []))
      && (r == Some(NotFound) <==>
            from != [] && (Resolve(t, from).None? || (to != [] && Resolve(t, Front(to)).None?)))
      && (r == Some(NotADirectory) <==>
            found && to != [] && Resolve(t, Front(to)).Some? && !IsDir(t, Resolve(t, Front(to)).value))
      && (r == Some(InvalidArgument) <==> placeable && from <= Front(to) && |Front(to)| - |from| < 4096)
      && (r == Some(Corrupt) <==>
            placeable && |Front(to)| >= 4096 && !(from <= Front(to) && |Front(to)| - |from| < 4096))
      && (r == Some(DirectoryNotEmpty) <==>
            placeable && |Front(to)| < 4096 && !(from <= Front(to)) && Occupied(t, from, to))
      && (r == None <==> placeable && |Front(to)| < 4096 && !(from <= Front(to)) && !Occupied(t, from, to))
  {
    hide Resolve, Childless;
  }

  /** Another inode than the moved one is at `to`, a directory with something in it. */
  ghost predicate Occupied(t: Tree, from: Path, to: Path) {
    && Resolve(t, to).Some? && Resolve(t, to) != Resolve(t, from)
    && IsDir(t, Resolve(t, to).value) && !Childless(t, Resolve(t, to).value)
  }

  // ----- renames refused for their depth alone

  /** A rename that would substitute paths is refused if and only if its destination's
      directory is 4096 levels down or more. */
  lemma LegalRefusedIff(t: Tree, from: Path, to: Path)
    requires CanRename(t, from, to)
    ensures RenameRefusal(t, from, to) == if |Front(to)| >= 4096 then Some(Corrupt) else None
  {
    hide Resolve, WellFormed;
  }

  /** A file beside a chain of `n` directories. */
  lemma {:induction false} Chain(n: nat) returns (t: Tree, path: Path)
    ensures WellFormed(t) && |path| == n && (forall k | 0 <= k < n :: path[k] == "d")
    ensures Resolve(t, path).Some? && IsDir(t, Resolve(t, path).value)
    ensures Resolve(t, path + ["d"]) == Resolve(t, path + ["g"]) == None && Resolve(t, ["f"]).Some?
    ensures forall i | i in t.inodes :: i < n + 3
    decreases n
  {
    hide WellFormed, Resolve;
    if n == 0 {
      t, path := FileAtRoot(), [];
      OneFile();
    } else {
      var above, dir := Chain(n - 1);
      path := dir + ["d"];
      t := Added(above, EntryBelow(above, dir, "d"), n + 2, Dir);
      PlacedBelow(above, dir, "d", n + 2);
      AddedWellFormed(above, path, n + 2, Dir);
      AddedResolves(above, path, n + 2, Dir, path);
      AddedResolves(above, path, n + 2, Dir, path + ["d"]);
      AddedResolves(above, path, n + 2, Dir, path + ["g"]);
      AddedResolves(above, path, n + 2, Dir, ["f"]);
      NothingBelowMissing(above, path, path + ["d"]);
      NothingBelowMissing(above, path, path + ["g"]);
      assert path != ["f"] by {
        assert path[n - 1] == "d" && "d"[0] != "f"[0];
      }
    }
  }

  function FileAtRoot(): Tree {
    Tree(map[ROOT := Inode(Dir, 1), 2 := Inode(File, 1)], map[Key(ROOT, "f") := 2])
  }

  lemma OneFile()
    ensures WellFormed(FileAtRoot()) && Resolve(FileAtRoot(), []) == Some(ROOT)
    ensures Resolve(FileAtRoot(), ["f"]) == Some(2)
    ensures Resolve(FileAtRoot(), [] + ["d"]) == Resolve(FileAtRoot(), [] + ["g"]) == None
  {
    var t := FileAtRoot();
    assert ["f"][1..] == [] && [] + ["d"] == ["d"] && [] + ["g"] == ["g"];
    assert Names(t, 2) == {Key(ROOT, "f")};
    assert "f" != "d" && "f" != "g" by {
      assert "f"[0] != "d"[0] && "f"[0] != "g"[0];
    }
    assert Resolve(t, []) == Some(ROOT) && Reachable(t, ROOT);
  }

  ghost function EntryBelow(t: Tree, dir: Path, name: string): Key
    requires Resolve(t, dir).Some?
  {
    Key(Resolve(t, dir).value, name)
  }

  lemma PlacedBelow(t: Tree, dir: Path, name: string, i: nat)
    requires WellFormed(t) && Resolve(t, dir).Some? && IsDir(t, Resolve(t, dir).value) && i !in t.inodes
    requires Resolve(t, dir + [name]) == None
    ensures CanAdd(t, dir + [name], i) && EntryOf(t, dir + [name]) == EntryBelow(t, dir, name)
  {
    hide WellFormed, Resolve;
    assert Front(dir + [name]) == dir && Last(dir + [name]) == name;
  }

  /** A legal rename refused: a file moved below 4096 directories. */
  lemma DeepRenameRefused() returns (t: Tree, from: Path, to: Path)
    ensures CanRename(t, from, to) && RenameRefusal(t, from, to) == Some(Corrupt)
  {
    hide WellFormed, Resolve;
    var dir: Path;
    t, dir := Chain(MAX_ANCESTOR_WALK);
    from, to := ["f"], dir + ["g"];
    assert Front(to) == dir && Last(to) == "g";
    assert !(from <= dir) by {
      assert dir[0] == "d" && "d"[0] != "f"[0];
    }
    LegalRefusedIff(t, from, to);
  }
}

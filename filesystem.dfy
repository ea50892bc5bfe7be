/** The operating system's file operations the program calls (`os.listdir`,
    `os.path.isdir`, `os.path.exists`, `os.path.getsize`, `shutil.copytree`,
    `shutil.copy2`, `shutil.rmtree`, `os.remove`, `os.makedirs`), as methods on
    one mutable tree. Each states the new tree through `Write`. */
module Host {
  import opened FileTree

  /** The directories left behind when every missing directory on the way to
      `p` is created and existing ones are walked through. `None` when a step
      on the way, or `p` itself, is a file. */
  function MakeMissing(n: Node, p: Path): Option<Node>
    decreases p
  {
    if p == [] then (if n.Dir? then Some(n) else None)
    else match n
      case File(_) => None
      case Dir(es) =>
        var child := if p[0] in es then es[p[0]] else Dir(map[]);
        match MakeMissing(child, p[1..])
        case None => None
        case Some(c) => Some(Dir(es[p[0] := c]))
  }

  /** `os.makedirs(p)` with its default `exist_ok=False`: it raises
      `FileExistsError` when `p` already exists (the root included), raises
      when a step on the way is a file, and otherwise creates every missing
      directory on the way, changing nothing off `p`'s line of ancestors. */
  function MakeDirs(n: Node, p: Path): (r: Option<Node>)
    ensures r.None? <==> Lookup(n, p).Some? || exists i :: 0 <= i < |p| && IsFileAt(n, p[..i])
    ensures r.Some? ==> Lookup(r.value, p) == Some(Dir(map[]))
    ensures r.Some? ==> forall q :: Separate(q, p) ==> Lookup(r.value, q) == Lookup(n, q)
  {
    MakeMissingOutcome(n, p);
    MakeMissingFresh(n, p);
    assert p[..|p|] == p;
    if Lookup(n, p).Some? then None else MakeMissing(n, p)
  }

  /** Creating the missing directories fails exactly when some step on the
      way, or `p` itself, is a file; otherwise `p` is a directory afterwards
      and nothing outside `p`'s line of ancestors changes. */
  lemma {:induction false} MakeMissingOutcome(n: Node, p: Path)
    ensures MakeMissing(n, p).None? <==> exists i :: 0 <= i <= |p| && IsFileAt(n, p[..i])
    ensures MakeMissing(n, p).Some? ==> IsDirAt(MakeMissing(n, p).value, p)
    ensures MakeMissing(n, p).Some? ==>
      forall q :: Separate(q, p) ==> Lookup(MakeMissing(n, p).value, q) == Lookup(n, q)
    decreases p
  {
    if p == [] {
      assert p[..0] == [];
    } else {
      assert p[..0] == [];
      match n
      case File(_) =>
      case Dir(es) =>
        var k, rest := p[0], p[1..];
        var child := if k in es then es[k] else Dir(map[]);
        MakeMissingOutcome(child, rest);
        // the steps of p below n are the steps of rest below child
        forall i | 1 <= i <= |p|
          ensures IsFileAt(n, p[..i]) <==> IsFileAt(child, rest[..i - 1])
        {
          assert p[..i][0] == k && p[..i][1..] == rest[..i - 1];
        }
        if MakeMissing(n, p).None? {
          var j :| 0 <= j <= |rest| && IsFileAt(child, rest[..j]);
          assert IsFileAt(n, p[..j + 1]);
        }
        if MakeMissing(n, p).Some? {
          var m := MakeMissing(n, p).value;
          assert Lookup(m, p) == Lookup(MakeMissing(child, rest).value, rest);
          forall q | Separate(q, p) ensures Lookup(m, q) == Lookup(n, q) {
            assert q != [];
            if q[0] == k {
              assert rest <= q[1..] ==> p <= q;
              assert q[1..] <= rest ==> q <= p;
              assert Separate(q[1..], rest);
              if k !in es {
                assert q[1..] != [];
              }
            }
          }
        }
    }
  }

  /** A missing path is made as a new, empty directory. */
  lemma {:induction false} MakeMissingFresh(n: Node, p: Path)
    ensures Lookup(n, p).None? && MakeMissing(n, p).Some? ==>
      Lookup(MakeMissing(n, p).value, p) == Some(Dir(map[]))
    decreases p
  {
    if p != [] && n.Dir? {
      var k := p[0];
      var child := if k in n.entries then n.entries[k] else Dir(map[]);
      MakeMissingFresh(child, p[1..]);
    }
  }

  /** Below the path `a`, creating the missing directories on the way to `a`
      changes nothing: a directory that existed keeps its entries, and one
      that is created is empty. */
  lemma {:induction false} MakeMissingBelow(n: Node, a: Path, b: Path)
    requires b != [] && MakeMissing(n, a).Some?
    ensures Lookup(MakeMissing(n, a).value, a + b) == Lookup(n, a + b)
    decreases a
  {
    if a == [] {
      assert a + b == b;
    } else if n.Dir? {
      var k := a[0];
      var child := if k in n.entries then n.entries[k] else Dir(map[]);
      assert (a + b)[0] == k && (a + b)[1..] == a[1..] + b;
      MakeMissingBelow(child, a[1..], b);
    }
  }

  /** When `os.makedirs(p)` would succeed but `mkdir` is refused below depth
      `g`, the folders down to depth `g` are made and nothing else changes:
      no level of `p` below depth `g` is created, and no path off `p`'s line
      of ancestors changes. */
  lemma PartialMakeDirs(n: Node, p: Path, g: nat)
    requires MakeDirs(n, p).Some? && g < |p|
    ensures MakeMissing(n, p[..g]).Some?
    ensures IsDirAt(MakeMissing(n, p[..g]).value, p[..g])
    ensures forall i :: g < i <= |p| ==> Lookup(MakeMissing(n, p[..g]).value, p[..i]) == Lookup(n, p[..i])
    ensures forall q :: Separate(q, p) ==> Lookup(MakeMissing(n, p[..g]).value, q) == Lookup(n, q)
  {
    var a := p[..g];
    MakeMissingOutcome(n, a);
    assert forall i :: 0 <= i <= |a| ==> a[..i] == p[..i];
    var m := MakeMissing(n, a).value;
    forall i | g < i <= |p| ensures Lookup(m, p[..i]) == Lookup(n, p[..i]) {
      assert p[..i] == a + p[g..i];
      MakeMissingBelow(n, a, p[g..i]);
    }
    assert p[..|p|] == p;
    forall q | Separate(q, p) ensures Lookup(m, q) == Lookup(n, q) {
      if !Separate(q, a) {
        assert a <= q && |a| < |q|;
        assert q == a + q[g..];
        MakeMissingBelow(n, a, q[g..]);
      }
    }
  }

  /** `os.makedirs(p)` on a system that refuses `mkdir` below depth `granted`
      (no permission there, an invalid name, a read-only disk). The missing
      folders are made one level at a time from the top, so a refusal raises
      after the folders above it are made, and those stay. The result says
      whether the call returned normally and gives the disk after it. */
  function MakeDirsWithin(n: Node, p: Path, granted: nat): (r: (bool, Node))
    ensures r.0 <==> MakeDirs(n, p).Some? && |p| <= granted
    ensures r.0 ==> r.1 == MakeDirs(n, p).value
    ensures MakeDirs(n, p).None? ==> r.1 == n
    ensures !r.0 ==> Lookup(r.1, p) == Lookup(n, p)
    ensures !r.0 && MakeDirs(n, p).Some? ==> granted < |p| && IsDirAt(r.1, p[..granted])
    ensures !r.0 && MakeDirs(n, p).Some? ==>
      forall i :: granted < i <= |p| ==> Lookup(r.1, p[..i]) == Lookup(n, p[..i])
    ensures forall q :: Separate(q, p) ==> Lookup(r.1, q) == Lookup(n, q)
  {
    if MakeDirs(n, p).None? then (false, n)
    else if |p| <= granted then (true, MakeDirs(n, p).value)
    else
      PartialMakeDirs(n, p, granted);
      assert p[..|p|] == p;
      (false, MakeMissing(n, p[..granted]).value)
  }

  class FileSystem {
    /** The whole disk, from its root directory. */
    var root: Node

    constructor (disk: Node)
      ensures root == disk
    {
      root := disk;
    }

    method ListDir(p: Path) returns (names: set<Name>)
      requires IsDirAt(root, p)
      ensures names == ListingAt(root, p).Keys
    {
      names := ListingAt(root, p).Keys;
    }

    method IsDir(p: Path) returns (b: bool)
      ensures b == IsDirAt(root, p)
    {
      b := IsDirAt(root, p);
    }

    method Exists(p: Path) returns (b: bool)
      ensures b == Lookup(root, p).Some?
    {
      b := Lookup(root, p).Some?;
    }

    /** The bytes of the file at `p`. */
    function Contents(p: Path): (r: seq<byte>)
      reads this
      requires IsFileAt(root, p)
      ensures Lookup(root, p) == Some(File(r))
    {
      Lookup(root, p).value.data
    }

    /** `os.path.getsize(p)` of a file: its length in bytes. */
    method GetSize(p: Path) returns (size: nat)
      requires IsFileAt(root, p)
      ensures size == |Contents(p)|
    {
      size := |Lookup(root, p).value.data|;
    }

    /** `f.read(count)` on the file at `p`, opened with `"rb"` and positioned
        at `offset`: the next at most `count` bytes, empty only at the end. */
    method Read(p: Path, offset: nat, count: nat) returns (chunk: seq<byte>)
      requires IsFileAt(root, p) && offset <= |Contents(p)|
      ensures |chunk| <= count && offset + |chunk| <= |Contents(p)|
      ensures chunk == Contents(p)[offset..offset + |chunk|]
      ensures chunk == [] <==> count == 0 || offset == |Contents(p)|
      ensures |chunk| < count ==> offset + |chunk| == |Contents(p)|
    {
      var data := Lookup(root, p).value.data;
      var end := if offset + count < |data| then offset + count else |data|;
      chunk := data[offset..end];
    }

    /** `shutil.copytree(src, dst)`: a new directory `dst` holding a copy of the
        whole tree at `src`. */
    method CopyTree(src: Path, dst: Path)
      requires IsDirAt(root, src) && ParentIsDir(root, dst) && Lookup(root, dst).None?
      requires !(src <= dst)
      modifies this
      ensures root == Write(old(root), dst, old(Lookup(root, src)))
    {
      root := Write(root, dst, Lookup(root, src));
    }

    /** `shutil.copy2(src, dst)` onto a path that is not a directory: `dst`
        becomes a file with the bytes of `src`, created or overwritten. */
    method Copy2(src: Path, dst: Path)
      requires IsFileAt(root, src) && ParentIsDir(root, dst) && !IsDirAt(root, dst)
      modifies this
      ensures root == Write(old(root), dst, Some(File(old(Contents(src)))))
    {
      root := Write(root, dst, Some(File(Contents(src))));
    }

    /** `shutil.rmtree(p)`: the directory and everything below it are gone. */
    method RmTree(p: Path)
      requires p != [] && IsDirAt(root, p)
      modifies this
      ensures root == Write(old(root), p, None)
    {
      root := Write(root, p, None);
    }

    /** `os.remove(p)` on a file. */
    method Remove(p: Path)
      requires p != [] && IsFileAt(root, p)
      modifies this
      ensures root == Write(old(root), p, None)
    {
      root := Write(root, p, None);
    }

    /** `os.makedirs(p)`. It raises when `p` exists or a step on the way is a
        file, and also when the system refuses a `mkdir` on the way
        (permissions, an invalid name, a read-only disk). Where the system
        refuses is outside the model and arrives as `granted`, the depth down
        to which it lets folders be made. */
    method MakeDirectories(p: Path, granted: nat) returns (ok: bool)
      modifies this
      ensures (ok, root) == MakeDirsWithin(old(root), p, granted)
    {
      var outcome := MakeDirsWithin(root, p, granted);
      ok, root := outcome.0, outcome.1;
    }
  }
}

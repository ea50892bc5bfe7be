/** The file system as a value: a tree of named directories whose leaves are
    files holding bytes. Paths are sequences of entry names from the root. */
module FileTree {

  newtype byte = b: int | 0 <= b < 256

  /** An entry name: one path component, never containing a separator. */
  type Name = string

  type Path = seq<Name>

  datatype Option<T> = None | Some(value: T)

  datatype Node = File(data: seq<byte>) | Dir(entries: map<Name, Node>)

  /** The node found by following `p` from `n`, if every step exists. */
  function Lookup(n: Node, p: Path): Option<Node>
    decreases p
  {
    if p == [] then Some(n)
    else match n
      case File(_) => None
      case Dir(es) => if p[0] in es then Lookup(es[p[0]], p[1..]) else None
  }

  predicate IsDirAt(n: Node, p: Path) {
    Lookup(n, p).Some? && Lookup(n, p).value.Dir?
  }

  predicate IsFileAt(n: Node, p: Path) {
    Lookup(n, p).Some? && Lookup(n, p).value.File?
  }

  /** The entries of the directory at `p`. */
  function ListingAt(n: Node, p: Path): map<Name, Node>
    requires IsDirAt(n, p)
  {
    Lookup(n, p).value.entries
  }

  /** Sets (`Some`) or removes (`None`) the entry `k` of a directory listing. */
  function Put(es: map<Name, Node>, k: Name, v: Option<Node>): (r: map<Name, Node>)
    ensures v.Some? ==> r.Keys == es.Keys + {k} && r[k] == v.value
    ensures v.None? ==> r.Keys == es.Keys - {k}
    ensures forall j :: j in es && j != k ==> j in r && r[j] == es[j]
  {
    if v.Some? then es[k := v.value] else es - {k}
  }

  /** The tree after the entry at the non-empty path `p` is replaced by `v`
      (or removed when `v` is `None`). Only the directory that holds the last
      component is changed; when a step on the way is missing or is a file,
      nothing changes. */
  function Write(n: Node, p: Path, v: Option<Node>): Node
    requires p != []
    decreases p
  {
    match n
    case File(_) => n
    case Dir(es) =>
      if |p| == 1 then Dir(Put(es, p[0], v))
      else if p[0] in es then Dir(es[p[0] := Write(es[p[0]], p[1..], v)])
      else n
  }

  /** Neither path lies inside the other. */
  predicate Separate(p: Path, q: Path) {
    !(p <= q) && !(q <= p)
  }

  /** Whether the directory that would hold `p` exists. */
  predicate ParentIsDir(n: Node, p: Path) {
    p != [] && IsDirAt(n, p[..|p| - 1])
  }

  lemma {:induction false} LookupChild(n: Node, p: Path, k: Name)
    ensures Lookup(n, p + [k]) ==
      if IsDirAt(n, p) && k in ListingAt(n, p) then Some(ListingAt(n, p)[k]) else None
    decreases p
  {
    if p == [] {
      assert p + [k] == [k];
    } else {
      assert (p + [k])[1..] == p[1..] + [k];
      match n
      case File(_) =>
      case Dir(es) =>
        if p[0] in es {
          LookupChild(es[p[0]], p[1..], k);
        }
    }
  }

  /** A node that exists has a directory above each of its strict prefixes. */
  lemma {:induction false} ExistsUnderDir(n: Node, p: Path)
    requires p != [] && Lookup(n, p).Some?
    ensures ParentIsDir(n, p)
    decreases p
  {
    var parent := p[..|p| - 1];
    assert p == parent + [p[|p| - 1]];
    LookupChild(n, parent, p[|p| - 1]);
  }

  /** After a write the path holds what was written, provided its parent
      directory exists. */
  lemma {:induction false} LookupWritten(n: Node, p: Path, v: Option<Node>)
    requires ParentIsDir(n, p)
    ensures Lookup(Write(n, p, v), p) == v
    decreases p
  {
    match n
    case Dir(es) =>
      if |p| > 1 {
        assert p[1..][..|p[1..]| - 1] == p[..|p| - 1][1..];
        LookupWritten(es[p[0]], p[1..], v);
      }
  }

  /** A write changes nothing at a path separate from the written one. */
  lemma {:induction false} LookupUnwritten(n: Node, p: Path, v: Option<Node>, q: Path)
    requires p != [] && Separate(p, q)
    ensures Lookup(Write(n, p, v), q) == Lookup(n, q)
    decreases p
  {
    match n
    case File(_) =>
    case Dir(es) =>
      assert q != [];
      if |p| > 1 && p[0] in es && q[0] == p[0] {
        assert p[1..] <= q[1..] ==> p <= q;
        assert q[1..] <= p[1..] ==> q <= p;
        LookupUnwritten(es[p[0]], p[1..], v, q[1..]);
      }
  }

  /** Writing back what is already there changes nothing. */
  lemma {:induction false} WriteSame(n: Node, p: Path)
    requires p != [] && Lookup(n, p).Some?
    ensures Write(n, p, Lookup(n, p)) == n
    decreases p
  {
    match n
    case Dir(es) =>
      if |p| == 1 {
        assert Put(es, p[0], Lookup(n, p)) == es;
      } else {
        WriteSame(es[p[0]], p[1..]);
      }
  }

  /** Writing one entry below a directory that was itself just written is the
      same as writing the changed directory listing in one step. */
  lemma {:induction false} WriteBelow(n: Node, p: Path, m: map<Name, Node>, k: Name, v: Option<Node>)
    requires p != [] && Lookup(n, p).Some?
    ensures Write(Write(n, p, Some(Dir(m))), p + [k], v) == Write(n, p, Some(Dir(Put(m, k, v))))
    decreases p
  {
    assert (p + [k])[0] == p[0];
    match n
    case Dir(es) =>
      if |p| == 1 {
        assert (p + [k])[1..] == [k];
      } else {
        assert (p + [k])[1..] == p[1..] + [k];
        WriteBelow(es[p[0]], p[1..], m, k, v);
      }
  }

  /** Two writes at the same path: the later one wins. */
  lemma {:induction false} WriteTwice(n: Node, p: Path, a: Option<Node>, b: Option<Node>)
    requires p != []
    ensures Write(Write(n, p, a), p, b) == Write(n, p, b)
    decreases p
  {
    match n
    case File(_) =>
    case Dir(es) =>
      if |p| == 1 {
        assert Put(Put(es, p[0], a), p[0], b) == Put(es, p[0], b);
      } else if p[0] in es {
        WriteTwice(es[p[0]], p[1..], a, b);
      }
  }
}

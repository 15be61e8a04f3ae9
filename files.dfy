/**
 * An in-memory directory tree: the part of a filesystem that the folder
 * synchroniser reads and writes. A directory maps each entry name to the
 * entry it holds; a regular file holds its bytes. Paths are sequences of
 * entry names, taken relative to the root of the tree, the way
 * `os.path.join` builds them one name at a time.
 */
module Files {

  datatype Option<+T> = None | Some(value: T)

  type Name = string
  type Path = seq<Name>
  type Bytes = seq<bv8>

  datatype Node = File(content: Bytes) | Dir(children: map<Name, Node>)

  /** The entry at path `p` below `t`, or None when some step of `p` is missing or is a file. */
  function Lookup(t: Node, p: Path): Option<Node>
    decreases |p|
  {
    if p == [] then Some(t)
    else match t
      case File(_) => None
      case Dir(ch) => if p[0] in ch then Lookup(ch[p[0]], p[1..]) else None
  }

  /** `ch` with the entry `n` set to `v`, or removed when `v` is None. */
  function Assign(ch: map<Name, Node>, n: Name, v: Option<Node>): (r: map<Name, Node>)
    ensures v.Some? ==> n in r && r[n] == v.value
    ensures v.None? ==> n !in r
    ensures forall m :: m != n ==> (m in r <==> m in ch)
    ensures forall m :: m != n && m in ch ==> r[m] == ch[m]
  {
    if v.Some? then ch[n := v.value] else ch - {n}
  }

  /**
   * `t` with the entry at `p` replaced by `v` (inserted when it was absent,
   * removed when `v` is None). A path whose parent directory does not exist
   * leaves the tree as it is; so does removing the root.
   */
  function Graft(t: Node, p: Path, v: Option<Node>): Node
    decreases |p|
  {
    if p == [] then (if v.Some? then v.value else t)
    else match t
      case File(_) => t
      case Dir(ch) =>
        if |p| == 1 then Dir(Assign(ch, p[0], v))
        else if p[0] in ch then Dir(ch[p[0] := Graft(ch[p[0]], p[1..], v)])
        else t
  }

  /** Putting back what is already at `p` changes nothing. */
  lemma {:induction false} GraftLookup(t: Node, p: Path)
    ensures Graft(t, p, Lookup(t, p)) == t
    decreases |p|
  {
    if p != [] && t.Dir? {
      if |p| == 1 {
        assert Assign(t.children, p[0], Lookup(t, p)) == t.children;
      } else if p[0] in t.children {
        GraftLookup(t.children[p[0]], p[1..]);
      }
    }
  }

  /** After an entry is put at an existing path, the tree below that path is the entry. */
  lemma {:induction false} LookupGraft(t: Node, p: Path, x: Node, q: Path)
    requires Lookup(t, p).Some?
    ensures Lookup(Graft(t, p, Some(x)), p + q) == Lookup(x, q)
    decreases |p|
  {
    if p != [] {
      assert (p + q)[0] == p[0] && (p + q)[1..] == p[1..] + q;
      var g := Graft(t, p, Some(x));
      if |p| == 1 {
        assert p[1..] + q == q;
        assert g.children[p[0]] == x;
      } else {
        LookupGraft(t.children[p[0]], p[1..], x, q);
        assert g.children[p[0]] == Graft(t.children[p[0]], p[1..], Some(x));
      }
    } else {
      assert p + q == q;
    }
  }

  /**
   * Changing one child of a directory that was put at `p` is the same as
   * putting the changed directory at `p`.
   */
  lemma {:induction false} GraftChild(t: Node, p: Path, ch: map<Name, Node>, n: Name, v: Option<Node>)
    requires Lookup(t, p).Some?
    ensures Graft(Graft(t, p, Some(Dir(ch))), p + [n], v) == Graft(t, p, Some(Dir(Assign(ch, n, v))))
    decreases |p|
  {
    if p == [] {
      assert [] + [n] == [n];
    } else {
      var c := t.children;
      assert (p + [n])[0] == p[0] && (p + [n])[1..] == p[1..] + [n];
      GraftChild(c[p[0]], p[1..], ch, n, v);
    }
  }

  /** A second graft at an existing path overrides the first. */
  lemma {:induction false} GraftTwice(t: Node, p: Path, x: Node, y: Node)
    requires Lookup(t, p).Some?
    ensures Graft(Graft(t, p, Some(x)), p, Some(y)) == Graft(t, p, Some(y))
    decreases |p|
  {
    if |p| == 1 {
      assert t.children[p[0] := x][p[0] := y] == t.children[p[0] := y];
    } else if |p| > 1 {
      GraftTwice(t.children[p[0]], p[1..], x, y);
    }
  }
}

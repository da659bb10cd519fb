/**
 Red-black insertion and search on nodes that point at their children and at their parent.

 Keys are distinct and never change, so a node is named by its key; the nodes live in a
 map from keys to their other fields, which the code updates one field at a time.
 */
module RbTree {
  import opened Sequences
  import opened RbModel

  datatype Ptr = Null | At(key: nat)

  datatype Cell = Cell(parent: Ptr, left: Ptr, right: Ptr, red: bool)

  type Mem = map<nat, Cell>

  function PtrOf(t: Tree): Ptr {
    if t == Leaf then Null else At(t.key)
  }

  function ParentOf(path: Path): Ptr {
    if path == [] then Null else At(path[0].key)
  }

  /** The nodes reached from t's root are laid out as t, and each points back at its parent. */
  ghost predicate Rep(mem: Mem, t: Tree, parent: Ptr) {
    match t
    case Leaf => true
    case Node(l, k, red, r) =>
      k in mem && mem[k] == Cell(parent, PtrOf(l), PtrOf(r), red) && Rep(mem, l, At(k)) && Rep(mem, r, At(k))
  }

  /** The nodes above a position whose root is focus are laid out as path, up to root. */
  ghost predicate RepPath(mem: Mem, path: Path, focus: Ptr, root: Ptr) {
    if path == [] then root == focus
    else
      var f := path[0];
      && f.key in mem
      && mem[f.key] == Cell(ParentOf(path[1..]), if f.isLeft then focus else PtrOf(f.sibling),
                            if f.isLeft then PtrOf(f.sibling) else focus, f.red)
      && Rep(mem, f.sibling, At(f.key))
      && RepPath(mem, path[1..], At(f.key), root)
  }

  function Keys(t: Tree): set<nat> {
    match t
    case Leaf => {}
    case Node(l, k, _, r) => Keys(l) + {k} + Keys(r)
  }

  function PathKeys(path: Path): set<nat> {
    if path == [] then {} else {path[0].key} + Keys(path[0].sibling) + PathKeys(path[1..])
  }

  /** No key occurs twice in t. */
  ghost predicate Unique(t: Tree) {
    t.Node? ==> t.key !in Keys(t.left) && t.key !in Keys(t.right) && Keys(t.left) !! Keys(t.right) && Unique(t.left) && Unique(t.right)
  }

  ghost predicate UniquePath(path: Path, ks: set<nat>) {
    path != [] ==>
      var f := path[0];
      && f.key !in ks && f.key !in Keys(f.sibling) && Keys(f.sibling) !! ks && Unique(f.sibling)
      && UniquePath(path[1..], ks + {f.key} + Keys(f.sibling))
  }

  /** The whole structure: the subtree x at the end of path, under root. */
  ghost predicate Zip(mem: Mem, root: Ptr, x: Tree, path: Path) {
    && Rep(mem, x, ParentOf(path)) && RepPath(mem, path, PtrOf(x), root)
    && Unique(x) && UniquePath(path, Keys(x))
  }

  // ----- Frames -----

  lemma {:induction false} RepFrame(mem: Mem, mem': Mem, t: Tree, parent: Ptr)
    requires Rep(mem, t, parent) && forall k :: k in Keys(t) && k in mem ==> k in mem' && mem'[k] == mem[k]
    ensures Rep(mem', t, parent)
  {
    if t.Node? {
      RepFrame(mem, mem', t.left, At(t.key));
      RepFrame(mem, mem', t.right, At(t.key));
    }
  }

  lemma {:induction false} RepPathFrame(mem: Mem, mem': Mem, path: Path, focus: Ptr, root: Ptr)
    requires RepPath(mem, path, focus, root)
    requires forall k :: k in PathKeys(path) && k in mem ==> k in mem' && mem'[k] == mem[k]
    ensures RepPath(mem', path, focus, root)
  {
    if path != [] {
      RepFrame(mem, mem', path[0].sibling, At(path[0].key));
      RepPathFrame(mem, mem', path[1..], At(path[0].key), root);
    }
  }

  lemma {:induction false} PathKeysApart(path: Path, ks: set<nat>)
    requires UniquePath(path, ks)
    ensures PathKeys(path) !! ks
  {
    if path != [] {
      PathKeysApart(path[1..], ks + {path[0].key} + Keys(path[0].sibling));
    }
  }

  // ----- Moving along the path -----

  lemma ZipUp(mem: Mem, root: Ptr, x: Tree, path: Path)
    requires Zip(mem, root, x, path) && path != []
    ensures Zip(mem, root, Up(x, path[0]), path[1..])
  {
    assert Keys(Up(x, path[0])) == Keys(x) + {path[0].key} + Keys(path[0].sibling);
  }

  lemma ZipDown(mem: Mem, root: Ptr, t: Tree, path: Path)
    requires Zip(mem, root, t, path) && t.Node?
    ensures Zip(mem, root, t.left, [Frame(t.key, t.red, true, t.right)] + path)
    ensures Zip(mem, root, t.right, [Frame(t.key, t.red, false, t.left)] + path)
  {
    var fl, fr := [Frame(t.key, t.red, true, t.right)] + path, [Frame(t.key, t.red, false, t.left)] + path;
    assert fl[1..] == path && fr[1..] == path;
    assert Keys(t.left) + {t.key} + Keys(t.right) == Keys(t);
    assert Keys(t.right) + {t.key} + Keys(t.left) == Keys(t);
  }

  /** Changes inside a subtree that keep its keys and its root keep the rest. */
  lemma ZipInside(mem: Mem, mem': Mem, root: Ptr, x: Tree, x': Tree, path: Path)
    requires Zip(mem, root, x, path)
    requires Rep(mem', x', ParentOf(path)) && Unique(x') && Keys(x') == Keys(x) && PtrOf(x') == PtrOf(x)
    requires forall k :: k in mem && k !in Keys(x) ==> k in mem' && mem'[k] == mem[k]
    ensures Zip(mem', root, x', path)
  {
    PathKeysApart(path, Keys(x));
    RepPathFrame(mem, mem', path, PtrOf(x), root);
  }

  /** The child pointer of the node above, or the root, is turned to another focus. */
  function Redirect(mem: Mem, path: Path, focus: Ptr): Mem
    requires path != [] ==> path[0].key in mem
  {
    if path == [] then mem
    else if path[0].isLeft then mem[path[0].key := mem[path[0].key].(left := focus)]
    else mem[path[0].key := mem[path[0].key].(right := focus)]
  }

  /** Changes inside a subtree that keep its keys but lift another node to its root. */
  lemma ZipLift(mem: Mem, mem': Mem, root: Ptr, x: Tree, x': Tree, path: Path)
    requires Zip(mem, root, x, path) && (path != [] ==> path[0].key in mem')
    requires Rep(mem', x', ParentOf(path)) && Unique(x') && Keys(x') == Keys(x)
    requires forall k :: k in mem && k !in Keys(x) ==> k in mem' && mem'[k] == mem[k]
    ensures Zip(Redirect(mem', path, PtrOf(x')), if path == [] then PtrOf(x') else root, x', path)
  {
    PathKeysApart(path, Keys(x));
    var m := Redirect(mem', path, PtrOf(x'));
    RepFrame(mem', m, x', ParentOf(path));
    if path != [] {
      var f, rest := path[0], path[1..];
      PathKeysApart(rest, Keys(x) + {f.key} + Keys(f.sibling));
      RepFrame(mem, m, f.sibling, At(f.key));
      RepPathFrame(mem, m, rest, At(f.key), root);
    }
  }

  // ----- Rotations -----

  function SetParent(mem: Mem, p: Ptr, parent: Ptr): Mem
    requires p.At? ==> p.key in mem
  {
    if p == Null then mem else mem[p.key := mem[p.key].(parent := parent)]
  }

  /** The field writes of a left rotation, apart from the pointer to the rotated subtree. */
  function LeftWrites(mem: Mem, n: nat, r: nat): (m: Mem)
    requires n in mem && r in mem && (mem[r].left.At? ==> mem[r].left.key in mem)
  {
    var parent := mem[n].parent;
    var m1 := mem[n := mem[n].(right := mem[r].left)];
    var m2 := SetParent(m1, m1[r].left, At(n));
    var m3 := m2[r := m2[r].(left := At(n))];
    var m4 := m3[r := m3[r].(parent := parent)];
    m4[n := m4[n].(parent := At(r))]
  }

  function RightWrites(mem: Mem, n: nat, l: nat): (m: Mem)
    requires n in mem && l in mem && (mem[l].right.At? ==> mem[l].right.key in mem)
  {
    var parent := mem[n].parent;
    var m1 := mem[n := mem[n].(left := mem[l].right)];
    var m2 := SetParent(m1, m1[l].right, At(n));
    var m3 := m2[l := m2[l].(right := At(n))];
    var m4 := m3[l := m3[l].(parent := parent)];
    m4[n := m4[n].(parent := At(l))]
  }

  lemma Reparent(mem: Mem, mem': Mem, t: Tree, parent: Ptr, parent': Ptr)
    requires Rep(mem, t, parent) && Unique(t)
    requires t.Node? ==> t.key in mem' && mem'[t.key] == mem[t.key].(parent := parent')
    requires forall k :: k in Keys(t) && k in mem && At(k) != PtrOf(t) ==> k in mem' && mem'[k] == mem[k]
    ensures Rep(mem', t, parent')
  {
    if t.Node? {
      RepFrame(mem, mem', t.left, At(t.key));
      RepFrame(mem, mem', t.right, At(t.key));
    }
  }

  lemma {:induction false} RotateKeys(a: Tree, n: nat, c: bool, b: Tree, r: nat, d: bool, e: Tree)
    ensures var t, t' := Node(a, n, c, Node(b, r, d, e)), Node(Node(a, n, c, b), r, d, e);
            Keys(t) == Keys(t') && (Unique(t) <==> Unique(t'))
  {
    var right, left := Node(b, r, d, e), Node(a, n, c, b);
    assert Keys(right) == Keys(b) + {r} + Keys(e);
    assert Keys(left) == Keys(a) + {n} + Keys(b);
  }

  lemma {:induction false} LeftRep(mem: Mem, a: Tree, n: nat, c: bool, b: Tree, r: nat, d: bool, e: Tree, parent: Ptr)
    requires var t := Node(a, n, c, Node(b, r, d, e)); Rep(mem, t, parent) && Unique(t)
    ensures n in mem && r in mem && mem[n].right == At(r) && mem[n].parent == parent && mem[r].left == PtrOf(b)
    ensures n != r && (b.Node? ==> b.key in mem && b.key != n && b.key != r)
    ensures var t, m := Node(Node(a, n, c, b), r, d, e), LeftWrites(mem, n, r);
            && Rep(m, t, parent) && Unique(t) && Keys(t) == Keys(Node(a, n, c, Node(b, r, d, e)))
            && forall k :: k in mem && k !in Keys(t) ==> k in m && m[k] == mem[k]
  {
    assert Rep(mem, b, At(r)) && (b.Node? ==> b.key in mem);
    RotateKeys(a, n, c, b, r, d, e);
    var m := LeftWrites(mem, n, r);
    RepFrame(mem, m, a, At(n));
    RepFrame(mem, m, e, At(r));
    Reparent(mem, m, b, At(r), At(n));
  }

  lemma {:induction false} RightRep(mem: Mem, a: Tree, l: nat, c: bool, b: Tree, n: nat, d: bool, e: Tree, parent: Ptr)
    requires var t := Node(Node(a, l, c, b), n, d, e); Rep(mem, t, parent) && Unique(t)
    ensures n in mem && l in mem && mem[n].left == At(l) && mem[n].parent == parent && mem[l].right == PtrOf(b)
    ensures n != l && (b.Node? ==> b.key in mem && b.key != n && b.key != l)
    ensures var t, m := Node(a, l, c, Node(b, n, d, e)), RightWrites(mem, n, l);
            && Rep(m, t, parent) && Unique(t) && Keys(t) == Keys(Node(Node(a, l, c, b), n, d, e))
            && forall k :: k in mem && k !in Keys(t) ==> k in m && m[k] == mem[k]
  {
    assert Rep(mem, b, At(l)) && (b.Node? ==> b.key in mem);
    RotateKeys(a, l, c, b, n, d, e);
    var m := RightWrites(mem, n, l);
    RepFrame(mem, m, a, At(l));
    RepFrame(mem, m, e, At(n));
    Reparent(mem, m, b, At(l), At(n));
  }

  /** The node above a subtree rooted at n holds it on the side its key says. */
  ghost predicate SideOk(path: Path, n: nat) {
    path != [] ==> (path[0].isLeft <==> n < path[0].key)
  }

  lemma ZipAbove(mem: Mem, root: Ptr, x: Tree, path: Path)
    requires Zip(mem, root, x, path)
    ensures path != [] ==> path[0].key in mem && path[0].key !in Keys(x)
    ensures path != [] ==> mem[path[0].key].parent == ParentOf(path[1..]) && mem[path[0].key].red == path[0].red
    ensures x.Node? ==> x.key in mem && mem[x.key] == Cell(ParentOf(path), PtrOf(x.left), PtrOf(x.right), x.red)
    ensures path == [] ==> root == PtrOf(x)
  {
  }

  // ----- Colours -----

  function SetRed(mem: Mem, k: nat, red: bool): Mem
    requires k in mem
  {
    mem[k := mem[k].(red := red)]
  }

  lemma {:induction false} PaintRoot(mem: Mem, mem': Mem, t: Tree, parent: Ptr, red: bool)
    requires Rep(mem, t, parent) && t.Node? && Unique(t)
    requires t.key in mem && t.key in mem' && mem'[t.key] == mem[t.key].(red := red)
    requires forall k :: k in Keys(t) && k in mem && k != t.key ==> k in mem' && mem'[k] == mem[k]
    ensures Rep(mem', t.(red := red), parent)
  {
    RepFrame(mem, mem', t.left, At(t.key));
    RepFrame(mem, mem', t.right, At(t.key));
  }

  function RecolourWrites(mem: Mem, p: nat, u: nat, g: nat): Mem
    requires p in mem && u in mem && g in mem
  {
    SetRed(SetRed(SetRed(mem, p, false), u, false), g, true)
  }

  lemma {:induction false} RecolourRep(mem: Mem, x: Tree, p: Frame, g: Frame, parent: Ptr)
    requires Rep(mem, Up(Up(x, p), g), parent) && Unique(Up(Up(x, p), g)) && g.sibling.Node?
    ensures p.key in mem && g.sibling.key in mem && g.key in mem
    ensures var t, m := Recolour(x, p, g), RecolourWrites(mem, p.key, g.sibling.key, g.key);
            && Rep(m, t, parent) && Unique(t) && Keys(t) == Keys(Up(Up(x, p), g))
            && forall k :: k in mem && k !in Keys(t) ==> k in m && m[k] == mem[k]
  {
    hide Unique, Keys;
    var lower := Up(x, p);
    BothBelow(mem, lower, g, parent);
    RecolourKeys(x, p, g);
    var m := RecolourWrites(mem, p.key, g.sibling.key, g.key);
    PaintRoot(mem, m, lower, At(g.key), false);
    PaintRoot(mem, m, g.sibling, At(g.key), false);
    assert lower.(red := false) == Up(x, p.(red := false));
  }

  lemma {:induction false} BothBelow(mem: Mem, lower: Tree, g: Frame, parent: Ptr)
    requires Rep(mem, Up(lower, g), parent) && Unique(Up(lower, g))
    ensures Rep(mem, lower, At(g.key)) && Rep(mem, g.sibling, At(g.key)) && Unique(lower) && Unique(g.sibling)
    ensures Keys(Up(lower, g)) == Keys(lower) + {g.key} + Keys(g.sibling)
  {
  }

  lemma {:induction false} RecolourKeys(x: Tree, p: Frame, g: Frame)
    requires Unique(Up(Up(x, p), g)) && g.sibling.Node?
    ensures Unique(Recolour(x, p, g)) && Keys(Recolour(x, p, g)) == Keys(Up(Up(x, p), g))
    ensures p.key in Keys(Up(x, p)) && p.key !in Keys(g.sibling)
    ensures g.sibling.key in Keys(g.sibling) && g.sibling.key !in Keys(Up(x, p))
    ensures g.key !in Keys(Up(x, p)) && g.key !in Keys(g.sibling)
  {
    var lower, lower' := Up(x, p), Up(x, p.(red := false));
    var uncle, uncle' := g.sibling, g.sibling.(red := false);
    assert Keys(lower') == Keys(lower) && Unique(lower') && Keys(uncle') == Keys(uncle) && Unique(uncle');
  }

  /** The colours of a node and its child are exchanged. */
  lemma {:induction false} SwapRep(mem: Mem, a: Tree, n: nat, c: bool, q: Tree, onRight: bool, parent: Ptr)
    requires q.Node?
    requires var t := if onRight then Node(a, n, c, q) else Node(q, n, c, a); Rep(mem, t, parent) && Unique(t)
    ensures n in mem && q.key in mem && mem[n].red == c && mem[q.key].red == q.red && mem[q.key].parent == At(n)
    ensures var q' := q.(red := c);
            var t := if onRight then Node(a, n, q.red, q') else Node(q', n, q.red, a);
            var m := SetRed(SetRed(mem, q.key, c), n, q.red);
            && Rep(m, t, parent) && Unique(t)
            && Keys(t) == Keys(if onRight then Node(a, n, c, q) else Node(q, n, c, a))
            && forall k :: k in mem && k !in Keys(t) ==> k in m && m[k] == mem[k]
  {
    assert Rep(mem, q, At(n)) && Rep(mem, a, At(n));
    var m := SetRed(SetRed(mem, q.key, c), n, q.red);
    PaintRoot(mem, m, q, At(n), c);
    RepFrame(mem, m, a, At(n));
  }

  lemma DownKeys(t: Tree, path: Path)
    requires t.Node?
    ensures var fl, fr := [Frame(t.key, t.red, true, t.right)] + path, [Frame(t.key, t.red, false, t.left)] + path;
            && Keys(t.left) <= Keys(t) && Keys(t.right) <= Keys(t)
            && PathKeys(fl) <= PathKeys(path) + Keys(t) && PathKeys(fr) <= PathKeys(path) + Keys(t)
  {
    var fl, fr := [Frame(t.key, t.red, true, t.right)] + path, [Frame(t.key, t.red, false, t.left)] + path;
    assert fl[1..] == path && fr[1..] == path;
  }

  // ----- Order and sides -----

  lemma IncreasingInfix(a: seq<nat>, b: seq<nat>, c: seq<nat>)
    requires Increasing(a + b + c)
    ensures Increasing(b)
  {
    var s := a + b + c;
    assert forall i :: 0 <= i < |b| ==> s[|a| + i] == b[i];
  }

  /** In an ordered tree a node hangs on the side its key says. */
  lemma Side(x: Tree, path: Path)
    requires Ordered(Plug(x, path)) && x.Node?
    ensures SideOk(path, x.key)
  {
    if path != [] {
      var y := Up(x, path[0]);
      PlugInorder(y, path[1..]);
      IncreasingInfix(Before(path[1..]), Inorder(y), After(path[1..]));
      IncreasingParts(Inorder(y.left), y.key, Inorder(y.right));
      assert x.key in Inorder(x);
    }
  }

  lemma StepOrdered(x: Tree, path: Path, y: Tree)
    requires |path| > 1 && Ordered(Plug(x, path)) && Inorder(y) == Inorder(Up(Up(x, path[0]), path[1]))
    ensures Ordered(Plug(y, path[2..]))
  {
    assert path[1..][1..] == path[2..];
    assert Plug(x, path) == Plug(Up(Up(x, path[0]), path[1]), path[2..]);
    PlugInorder(Up(Up(x, path[0]), path[1]), path[2..]);
    PlugInorder(y, path[2..]);
  }

  lemma {:induction false} ZipPlug(mem: Mem, root: Ptr, x: Tree, path: Path)
    requires Zip(mem, root, x, path)
    ensures Zip(mem, root, Plug(x, path), [])
    decreases |path|
  {
    if path != [] {
      ZipUp(mem, root, x, path);
      ZipPlug(mem, root, Up(x, path[0]), path[1..]);
    }
  }

  /** A new red node without children is hung at an empty place. */
  lemma {:induction false} Attach(mem: Mem, root: Ptr, path: Path, key: nat)
    requires Zip(mem, root, Leaf, path) && path != [] && key !in PathKeys(path)
    ensures path[0].key in mem && path[0].key != key
    ensures var m := mem[key := Cell(At(path[0].key), Null, Null, true)];
            Zip(Redirect(m, path, At(key)), root, Node(Leaf, key, true, Leaf), path)
  {
    var f, rest := path[0], path[1..];
    var m := Redirect(mem[key := Cell(At(f.key), Null, Null, true)], path, At(key));
    var ks := Keys(Leaf) + {f.key} + Keys(f.sibling);
    assert UniquePath(rest, ks);
    PathKeysApart(rest, ks);
    RepFrame(mem, m, f.sibling, At(f.key));
    RepPathFrame(mem, m, rest, At(f.key), root);
    UniqueMore(rest, ks, {key} + {f.key} + Keys(f.sibling), key);
    assert Keys(Node(Leaf, key, true, Leaf)) == {key};
  }

  lemma {:induction false} UniqueMore(path: Path, ks: set<nat>, ks': set<nat>, key: nat)
    requires UniquePath(path, ks) && key !in PathKeys(path) && ks' == ks + {key}
    ensures UniquePath(path, ks')
  {
    if path != [] {
      var more := {path[0].key} + Keys(path[0].sibling);
      assert ks' + {path[0].key} + Keys(path[0].sibling) == ks + {path[0].key} + Keys(path[0].sibling) + {key};
      UniqueMore(path[1..], ks + {path[0].key} + Keys(path[0].sibling), ks' + {path[0].key} + Keys(path[0].sibling), key);
    }
  }

  lemma {:induction false} KeysInorder(t: Tree)
    ensures forall k :: k in Keys(t) <==> k in Inorder(t)
  {
    if t.Node? {
      KeysInorder(t.left);
      KeysInorder(t.right);
    }
  }

  lemma {:induction false} PlugKeys(x: Tree, path: Path)
    ensures Keys(Plug(x, path)) == Keys(x) + PathKeys(path)
    decreases |path|
  {
    if path != [] {
      PlugKeys(Up(x, path[0]), path[1..]);
      assert Keys(Up(x, path[0])) == Keys(x) + {path[0].key} + Keys(path[0].sibling);
    }
  }

  /** The frames above a position, as the code reads them. */
  lemma ReadAbove(mem: Mem, root: Ptr, x: Tree, path: Path)
    requires Zip(mem, root, x, path) && x.Node? && |path| > 1
    ensures path[0].key in mem && mem[path[0].key].parent == At(path[1].key)
    ensures path[1].key in mem && mem[path[1].key].red == path[1].red
    ensures (if path[1].isLeft then mem[path[1].key].right else mem[path[1].key].left) == PtrOf(path[1].sibling)
    ensures path[1].sibling.Node? ==> path[1].sibling.key in mem && mem[path[1].sibling.key].red == path[1].sibling.red
  {
    assert path[1..][0] == path[1] && RepPath(mem, path[1..], At(path[0].key), root);
    assert Rep(mem, path[1].sibling, At(path[1].key));
  }

  lemma InsertedKeys(t: Tree, key: nat)
    requires Ordered(t) && !IsRed(t) && key !in Keys(t)
    ensures key !in Inorder(t) && Ordered(RbModel.Insert(t, key)) && Keys(RbModel.Insert(t, key)) == Keys(t) + {key}
  {
    KeysInorder(t);
    InsertOrdered(t, key);
    KeysInorder(RbModel.Insert(t, key));
  }

  lemma RootLeaf(mem: Mem, root: Ptr, t: Tree)
    requires Zip(mem, root, t, [])
    ensures root == PtrOf(t) && (t == Leaf <==> root == Null)
    ensures t == Leaf ==> forall key: nat :: RbModel.Insert(t, key) == Node(Leaf, key, false, Leaf)
  {
  }

  lemma SingleZip(mem: Mem, root: Ptr, key: nat)
    requires key in mem && mem[key] == Cell(Null, Null, Null, false) && root == At(key)
    ensures Zip(mem, root, Node(Leaf, key, false, Leaf), [])
  {
  }

  /** The climb begins with the new node at the end of the search path. */
  lemma StartClimb(t: Tree, key: nat, path: Path)
    requires t.Node? && !IsRed(t) && Ordered(t) && key !in Inorder(t) && path == Descend(t, key, [])
    ensures TopBlack(path) && FixUp(Node(Leaf, key, true, Leaf), path) == RbModel.Insert(t, key)
    ensures Ordered(Plug(Node(Leaf, key, true, Leaf), path))
  {
    DescendTop(t, key, []);
    FixUpInorder(Node(Leaf, key, true, Leaf), path);
    InsertOrdered(t, key);
  }

  lemma FixUpStop(x: Tree, path: Path)
    requires x.Node? && TopBlack(path) && path != [] && !path[0].red
    ensures FixUp(x, path) == Plug(x, path)
  {
  }

  lemma FixUpStep(x: Tree, path: Path)
    requires x.Node? && TopBlack(path) && path != [] && path[0].red
    ensures |path| > 1 && TopBlack(path[2..])
    ensures FixUp(x, path) ==
              if IsRed(path[1].sibling) then FixUp(Recolour(x, path[0], path[1]), path[2..])
              else FixUp(Rotate(x, path[0], path[1]), path[2..])
  {
  }

  lemma Blacken(mem: Mem, root: Ptr, x: Tree)
    requires Zip(mem, root, x, []) && x.Node?
    ensures x.key in mem && FixUp(x, []) == x.(red := false)
    ensures Zip(mem[x.key := mem[x.key].(red := false)], root, x.(red := false), [])
  {
    var m := mem[x.key := mem[x.key].(red := false)];
    PaintRoot(mem, m, x, Null, false);
    assert Keys(x.(red := false)) == Keys(x);
    ZipInside(mem, m, root, x, x.(red := false), []);
  }

  lemma TwoLevels(mem: Mem, root: Ptr, x: Tree, path: Path)
    requires Zip(mem, root, x, path) && |path| > 1
    ensures var t, rest := Up(Up(x, path[0]), path[1]), path[2..];
            && Zip(mem, root, t, rest)
            && Rep(mem, t, ParentOf(rest)) && Unique(t) && PtrOf(t) == At(path[1].key)
  {
    ZipUp(mem, root, x, path);
    ZipUp(mem, root, Up(x, path[0]), path[1..]);
    assert path[1..][1..] == path[2..];
  }

  lemma Sides(x: Tree, path: Path)
    requires |path| > 1 && Ordered(Plug(x, path)) && x.Node?
    ensures SideOk(path, x.key) && SideOk(path[1..], path[0].key) && SideOk(path[2..], path[1].key)
  {
    Side(x, path);
    Side(Up(x, path[0]), path[1..]);
    assert path[1..][1..] == path[2..];
    Side(Up(Up(x, path[0]), path[1]), path[2..]);
  }

  class RbRoot {
    var mem: Mem
    var root: Ptr
    ghost var tree: Tree

    ghost predicate Valid()
      reads this
    {
      && Zip(mem, root, tree, []) && mem.Keys == Keys(tree)
      && Ordered(tree) && !IsRed(tree)
    }

    constructor ()
      ensures Valid() && tree == Leaf
    {
      mem, root, tree := map[], Null, Leaf;
    }

    method Search(value: nat) returns (curNode: Ptr)
      requires Valid()
      ensures curNode == if value in mem then At(value) else Null
    {
      hide Unique, UniquePath, Ordered;
      curNode := root;
      ghost var t, path := tree, [];
      SearchFinds(tree, value);
      KeysInorder(tree);
      while true
        invariant Zip(mem, root, t, path) && curNode == PtrOf(t)
        invariant RbModel.Search(tree, value) == RbModel.Search(t, value)
        decreases t
      {
        if curNode == Null {
          return;
        }
        ZipAbove(mem, root, t, path);
        ZipDown(mem, root, t, path);
        if value == curNode.key {
          return;
        }
        if value < curNode.key {
          curNode := mem[curNode.key].left;
          t, path := t.left, [Frame(t.key, t.red, true, t.right)] + path;
        } else {
          curNode := mem[curNode.key].right;
          t, path := t.right, [Frame(t.key, t.red, false, t.left)] + path;
        }
      }
    }

    /** Hangs a new red node where the search for its key ends. */
    method BstInsert(newNode: nat) returns (ghost path: Path)
      requires Valid() && newNode !in Keys(tree) && root.At?
      modifies this`mem
      ensures path == Descend(tree, newNode, []) && path != []
      ensures Zip(mem, root, Node(Leaf, newNode, true, Leaf), path) && mem.Keys == old(mem).Keys + {newNode}
    {
      hide Rep, RepPath, Unique, UniquePath, Ordered, Keys;
      var cur := root.key;
      ghost var t := tree;
      path := [];
      ZipAbove(mem, root, t, path);
      while true
        invariant Zip(mem, root, t, path) && t.Node? && cur == t.key && mem == old(mem)
        invariant Descend(t, newNode, path) == Descend(tree, newNode, [])
        invariant newNode !in Keys(t) && newNode !in PathKeys(path)
        decreases t
      {
        ZipAbove(mem, root, t, path);
        ZipDown(mem, root, t, path);
        DownKeys(t, path);
        if newNode < cur {
          path := [Frame(t.key, t.red, true, t.right)] + path;
          t := t.left;
          if mem[cur].left.At? {
            cur := mem[cur].left.key;
          } else {
            Attach(mem, root, path, newNode);
            mem := mem[newNode := Cell(At(cur), Null, Null, true)];
            mem := mem[cur := mem[cur].(left := At(newNode))];
            break;
          }
        } else {
          path := [Frame(t.key, t.red, false, t.left)] + path;
          t := t.right;
          if mem[cur].right.At? {
            cur := mem[cur].right.key;
          } else {
            Attach(mem, root, path, newNode);
            mem := mem[newNode := Cell(At(cur), Null, Null, true)];
            mem := mem[cur := mem[cur].(right := At(newNode))];
            break;
          }
        }
      }
    }

    method RotateLeft(node: nat, ghost a: Tree, ghost c: bool, ghost b: Tree, ghost r: nat, ghost d: bool, ghost e: Tree, ghost path: Path)
      requires Zip(mem, root, Node(a, node, c, Node(b, r, d, e)), path) && SideOk(path, node)
      modifies this`mem, this`root
      ensures Zip(mem, root, Node(Node(a, node, c, b), r, d, e), path) && mem.Keys == old(mem).Keys
    {
      hide Rep, RepPath, Unique, UniquePath;
      ghost var m0 := mem;
      ZipAbove(mem, root, Node(a, node, c, Node(b, r, d, e)), path);
      LeftRep(mem, a, node, c, b, r, d, e, ParentOf(path));
      var rChild, parent := mem[node].right.key, mem[node].parent;
      var m := mem;
      m := m[node := m[node].(right := m[rChild].left)];
      if m[rChild].left.At? {
        var rl := m[rChild].left.key;
        m := m[rl := m[rl].(parent := At(node))];
      }
      m := m[rChild := m[rChild].(left := At(node))];
      m := m[rChild := m[rChild].(parent := m[node].parent)];
      m := m[node := m[node].(parent := At(rChild))];
      assert m == LeftWrites(m0, node, r);
      ZipLift(m0, m, root, Node(a, node, c, Node(b, r, d, e)), Node(Node(a, node, c, b), r, d, e), path);
      if parent.At? {
        if node < parent.key {
          m := m[parent.key := m[parent.key].(left := At(rChild))];
        } else {
          m := m[parent.key := m[parent.key].(right := At(rChild))];
        }
      } else {
        root := At(rChild);
      }
      mem := m;
    }

    method RotateRight(node: nat, ghost a: Tree, ghost l: nat, ghost c: bool, ghost b: Tree, ghost d: bool, ghost e: Tree, ghost path: Path)
      requires Zip(mem, root, Node(Node(a, l, c, b), node, d, e), path) && SideOk(path, node)
      modifies this`mem, this`root
      ensures Zip(mem, root, Node(a, l, c, Node(b, node, d, e)), path) && mem.Keys == old(mem).Keys
    {
      hide Rep, RepPath, Unique, UniquePath;
      ghost var m0 := mem;
      ZipAbove(mem, root, Node(Node(a, l, c, b), node, d, e), path);
      RightRep(mem, a, l, c, b, node, d, e, ParentOf(path));
      var lChild, parent := mem[node].left.key, mem[node].parent;
      var m := mem;
      m := m[node := m[node].(left := m[lChild].right)];
      if m[lChild].right.At? {
        var lr := m[lChild].right.key;
        m := m[lr := m[lr].(parent := At(node))];
      }
      m := m[lChild := m[lChild].(right := At(node))];
      m := m[lChild := m[lChild].(parent := m[node].parent)];
      m := m[node := m[node].(parent := At(lChild))];
      assert m == RightWrites(m0, node, l);
      ZipLift(m0, m, root, Node(Node(a, l, c, b), node, d, e), Node(a, l, c, Node(b, node, d, e)), path);
      if parent.At? {
        if node < parent.key {
          m := m[parent.key := m[parent.key].(left := At(lChild))];
        } else {
          m := m[parent.key := m[parent.key].(right := At(lChild))];
        }
      } else {
        root := At(lChild);
      }
      mem := m;
    }

    /** Parent and uncle become black, the grandparent red. */
    method RecolourStep(parent: nat, uncle: nat, grandParent: nat, ghost x: Tree, ghost path: Path)
      requires Zip(mem, root, x, path) && x.Node? && |path| > 1 && path[1].sibling.Node?
      requires parent == path[0].key && uncle == path[1].sibling.key && grandParent == path[1].key
      modifies this`mem
      ensures Zip(mem, root, Recolour(x, path[0], path[1]), path[2..]) && mem.Keys == old(mem).Keys
    {
      hide Rep, RepPath, Unique, UniquePath, Keys;
      ghost var p, g, rest, t := path[0], path[1], path[2..], Up(Up(x, path[0]), path[1]);
      TwoLevels(mem, root, x, path);
      RecolourRep(mem, x, p, g, ParentOf(rest));
      mem := mem[parent := mem[parent].(red := false)];
      mem := mem[uncle := mem[uncle].(red := false)];
      mem := mem[grandParent := mem[grandParent].(red := true)];
      ZipInside(old(mem), mem, root, t, Recolour(x, p, g), rest);
    }

    /** The rotations of one round, followed by the exchange of colours. */
    method RotateStep(newNode: nat, parent: nat, grandParent: nat, ghost x: Tree, ghost path: Path) returns (top: nat)
      requires Zip(mem, root, x, path) && x.Node? && |path| > 1 && Ordered(Plug(x, path))
      requires newNode == x.key && parent == path[0].key && grandParent == path[1].key
      modifies this`mem, this`root
      ensures Zip(mem, root, Rotate(x, path[0], path[1]), path[2..]) && mem.Keys == old(mem).Keys
      ensures top == Rotate(x, path[0], path[1]).key
    {
      hide Rep, RepPath, Unique, UniquePath, Ordered;
      ghost var p, g, rest := path[0], path[1], path[2..];
      TwoLevels(mem, root, x, path);
      Sides(x, path);
      ghost var a, n, c, q, onRight;
      if parent < grandParent {
        if newNode >= parent {
          ZipUp(mem, root, x, path);
          RotateLeft(parent, p.sibling, p.red, x.left, x.key, x.red, x.right, path[1..]);
          ghost var lower := Node(Node(p.sibling, p.key, p.red, x.left), x.key, x.red, x.right);
          ZipUp(mem, root, lower, path[1..]);
          assert path[1..][1..] == rest;
          RotateRight(grandParent, lower.left, x.key, x.red, x.right, g.red, g.sibling, rest);
          a, n, c, q, onRight := lower.left, x.key, x.red, Node(x.right, g.key, g.red, g.sibling), true;
        } else {
          RotateRight(grandParent, x, p.key, p.red, p.sibling, g.red, g.sibling, rest);
          a, n, c, q, onRight := x, p.key, p.red, Node(p.sibling, g.key, g.red, g.sibling), true;
        }
      } else {
        if newNode < parent {
          ZipUp(mem, root, x, path);
          RotateRight(parent, x.left, x.key, x.red, x.right, p.red, p.sibling, path[1..]);
          ghost var lower := Node(x.left, x.key, x.red, Node(x.right, p.key, p.red, p.sibling));
          ZipUp(mem, root, lower, path[1..]);
          assert path[1..][1..] == rest;
          RotateLeft(grandParent, g.sibling, g.red, x.left, x.key, x.red, lower.right, rest);
          a, n, c, q, onRight := lower.right, x.key, x.red, Node(g.sibling, g.key, g.red, x.left), false;
        } else {
          RotateLeft(grandParent, g.sibling, g.red, p.sibling, p.key, p.red, x, rest);
          a, n, c, q, onRight := x, p.key, p.red, Node(g.sibling, g.key, g.red, p.sibling), false;
        }
      }
      top := SwapColours(grandParent, a, n, c, q, onRight, rest);
    }

    method SwapColours(grandParent: nat, ghost a: Tree, ghost n: nat, ghost c: bool, ghost q: Tree, ghost onRight: bool, ghost rest: Path)
      returns (top: nat)
      requires q.Node? && q.key == grandParent && Zip(mem, root, if onRight then Node(a, n, c, q) else Node(q, n, c, a), rest)
      modifies this`mem
      ensures top == n && mem.Keys == old(mem).Keys
      ensures var q' := q.(red := c);
              Zip(mem, root, if onRight then Node(a, n, q.red, q') else Node(q', n, q.red, a), rest)
    {
      hide Rep, RepPath, Unique, UniquePath, Keys;
      ghost var m0 := mem;
      ghost var t := if onRight then Node(a, n, c, q) else Node(q, n, c, a);
      ghost var q' := q.(red := c);
      ghost var t' := if onRight then Node(a, n, q.red, q') else Node(q', n, q.red, a);
      SwapRep(mem, a, n, c, q, onRight, ParentOf(rest));
      var gCol := mem[grandParent].red;
      top := mem[grandParent].parent.key;
      mem := mem[grandParent := mem[grandParent].(red := mem[top].red)];
      mem := mem[top := mem[top].(red := gCol)];
      ZipInside(m0, mem, root, t, t', rest);
    }

    /** rbInsert. */
    method Insert(newNode: nat)
      requires Valid() && newNode !in Keys(tree)
      modifies this
      ensures Valid() && tree == RbModel.Insert(old(tree), newNode)
    {
      hide Rep, RepPath, Unique, UniquePath, Ordered, Keys, FixUp, Descend;
      ghost var t0, t' := tree, RbModel.Insert(tree, newNode);
      InsertedKeys(tree, newNode);
      if root == Null {
        RootLeaf(mem, root, tree);
        mem := mem[newNode := Cell(Null, Null, Null, false)];
        root := At(newNode);
        tree := t';
        SingleZip(mem, root, newNode);
        return;
      }
      RootLeaf(mem, root, tree);
      ghost var x, path := Node(Leaf, newNode, true, Leaf), [];
      path := BstInsert(newNode);
      StartClimb(t0, newNode, path);
      var cur := newNode;
      ZipAbove(mem, root, x, path);
      var parent := mem[cur].parent;
      while true
        invariant Zip(mem, root, x, path) && x.Node? && cur == x.key && parent == ParentOf(path)
        invariant TopBlack(path) && FixUp(x, path) == t' && Ordered(Plug(x, path))
        invariant mem.Keys == old(mem).Keys + {newNode}
        decreases |path|
      {
        ZipAbove(mem, root, x, path);
        if parent == Null {
          Blacken(mem, root, x);
          mem := mem[cur := mem[cur].(red := false)];
          root := At(cur);
          tree := t';
          return;
        }
        if !mem[parent.key].red {
          ZipPlug(mem, root, x, path);
          FixUpStop(x, path);
          tree := t';
          return;
        }
        FixUpStep(x, path);
        ReadAbove(mem, root, x, path);
        Sides(x, path);
        var p := parent.key;
        var grandParent := mem[p].parent.key;
        var uncle := if p < grandParent then mem[grandParent].right else mem[grandParent].left;
        ghost var f, g, rest := path[0], path[1], path[2..];
        if uncle.At? && mem[uncle.key].red {
          RecolourStep(p, uncle.key, grandParent, x, path);
          RecolourInorder(x, f, g);
          StepOrdered(x, path, Recolour(x, f, g));
          x, path := Recolour(x, f, g), rest;
          cur := grandParent;
        } else {
          cur := RotateStep(cur, p, grandParent, x, path);
          RotateInorder(x, f, g);
          StepOrdered(x, path, Rotate(x, f, g));
          x, path := Rotate(x, f, g), rest;
        }
        ZipAbove(mem, root, x, path);
        parent := mem[cur].parent;
      }
    }
  }

  /** Any run of insertions of distinct keys on nodes: the structure is the tree of the model,
      and a search finds exactly the keys inserted. */
  method InsertAll(keys: seq<nat>) returns (r: RbRoot)
    requires RbModel.Distinct(keys)
    ensures r.Valid() && r.tree == RbModel.InsertAll(Leaf, keys)
    ensures forall k: nat :: k in r.mem <==> k in keys
  {
    r := new RbRoot();
    for i := 0 to |keys|
      invariant fresh(r) && r.Valid() && r.tree == RbModel.InsertAll(Leaf, keys[..i])
    {
      NotYet(keys, i);
      assert keys[..i + 1][..i] == keys[..i];
      r.Insert(keys[i]);
    }
    assert keys[..|keys|] == keys;
    InsertAllOrdered(keys);
    KeysInorder(r.tree);
  }

  lemma NotYet(keys: seq<nat>, i: nat)
    requires RbModel.Distinct(keys) && i < |keys|
    ensures keys[i] !in Keys(RbModel.InsertAll(Leaf, keys[..i]))
  {
    InsertAllOrdered(keys[..i]);
    KeysInorder(RbModel.InsertAll(Leaf, keys[..i]));
  }
}

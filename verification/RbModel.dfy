/**
 Red-black insertion on trees.

 A position in a tree is a subtree together with the path from it up to the root; the
 fix-up loop of the code climbs that path two levels at a time.
 */
module RbModel {
  import opened Sequences

  datatype Tree = Leaf | Node(left: Tree, key: nat, red: bool, right: Tree)

  /** One step of a path: the node above, its colour, whether the position is its left
      child, and its other child. */
  datatype Frame = Frame(key: nat, red: bool, isLeft: bool, sibling: Tree)

  type Path = seq<Frame>

  predicate IsRed(t: Tree) {
    t.Node? && t.red
  }

  function Up(x: Tree, f: Frame): Tree {
    if f.isLeft then Node(x, f.key, f.red, f.sibling) else Node(f.sibling, f.key, f.red, x)
  }

  function Plug(x: Tree, path: Path): Tree
    decreases |path|
  {
    if path == [] then x else Plug(Up(x, path[0]), path[1..])
  }

  // ----- The code, on trees -----

  /** The path from the place where key belongs up to the root of t, given the path above t. */
  function Descend(t: Tree, key: nat, path: Path): Path {
    match t
    case Leaf => path
    case Node(l, k, red, r) =>
      if key < k then Descend(l, key, [Frame(k, red, true, r)] + path)
      else Descend(r, key, [Frame(k, red, false, l)] + path)
  }

  /** Parent, uncle and grandparent change colour. */
  function Recolour(x: Tree, p: Frame, g: Frame): Tree
    requires g.sibling.Node?
  {
    Up(Up(x, p.(red := false)), Frame(g.key, true, g.isLeft, g.sibling.(red := false)))
  }

  /** One or two rotations bring parent or x to the place of the grandparent, and the
      colours of the two are exchanged. */
  function Rotate(x: Tree, p: Frame, g: Frame): Tree
    requires x.Node?
  {
    if p.isLeft == g.isLeft then
      // outer: parent goes up
      if g.isLeft then Node(x, p.key, g.red, Node(p.sibling, g.key, p.red, g.sibling))
      else Node(Node(g.sibling, g.key, p.red, p.sibling), p.key, g.red, x)
    else
      // inner: x goes up
      if g.isLeft then Node(Node(p.sibling, p.key, p.red, x.left), x.key, g.red, Node(x.right, g.key, x.red, g.sibling))
      else Node(Node(g.sibling, g.key, x.red, x.left), x.key, g.red, Node(x.right, p.key, p.red, p.sibling))
  }

  /** The loop needs a grandparent below every red parent. */
  predicate TopBlack(path: Path) {
    path != [] ==> !path[|path| - 1].red
  }

  function FixUp(x: Tree, path: Path): (t: Tree)
    requires x.Node? && TopBlack(path)
    decreases |path|
  {
    if path == [] then x.(red := false)
    else if !path[0].red then Plug(x, path)
    else
      var p, g := path[0], path[1];
      if IsRed(g.sibling) then FixUp(Recolour(x, p, g), path[2..])
      else FixUp(Rotate(x, p, g), path[2..])
  }

  function Insert(t: Tree, key: nat): (t': Tree)
    requires !IsRed(t)
    ensures !IsRed(t')
  {
    if t == Leaf then Node(Leaf, key, false, Leaf)
    else
      DescendTop(t, key, []);
      FixUpBlack(Node(Leaf, key, true, Leaf), Descend(t, key, []));
      FixUp(Node(Leaf, key, true, Leaf), Descend(t, key, []))
  }

  lemma {:induction false} DescendTop(t: Tree, key: nat, path: Path)
    requires if path == [] then !IsRed(t) else !path[|path| - 1].red
    ensures TopBlack(Descend(t, key, path))
  {
    match t
    case Leaf =>
    case Node(l, k, red, r) =>
      DescendTop(l, key, [Frame(k, red, true, r)] + path);
      DescendTop(r, key, [Frame(k, red, false, l)] + path);
  }

  function Search(t: Tree, key: nat): Tree {
    match t
    case Leaf => Leaf
    case Node(l, k, red, r) => if key == k then t else if key < k then Search(l, key) else Search(r, key)
  }

  // ----- Keys in order -----

  function Inorder(t: Tree): seq<nat> {
    match t
    case Leaf => []
    case Node(l, k, _, r) => Inorder(l) + [k] + Inorder(r)
  }

  /** The keys to the left and to the right of a position. */
  function Before(path: Path): seq<nat> {
    if path == [] then []
    else Before(path[1..]) + if path[0].isLeft then [] else Inorder(path[0].sibling) + [path[0].key]
  }

  function After(path: Path): seq<nat> {
    if path == [] then []
    else (if path[0].isLeft then [path[0].key] + Inorder(path[0].sibling) else []) + After(path[1..])
  }

  lemma UpInorder(x: Tree, f: Frame)
    ensures Inorder(Up(x, f)) ==
            if f.isLeft then Inorder(x) + ([f.key] + Inorder(f.sibling)) else (Inorder(f.sibling) + [f.key]) + Inorder(x)
  {
  }

  lemma Regroup(a: seq<nat>, b: seq<nat>, c: seq<nat>, d: seq<nat>)
    ensures a + (b + c) + d == a + b + (c + d) == (a + b) + c + d
  {
  }

  lemma {:induction false} PlugInorder(x: Tree, path: Path)
    ensures Inorder(Plug(x, path)) == Before(path) + Inorder(x) + After(path)
    decreases |path|
  {
    hide Inorder, Up;
    if path != [] {
      var f, rest := path[0], path[1..];
      UpInorder(x, f);
      PlugInorder(Up(x, f), rest);
      if f.isLeft {
        Regroup(Before(rest), Inorder(x), [f.key] + Inorder(f.sibling), After(rest));
        assert Before(path) == Before(rest);
      } else {
        Regroup(Before(rest), Inorder(f.sibling) + [f.key], Inorder(x), After(rest));
        assert After(path) == After(rest);
      }
    }
  }

  lemma RecolourInorder(x: Tree, p: Frame, g: Frame)
    requires g.sibling.Node?
    ensures Inorder(Recolour(x, p, g)) == Inorder(Up(Up(x, p), g))
  {
  }

  lemma RotateInorder(x: Tree, p: Frame, g: Frame)
    requires x.Node?
    ensures Inorder(Rotate(x, p, g)) == Inorder(Up(Up(x, p), g))
  {
    if p.isLeft == g.isLeft {
      if g.isLeft {
        OneRotation(x, p.key, p.red, p.sibling, g.key, g.red, g.sibling, g.red, p.red);
      } else {
        OneRotation(g.sibling, g.key, p.red, p.sibling, p.key, g.red, x, g.red, p.red);
      }
    } else if g.isLeft {
      OneRotation(p.sibling, p.key, p.red, x.left, x.key, x.red, x.right, p.red, x.red);
      var lower := Node(Node(p.sibling, p.key, p.red, x.left), x.key, x.red, x.right);
      assert Inorder(lower) == Inorder(Up(x, p));
      OneRotation(lower.left, x.key, x.red, x.right, g.key, g.red, g.sibling, g.red, x.red);
    } else {
      OneRotation(x.left, x.key, x.red, x.right, p.key, p.red, p.sibling, x.red, p.red);
      var lower := Node(x.left, x.key, x.red, Node(x.right, p.key, p.red, p.sibling));
      assert Inorder(lower) == Inorder(Up(x, p));
      OneRotation(g.sibling, g.key, x.red, x.left, x.key, g.red, lower.right, g.red, x.red);
    }
  }

  lemma OneRotation(a: Tree, k: nat, c: bool, b: Tree, m: nat, d: bool, e: Tree, c': bool, d': bool)
    ensures Inorder(Node(Node(a, k, c, b), m, d, e)) == Inorder(Node(a, k, c', Node(b, m, d', e)))
  {
    var x, y, z := Inorder(a), Inorder(b), Inorder(e);
    assert x + [k] + y + [m] + z == x + [k] + (y + [m] + z);
  }

  /** Fixing up moves no key. */
  lemma {:induction false} FixUpInorder(x: Tree, path: Path)
    requires x.Node? && TopBlack(path)
    ensures Inorder(FixUp(x, path)) == Inorder(Plug(x, path))
    decreases |path|
  {
    if path != [] && path[0].red {
      var p, g, rest := path[0], path[1], path[2..];
      assert Plug(x, path) == Plug(Up(Up(x, p), g), rest) by { assert path[1..][1..] == rest; }
      PlugInorder(Up(Up(x, p), g), rest);
      if IsRed(g.sibling) {
        RecolourInorder(x, p, g);
        FixUpInorder(Recolour(x, p, g), rest);
        PlugInorder(Recolour(x, p, g), rest);
      } else {
        RotateInorder(x, p, g);
        FixUpInorder(Rotate(x, p, g), rest);
        PlugInorder(Rotate(x, p, g), rest);
      }
    }
  }

  ghost predicate AllBelow(s: seq<nat>, k: nat) {
    forall x :: x in s ==> x < k
  }

  ghost predicate AllAbove(s: seq<nat>, k: nat) {
    forall x :: x in s ==> k < x
  }

  lemma IncreasingParts(a: seq<nat>, k: nat, b: seq<nat>)
    requires Increasing(a + [k] + b)
    ensures Increasing(a) && Increasing(b) && AllBelow(a, k) && AllAbove(b, k)
  {
    var s := a + [k] + b;
    assert s[|a|] == k;
    forall x | x in a ensures x < k {
      var i :| 0 <= i < |a| && a[i] == x;
      assert s[i] == x;
    }
    forall x | x in b ensures k < x {
      var i :| 0 <= i < |b| && b[i] == x;
      assert s[|a| + 1 + i] == x;
    }
    assert forall i :: 0 <= i < |a| ==> s[i] == a[i];
    assert forall i :: 0 <= i < |b| ==> s[|a| + 1 + i] == b[i];
  }

  lemma IncreasingJoin(a: seq<nat>, k: nat, b: seq<nat>)
    requires Increasing(a) && Increasing(b) && AllBelow(a, k) && AllAbove(b, k)
    ensures Increasing(a + [k] + b)
  {
    assert forall i :: 0 <= i < |a| ==> a[i] in a;
    assert forall i :: 0 <= i < |b| ==> b[i] in b;
  }

  ghost predicate Ordered(t: Tree) {
    Increasing(Inorder(t))
  }

  lemma {:induction false} DescendPlug(t: Tree, key: nat, path: Path)
    ensures Plug(Leaf, Descend(t, key, path)) == Plug(t, path)
    decreases t
  {
    match t
    case Leaf =>
    case Node(l, k, red, r) =>
      var up, up' := [Frame(k, red, true, r)] + path, [Frame(k, red, false, l)] + path;
      assert up[1..] == path && up'[1..] == path;
      DescendPlug(l, key, up);
      DescendPlug(r, key, up');
  }

  lemma BelowJoin(a: seq<nat>, b: seq<nat>, k: nat)
    ensures AllBelow(a + b, k) <==> AllBelow(a, k) && AllBelow(b, k)
    ensures AllAbove(a + b, k) <==> AllAbove(a, k) && AllAbove(b, k)
  {
    assert forall x :: x in a || x in b <==> x in a + b;
  }

  /** The place found for a key has the smaller keys on its left and the larger on its right. */
  lemma {:induction false} DescendPlace(t: Tree, key: nat, path: Path)
    requires Ordered(t) && key !in Inorder(t) && AllBelow(Before(path), key) && AllAbove(After(path), key)
    ensures var place := Descend(t, key, path);
            AllBelow(Before(place), key) && AllAbove(After(place), key)
    decreases t
  {
    match t
    case Leaf =>
    case Node(l, k, red, r) =>
      IncreasingParts(Inorder(l), k, Inorder(r));
      assert key != k && key !in Inorder(l) && key !in Inorder(r);
      if key < k {
        var path' := [Frame(k, red, true, r)] + path;
        assert path'[1..] == path;
        BelowJoin([k], Inorder(r), key);
        BelowJoin([k] + Inorder(r), After(path), key);
        assert Before(path') == Before(path);
        DescendPlace(l, key, path');
      } else {
        var path' := [Frame(k, red, false, l)] + path;
        assert path'[1..] == path;
        BelowJoin(Inorder(l), [k], key);
        BelowJoin(Before(path), Inorder(l) + [k], key);
        assert After(path') == After(path);
        DescendPlace(r, key, path');
      }
  }

  /** Insertion adds the key and keeps the search order. */
  lemma {:induction false} InsertOrdered(t: Tree, key: nat)
    requires Ordered(t) && key !in Inorder(t) && !IsRed(t)
    ensures Ordered(Insert(t, key))
    ensures forall x :: x in Inorder(Insert(t, key)) <==> x in Inorder(t) || x == key
  {
    if t != Leaf {
      hide Increasing, AllBelow, AllAbove, Plug, Before, After, FixUp, Descend, TopBlack;
      var x, path := Node(Leaf, key, true, Leaf), Descend(t, key, []);
      DescendTop(t, key, []);
      DescendPlace(t, key, []);
      DescendPlug(t, key, []);
      PlugInorder(Leaf, path);
      FixUpInorder(x, path);
      PlugInorder(x, path);
      InsertedSequence(Before(path), key, After(path), Inorder(t), Inorder(Insert(t, key)));
    }
  }

  lemma InsertedSequence(a: seq<nat>, k: nat, b: seq<nat>, s: seq<nat>, s': seq<nat>)
    requires a + [] + b == s && s' == a + [k] + b && Increasing(s) && AllBelow(a, k) && AllAbove(b, k)
    ensures Increasing(s') && forall x :: x in s' <==> x in s || x == k
  {
    assert forall i :: 0 <= i < |a| ==> s[i] == a[i];
    assert forall i :: 0 <= i < |b| ==> s[|a| + i] == b[i];
    IncreasingJoin(a, k, b);
  }

  lemma {:induction false} PlugTop(x: Tree, path: Path)
    requires path != []
    ensures Plug(x, path).Node? && Plug(x, path).red == path[|path| - 1].red
    decreases |path|
  {
    if |path| > 1 {
      PlugTop(Up(x, path[0]), path[1..]);
    }
  }

  lemma {:induction false} FixUpBlack(x: Tree, path: Path)
    requires x.Node? && TopBlack(path)
    ensures FixUp(x, path).Node? && !FixUp(x, path).red
    decreases |path|
  {
    if path != [] {
      if !path[0].red {
        PlugTop(x, path);
      } else {
        var p, g := path[0], path[1];
        if IsRed(g.sibling) { FixUpBlack(Recolour(x, p, g), path[2..]); } else { FixUpBlack(Rotate(x, p, g), path[2..]); }
      }
    }
  }

  /** A search finds exactly the keys of the tree. */
  lemma {:induction false} SearchFinds(t: Tree, key: nat)
    requires Ordered(t)
    ensures Search(t, key) != Leaf <==> key in Inorder(t)
    ensures Search(t, key) != Leaf ==> Search(t, key).key == key
  {
    match t
    case Leaf =>
    case Node(l, k, red, r) =>
      IncreasingParts(Inorder(l), k, Inorder(r));
      SearchFinds(l, key);
      SearchFinds(r, key);
      assert key in Inorder(t) <==> key in Inorder(l) || key == k || key in Inorder(r);
  }

  // ----- Colours -----

  /** 1 if key and colour are those of the node. */
  function Counted(node: (nat, bool), key: nat, red: bool): nat {
    if node == (key, red) then 1 else 0
  }

  /** The number of nodes of a key and colour. */
  function Count(t: Tree, key: nat, red: bool): nat {
    match t
    case Leaf => 0
    case Node(l, k, c, r) => Count(l, key, red) + Counted((k, c), key, red) + Count(r, key, red)
  }

  function Reds(t: Tree): nat {
    match t
    case Leaf => 0
    case Node(l, _, red, r) => Reds(l) + Reds(r) + if red then 1 else 0
  }

  /** The node that a rotation lifts. */
  function Lifted(x: Tree, p: Frame, g: Frame): (nat, bool)
    requires x.Node?
  {
    if p.isLeft == g.isLeft then (p.key, p.red) else (x.key, x.red)
  }

  /** A rotation exchanges the colours of the node it lifts and of the grandparent, and no
      other node changes colour. */
  lemma RotateExchanges(x: Tree, p: Frame, g: Frame, key: nat, red: bool)
    requires x.Node?
    ensures var (top, c) := Lifted(x, p, g);
            && Rotate(x, p, g).key == top
            && Count(Rotate(x, p, g), key, red) + Counted((top, c), key, red) + Counted((g.key, g.red), key, red) ==
               Count(Up(Up(x, p), g), key, red) + Counted((top, g.red), key, red) + Counted((g.key, c), key, red)
  {
    hide Counted;
    UpCount(x, p, key, red);
    UpCount(Up(x, p), g, key, red);
  }

  lemma UpCount(x: Tree, f: Frame, key: nat, red: bool)
    ensures Count(Up(x, f), key, red) == Count(x, key, red) + Counted((f.key, f.red), key, red) + Count(f.sibling, key, red)
    ensures Reds(Up(x, f)) == Reds(x) + Reds(f.sibling) + if f.red then 1 else 0
  {
  }

  /** It keeps the number of red nodes. */
  lemma RotateReds(x: Tree, p: Frame, g: Frame)
    requires x.Node?
    ensures Reds(Rotate(x, p, g)) == Reds(Up(Up(x, p), g))
  {
    UpCount(x, p, 0, true);
    UpCount(Up(x, p), g, 0, true);
  }

  /** Recolouring turns parent and uncle black and the grandparent red, and no other node
      changes colour. */
  lemma RecolourExchanges(x: Tree, p: Frame, g: Frame, key: nat, red: bool)
    requires p.red && !g.red && IsRed(g.sibling)
    ensures var u := g.sibling.key;
            Count(Recolour(x, p, g), key, red) + Counted((p.key, true), key, red) + Counted((u, true), key, red) + Counted((g.key, false), key, red) ==
            Count(Up(Up(x, p), g), key, red) + Counted((p.key, false), key, red) + Counted((u, false), key, red) + Counted((g.key, true), key, red)
  {
    hide Counted;
  }

  // ----- Balance -----

  /** Black nodes on every way down, or -1 when the ways disagree. */
  function BlackHeight(t: Tree): int {
    match t
    case Leaf => 0
    case Node(l, _, red, r) =>
      if BlackHeight(l) == BlackHeight(r) && BlackHeight(l) >= 0 then BlackHeight(l) + (if red then 0 else 1) else -1
  }

  predicate NoRedRed(t: Tree) {
    t.Node? ==> (t.red ==> !IsRed(t.left) && !IsRed(t.right)) && NoRedRed(t.left) && NoRedRed(t.right)
  }

  predicate RedBlack(t: Tree) {
    BlackHeight(t) >= 0 && NoRedRed(t) && !IsRed(t)
  }

  /** Around a position of black height h, the tree is red-black. */
  predicate PathOk(path: Path, h: int) {
    path != [] ==>
      var f := path[0];
      && BlackHeight(f.sibling) == h && NoRedRed(f.sibling)
      && (f.red ==> !IsRed(f.sibling) && |path| > 1 && !path[1].red)
      && PathOk(path[1..], h + if f.red then 0 else 1)
  }

  /** The climb from the new key, in terms of the original path only: it goes wrong when
      an inner rotation is due while the node to be lifted is black, which can only be after
      an earlier rotation. */
  predicate Safe(path: Path, red: bool)
    requires TopBlack(path)
    decreases |path|
  {
    if path == [] || !path[0].red then true
    else if IsRed(path[1].sibling) then Safe(path[2..], true)
    else (red || path[0].isLeft == path[1].isLeft) && Safe(path[2..], false)
  }

  lemma {:induction false} DescendOk(t: Tree, key: nat, path: Path)
    requires BlackHeight(t) >= 0 && NoRedRed(t) && PathOk(path, BlackHeight(t)) && (path == [] ==> !IsRed(t))
    requires path != [] && path[0].red ==> !IsRed(t)
    ensures PathOk(Descend(t, key, path), 0)
    decreases t
  {
    match t
    case Leaf =>
    case Node(l, k, red, r) =>
      var up, up' := [Frame(k, red, true, r)] + path, [Frame(k, red, false, l)] + path;
      assert up[1..] == path && up'[1..] == path;
      DescendOk(l, key, up);
      DescendOk(r, key, up');
  }

  /** x fits its place, except that x and its parent may both be red. */
  predicate Fits(x: Tree, path: Path) {
    x.Node? && BlackHeight(x) >= 0 && NoRedRed(x) && PathOk(path, BlackHeight(x)) && TopBlack(path)
  }

  lemma {:induction false} PlugGood(x: Tree, path: Path)
    requires Fits(x, path) && path != [] && (path[0].red ==> !x.red)
    ensures RedBlack(Plug(x, path))
    decreases |path|
  {
    var y := Up(x, path[0]);
    assert BlackHeight(y) == BlackHeight(x) + if path[0].red then 0 else 1;
    if |path| > 1 {
      PlugGood(y, path[1..]);
    }
  }

  /** Recolouring keeps the black height and moves a possible conflict two levels up. */
  lemma RecolourFits(x: Tree, path: Path)
    requires Fits(x, path) && path != [] && path[0].red && IsRed(path[1].sibling)
    ensures Fits(Recolour(x, path[0], path[1]), path[2..]) && Recolour(x, path[0], path[1]).red
  {
    var p, g := TwoUp(x, path);
    var parent, uncle := Up(x, p.(red := false)), g.sibling.(red := false);
    assert BlackHeight(parent) == BlackHeight(x) + 1 == BlackHeight(uncle);
    assert NoRedRed(parent) && NoRedRed(uncle);
  }

  /** What a red parent implies about the two levels above a position. */
  lemma TwoUp(x: Tree, path: Path) returns (p: Frame, g: Frame)
    requires Fits(x, path) && path != [] && path[0].red
    ensures |path| > 1 && p == path[0] && g == path[1] && !g.red && !IsRed(p.sibling)
    ensures NoRedRed(p.sibling) && NoRedRed(g.sibling)
    ensures BlackHeight(p.sibling) == BlackHeight(g.sibling) == BlackHeight(x)
    ensures PathOk(path[2..], BlackHeight(x) + 1) && TopBlack(path[2..])
  {
    p, g := path[0], path[1];
    var h, rest := BlackHeight(x), path[1..];
    assert PathOk(path, h) && PathOk(rest, h);
    assert rest[1..] == path[2..] && rest[0] == g;
  }

  /** A rotation removes the conflict, unless it lifts a black node from inside. */
  lemma RotateFits(x: Tree, path: Path)
    requires Fits(x, path) && path != [] && path[0].red && !IsRed(path[1].sibling)
    requires x.red || path[0].isLeft == path[1].isLeft
    ensures Fits(Rotate(x, path[0], path[1]), path[2..]) && !Rotate(x, path[0], path[1]).red
  {
    var p, g := TwoUp(x, path);
    var y := Rotate(x, p, g);
    assert BlackHeight(y.left) == BlackHeight(y.right) == BlackHeight(x);
    assert NoRedRed(y.left) && NoRedRed(y.right);
  }

  ghost predicate Uneven(x: Tree) {
    x.Node? && (BlackHeight(x.left) < 0 || BlackHeight(x.right) < 0)
  }

  lemma RotateBreaks(x: Tree, path: Path)
    requires Fits(x, path) && path != [] && path[0].red && !IsRed(path[1].sibling)
    requires !x.red && path[0].isLeft != path[1].isLeft
    ensures Uneven(Rotate(x, path[0], path[1]))
  {
    var p, g := TwoUp(x, path);
  }

  lemma {:induction false} PlugUneven(x: Tree, path: Path)
    requires BlackHeight(x) < 0
    ensures BlackHeight(Plug(x, path)) < 0
    decreases |path|
  {
    if path != [] {
      PlugUneven(Up(x, path[0]), path[1..]);
    }
  }

  /** No later step repairs uneven black heights. */
  lemma {:induction false} UnevenStays(x: Tree, path: Path)
    requires Uneven(x) && TopBlack(path)
    ensures BlackHeight(FixUp(x, path)) < 0
    decreases |path|
  {
    if path != [] {
      if !path[0].red {
        PlugUneven(x, path);
      } else {
        var p, g := path[0], path[1];
        if IsRed(g.sibling) { UnevenStays(Recolour(x, p, g), path[2..]); } else { UnevenStays(Rotate(x, p, g), path[2..]); }
      }
    }
  }

  lemma {:induction false} FixUpIff(x: Tree, path: Path)
    requires Fits(x, path)
    ensures RedBlack(FixUp(x, path)) <==> Safe(path, x.red)
    decreases |path|
  {
    if path != [] {
      var p := path[0];
      if !p.red {
        PlugGood(x, path);
      } else {
        var g := path[1];
        if IsRed(g.sibling) {
          RecolourFits(x, path);
          FixUpIff(Recolour(x, p, g), path[2..]);
        } else if x.red || p.isLeft == g.isLeft {
          RotateFits(x, path);
          FixUpIff(Rotate(x, p, g), path[2..]);
        } else {
          RotateBreaks(x, path);
          UnevenStays(Rotate(x, p, g), path[2..]);
        }
      }
    }
  }

  /** Insertion into a red-black tree gives a red-black tree exactly when the climb is safe. */
  lemma {:induction false} InsertIff(t: Tree, key: nat)
    requires RedBlack(t)
    ensures TopBlack(Descend(t, key, []))
    ensures RedBlack(Insert(t, key)) <==> Safe(Descend(t, key, []), true)
  {
    DescendTop(t, key, []);
    DescendOk(t, key, []);
    if t != Leaf {
      FixUpIff(Node(Leaf, key, true, Leaf), Descend(t, key, []));
    }
  }

  /** In particular, while the climb only recolours, or its one rotation ends at the root or
      below a black node, the result is red-black. */
  lemma {:induction false} OneRotationSafe(path: Path, n: nat)
    requires TopBlack(path) && 2 * n <= |path|
    requires forall i :: 0 <= i < n ==> path[2 * i].red && IsRed(path[2 * i + 1].sibling)
    requires 2 * n == |path| || !path[2 * n].red || 2 * n + 2 == |path| || !path[2 * n + 2].red
    ensures Safe(path, true)
    decreases n
  {
    if n > 0 {
      var rest := path[2..];
      assert path[2 * 0].red && IsRed(path[2 * 0 + 1].sibling);
      forall i | 0 <= i < n - 1 ensures rest[2 * i].red && IsRed(rest[2 * i + 1].sibling) {
        assert path[2 * (i + 1)].red && IsRed(path[2 * (i + 1) + 1].sibling);
      }
      OneRotationSafe(rest, n - 1);
    }
  }

  function InsertAll(t: Tree, keys: seq<nat>): (t': Tree)
    requires !IsRed(t)
    ensures !IsRed(t')
  {
    if keys == [] then t else Insert(InsertAll(t, keys[..|keys| - 1]), keys[|keys| - 1])
  }

  ghost predicate Distinct(keys: seq<nat>) {
    forall i, j :: 0 <= i < j < |keys| ==> keys[i] != keys[j]
  }

  /** Any run of insertions of distinct keys: search order, black root, exactly those keys. */
  lemma {:induction false} InsertAllOrdered(keys: seq<nat>)
    requires Distinct(keys)
    ensures var t := InsertAll(Leaf, keys);
            Ordered(t) && !IsRed(t) && forall x :: x in Inorder(t) <==> x in keys
  {
    if keys != [] {
      var n := |keys| - 1;
      InsertAllOrdered(keys[..n]);
      assert keys == keys[..n] + [keys[n]];
      InsertOrdered(InsertAll(Leaf, keys[..n]), keys[n]);
    }
  }

  /** The tree that six insertions build. */
  function SixKeys(): Tree {
    Node(Node(Node(Leaf, 2, false, Leaf), 4, true, Node(Leaf, 6, false, Node(Leaf, 8, true, Leaf))),
         10, false, Node(Leaf, 12, false, Leaf))
  }

  lemma BuildThreeKeys()
    ensures InsertAll(Leaf, [10, 4, 12]) == Node(Node(Leaf, 4, true, Leaf), 10, false, Node(Leaf, 12, true, Leaf))
  {
    assert InsertAll(Leaf, [10]) == Node(Leaf, 10, false, Leaf);
    assert [10, 4][..1] == [10];
    assert InsertAll(Leaf, [10, 4]) == Node(Node(Leaf, 4, true, Leaf), 10, false, Leaf);
    assert [10, 4, 12][..2] == [10, 4];
  }

  lemma FourthKey()
    ensures InsertAll(Leaf, [10, 4, 12, 2]) ==
              Node(Node(Node(Leaf, 2, true, Leaf), 4, false, Leaf), 10, false, Node(Leaf, 12, false, Leaf))
  {
    BuildThreeKeys();
    assert [10, 4, 12, 2][..3] == [10, 4, 12];
    var t := Node(Node(Leaf, 4, true, Leaf), 10, false, Node(Leaf, 12, true, Leaf));
    var top := [Frame(10, false, true, t.right)];
    var path := [Frame(4, true, true, Leaf)] + top;
    assert Descend(t, 2, []) == Descend(t.left, 2, top) by { assert top + [] == top; }
    assert Descend(t.left, 2, top) == Descend(Leaf, 2, path) == path;
    assert path[2..] == [];
    assert FixUp(Node(Leaf, 2, true, Leaf), path) == FixUp(Recolour(Node(Leaf, 2, true, Leaf), path[0], path[1]), []);
  }

  lemma FifthKey()
    ensures InsertAll(Leaf, [10, 4, 12, 2, 6]) ==
              Node(Node(Node(Leaf, 2, true, Leaf), 4, false, Node(Leaf, 6, true, Leaf)), 10, false, Node(Leaf, 12, false, Leaf))
  {
    FourthKey();
    assert [10, 4, 12, 2, 6][..4] == [10, 4, 12, 2];
    var t := Node(Node(Node(Leaf, 2, true, Leaf), 4, false, Leaf), 10, false, Node(Leaf, 12, false, Leaf));
    var top := [Frame(10, false, true, t.right)];
    var path := [Frame(4, false, false, t.left.left)] + top;
    assert Descend(t, 6, []) == Descend(t.left, 6, top) by { assert top + [] == top; }
    assert Descend(t.left, 6, top) == Descend(Leaf, 6, path) == path;
    var x := Node(Leaf, 6, true, Leaf);
    assert path[1..] == top && top[1..] == [];
    assert Plug(x, path) == Plug(Up(x, path[0]), top) == Up(Up(x, path[0]), top[0]);
  }

  lemma BuildSixKeys()
    ensures InsertAll(Leaf, [10, 4, 12, 2, 6, 8]) == SixKeys()
  {
    FifthKey();
    assert [10, 4, 12, 2, 6, 8][..5] == [10, 4, 12, 2, 6];
    var t := Node(Node(Node(Leaf, 2, true, Leaf), 4, false, Node(Leaf, 6, true, Leaf)), 10, false, Node(Leaf, 12, false, Leaf));
    var top := [Frame(10, false, true, t.right)];
    var mid := [Frame(4, false, false, t.left.left)] + top;
    var path := [Frame(6, true, false, Leaf)] + mid;
    assert Descend(t, 8, []) == Descend(t.left, 8, top) by { assert top + [] == top; }
    assert Descend(t.left, 8, top) == Descend(t.left.right, 8, mid) == path;
    var x := Node(Leaf, 8, true, Leaf);
    assert path[2..] == top && top[1..] == [];
    var y := Recolour(x, path[0], path[1]);
    assert FixUp(x, path) == FixUp(y, top) == Plug(y, top) == Up(y, top[0]);
  }

  /** Seven insertions suffice to lose the balance. */
  lemma BalanceLost()
    ensures RedBlack(InsertAll(Leaf, [10, 4, 12, 2, 6, 8]))
    ensures !RedBlack(InsertAll(Leaf, [10, 4, 12, 2, 6, 8, 9]))
  {
    BuildSixKeys();
    var t := SixKeys();
    assert [10, 4, 12, 2, 6, 8, 9][..6] == [10, 4, 12, 2, 6, 8];
    var top := [Frame(10, false, true, t.right)];
    var mid := [Frame(4, true, false, t.left.left)] + top;
    var low := [Frame(6, false, false, Leaf)] + mid;
    var path := [Frame(8, true, false, Leaf)] + low;
    assert Descend(t, 9, []) == Descend(t.left, 9, top) by { assert top + [] == top; }
    assert Descend(t.left, 9, top) == Descend(t.left.right, 9, mid) == Descend(t.left.right.right, 9, low) == path;
    InsertIff(t, 9);
    assert !Safe(path[2..], false);
    assert !Safe(path, true);
  }
}

/**
 * The 256 binary search trees of the compressor, as the values of its link arrays.
 *
 * A node is a ring position 0..N-1; tree c hangs off the right link of the pseudo node N+1+c.
 * `sub[x]` is a ghost companion of the arrays: the set of nodes in the subtree of x.  Every
 * condition of the invariant `Ordered` speaks of one node and its neighbours, so that a change
 * of a few links is checked node by node.
 */
module LzssForest {
  import opened LzssConstants

  datatype Forest = Forest(l: seq<int>, r: seq<int>, p: seq<int>, sub: seq<set<int>>) {
    ghost predicate Shape() {
      |l| == N + 1 && |r| == N + 257 && |p| == N && |sub| == N
    }

    /** A position is in some tree exactly when it has a parent. */
    ghost predicate Live(x: int)
      requires Shape()
    {
      0 <= x < N && p[x] != NIL
    }

    ghost function Below(x: int): set<int>
      requires Shape()
    {
      if 0 <= x < N then sub[x] else {}
    }

    ghost function Nodes(): set<int>
      requires Shape()
    {
      set x | 0 <= x < N && Live(x)
    }
  }

  /** An update that a write to the scratch cell NIL leaves alone. */
  ghost function Put(s: seq<int>, i: int, v: int): (t: seq<int>)
    requires |s| == N && 0 <= i <= N
    ensures |t| == N && forall k | 0 <= k < N :: t[k] == if k == i then v else s[k]
  {
    if i < N then s[i := v] else s
  }

  predicate IsRoot(x: int) {
    N < x <= N + 256
  }

  ghost predicate ChildOk(f: Forest, x: int, c: int)
    requires f.Shape()
  {
    c == NIL || (f.Live(c) && f.p[c] == x)
  }

  ghost predicate ChildrenOk(f: Forest, key: seq<int>, x: int)
    requires f.Shape() && f.Live(x) && |key| == N
  {
    && ChildOk(f, x, f.l[x])
    && ChildOk(f, x, f.r[x])
    && f.sub[x] == {x} + f.Below(f.l[x]) + f.Below(f.r[x])
    && (forall y <- f.Below(f.l[x]) :: f.Live(y) && key[y] < key[x])
    && (forall y <- f.Below(f.r[x]) :: f.Live(y) && key[x] < key[y])
  }

  ghost predicate ParentOk(f: Forest, x: int)
    requires f.Shape() && f.Live(x)
  {
    var a := f.p[x];
    if IsRoot(a) then f.r[a] == x else f.Live(a) && (f.l[a] == x || f.r[a] == x)
  }

  ghost predicate RootOk(f: Forest, home: seq<int>, c: int)
    requires f.Shape() && IsRoot(c) && |home| == N
  {
    && ChildOk(f, c, f.r[c])
    && (forall y <- f.Below(f.r[c]) :: f.Live(y) && home[y] == c)
  }

  ghost predicate AtHome(f: Forest, home: seq<int>, x: int)
    requires f.Shape() && f.Live(x) && |home| == N
  {
    IsRoot(home[x]) && x in f.Below(f.r[home[x]])
  }

  /**
   * The forest invariant: 256 disjoint acyclic trees with mutually inverse links, each node in
   * the tree of its own first byte, and each tree strictly ordered by key.
   */
  ghost predicate Ordered(f: Forest, key: seq<int>, home: seq<int>) {
    && f.Shape() && |key| == N && |home| == N
    && (forall x {:trigger ChildrenOk(f, key, x)} | f.Live(x) :: ChildrenOk(f, key, x))
    && (forall x {:trigger ParentOk(f, x)} | f.Live(x) :: ParentOk(f, x))
    && (forall x {:trigger AtHome(f, home, x)} | f.Live(x) :: AtHome(f, home, x))
    && (forall c {:trigger RootOk(f, home, c)} | IsRoot(c) :: RootOk(f, home, c))
  }

  /** The links of d are indices the arrays have, and the left array is not asked for a root. */
  ghost predicate Linkable(f: Forest, d: int)
    requires f.Shape()
  {
    0 <= d < N && 0 <= f.l[d] <= N && 0 <= f.r[d] <= N && 0 <= f.p[d] < N + 257 && (f.r[f.p[d]] != d ==> f.p[d] < N)
  }

  lemma LiveIsLinkable(f: Forest, key: seq<int>, home: seq<int>, d: int)
    requires Ordered(f, key, home) && f.Live(d)
    ensures Linkable(f, d)
    ensures f.r[f.p[d]] != d ==> f.l[f.p[d]] == d
  {
    assert ChildrenOk(f, key, d) && ParentOk(f, d);
  }

  /** Only the links, keys and homes of live nodes, and the links of the roots, count. */
  lemma OnlyLiveCounts(f: Forest, g: Forest, key: seq<int>, home: seq<int>, key': seq<int>, home': seq<int>)
    requires Ordered(f, key, home) && g.Shape() && |key'| == N && |home'| == N
    requires g.p == f.p && g.sub == f.sub
    requires forall x | f.Live(x) :: g.l[x] == f.l[x] && g.r[x] == f.r[x]
    requires forall x | f.Live(x) :: key'[x] == key[x] && home'[x] == home[x]
    requires forall c | IsRoot(c) :: g.r[c] == f.r[c]
    ensures Ordered(g, key', home') && g.Nodes() == f.Nodes()
  {
    forall x {:trigger ChildrenOk(g, key', x)} | g.Live(x) ensures ChildrenOk(g, key', x) {
      assert ChildrenOk(f, key, x);
    }
    forall x {:trigger ParentOk(g, x)} | g.Live(x) ensures ParentOk(g, x) {
      assert ParentOk(f, x);
    }
    forall c {:trigger RootOk(g, home', c)} | IsRoot(c) ensures RootOk(g, home', c) {
      assert RootOk(f, home, c);
    }
    forall x {:trigger AtHome(g, home', x)} | g.Live(x) ensures AtHome(g, home', x) {
      assert AtHome(f, home, x);
    }
  }

  /** With no parents and no roots there are no nodes, and nothing is out of order. */
  lemma EmptyForest(f: Forest, key: seq<int>, home: seq<int>)
    requires f.Shape() && |key| == N && |home| == N
    requires forall x | 0 <= x < N :: f.p[x] == NIL
    requires forall c | IsRoot(c) :: f.r[c] == NIL
    ensures Ordered(f, key, home) && f.Nodes() == {}
  {
  }

  /** An empty forest is ordered by any keys. */
  lemma AnyLabels(f: Forest, key: seq<int>, home: seq<int>, key': seq<int>, home': seq<int>)
    requires Ordered(f, key, home) && f.Nodes() == {} && |key'| == N && |home'| == N
    ensures Ordered(f, key', home')
  {
    assert forall x | f.Live(x) :: x in f.Nodes();
    OnlyLiveCounts(f, f, key, home, key', home');
  }

  // ---------- climbing and descending ----------

  /** The parent of a node of a subtree, other than its top, is in the subtree. */
  lemma {:induction false} ParentInside(f: Forest, key: seq<int>, home: seq<int>, x: int, c: int)
    requires Ordered(f, key, home) && f.Live(x) && c in f.sub[x] && c != x
    ensures f.Live(c) && f.Live(f.p[c]) && f.p[c] in f.sub[x]
    decreases f.sub[x]
  {
    assert ChildrenOk(f, key, x);
    var d := if c in f.Below(f.l[x]) then f.l[x] else f.r[x];
    if c != d {
      assert x !in f.sub[d];
      ParentInside(f, key, home, d, c);
    }
  }

  // ---------- hanging a new leaf ----------

  /** x becomes a child of a, on the right or on the left. */
  ghost function Attach(f: Forest, x: int, a: int, right: bool): Forest
    requires f.Shape() && 0 <= x < N && (0 <= a < N || (right && IsRoot(a)))
  {
    Forest(
      if right then f.l[x := NIL] else f.l[x := NIL][a := x],
      if right then f.r[x := NIL][a := x] else f.r[x := NIL],
      f.p[x := a],
      seq(N, b requires 0 <= b < N =>
        if b == x then {x} else if a in f.sub[b] then f.sub[b] + {x} else f.sub[b]))
  }

  /** The place a below b is on the side of b where the key k belongs. */
  ghost predicate Straddles(f: Forest, key: seq<int>, b: int, a: int, k: int)
    requires f.Shape() && |key| == N && f.Live(b)
  {
    (a in f.Below(f.l[b]) ==> k < key[b]) && (a in f.Below(f.r[b]) ==> key[b] < k)
  }

  /** A search for the key k comes through a: every node above a sends it to the side of a. */
  ghost predicate OnPath(f: Forest, key: seq<int>, k: int, a: int)
    requires f.Shape() && |key| == N
  {
    forall b {:trigger Straddles(f, key, b, a, k)} | f.Live(b) && b != a && a in f.sub[b] :: Straddles(f, key, b, a, k)
  }

  /** The key k belongs at the free link of a. */
  ghost predicate Fits(f: Forest, key: seq<int>, k: int, a: int, right: bool)
    requires f.Shape() && |key| == N
  {
    && OnPath(f, key, k, a)
    && (if IsRoot(a) then right && f.r[a] == NIL
        else f.Live(a) && (if right then f.r[a] == NIL && key[a] < k else f.l[a] == NIL && k < key[a]))
  }

  /** Every search starts at its root. */
  lemma RootOnPath(f: Forest, key: seq<int>, home: seq<int>, k: int, c: int)
    requires Ordered(f, key, home) && IsRoot(c)
    ensures OnPath(f, key, k, c)
  {
    forall b {:trigger Straddles(f, key, b, c, k)} | f.Live(b) && b != c && c in f.sub[b]
      ensures Straddles(f, key, b, c, k)
    {
      assert ChildrenOk(f, key, b);
    }
  }

  /** One step of a search: from a to its child m on the side of k. */
  lemma PathStep(f: Forest, key: seq<int>, home: seq<int>, k: int, a: int, m: int)
    requires Ordered(f, key, home) && OnPath(f, key, k, a)
    requires if IsRoot(a) then m == f.r[a]
      else f.Live(a) && (if key[a] < k then m == f.r[a] else k < key[a] && m == f.l[a])
    requires m != NIL
    ensures f.Live(m) && OnPath(f, key, k, m)
  {
    if IsRoot(a) { assert RootOk(f, home, a); } else { assert ChildrenOk(f, key, a); }
    assert f.p[m] == a;
    forall b {:trigger Straddles(f, key, b, m, k)} | f.Live(b) && b != m && m in f.sub[b]
      ensures Straddles(f, key, b, m, k)
    {
      ParentInside(f, key, home, b, m);
      assert ChildrenOk(f, key, b) && ChildrenOk(f, key, m);
      if b != a {
        assert Straddles(f, key, b, a, k);
        if m in f.Below(f.l[b]) { ParentInside(f, key, home, f.l[b], m); }
        if m in f.Below(f.r[b]) { ParentInside(f, key, home, f.r[b], m); }
      }
    }
  }

  /** What Attach may assume: x is free, and its key belongs at the link of a. */
  ghost predicate CanAttach(f: Forest, key: seq<int>, home: seq<int>, x: int, a: int, right: bool) {
    && Ordered(f, key, home)
    && 0 <= x < N && !f.Live(x) && IsRoot(home[x])
    && Fits(f, key, key[x], a, right)
    && (a == home[x] || a in f.Below(f.r[home[x]]))
  }

  lemma AttachChildren(f: Forest, key: seq<int>, home: seq<int>, x: int, a: int, right: bool, y: int)
    requires CanAttach(f, key, home, x, a, right) && f.Live(y)
    ensures ChildrenOk(Attach(f, x, a, right), key, y)
  {
    var g := Attach(f, x, a, right);
    assert ChildrenOk(f, key, y);
    if y != a && a in f.sub[y] { assert Straddles(f, key, y, a, key[x]); }
    assert forall z | f.Live(z) :: g.Live(z);
    var m, n := f.l[y], f.r[y];
    assert y != a ==> g.l[y] == m && g.r[y] == n;
    assert m != NIL ==> f.Live(m) && m != x && f.p[m] == y;
    assert n != NIL ==> f.Live(n) && n != x && f.p[n] == y;
    assert g.Below(m) == if a in f.Below(m) then f.Below(m) + {x} else f.Below(m);
    assert g.Below(n) == if a in f.Below(n) then f.Below(n) + {x} else f.Below(n);
  }

  lemma AttachParent(f: Forest, key: seq<int>, home: seq<int>, x: int, a: int, right: bool, y: int)
    requires CanAttach(f, key, home, x, a, right) && Attach(f, x, a, right).Live(y)
    ensures ParentOk(Attach(f, x, a, right), y)
  {
    if y != x { assert ParentOk(f, y); }
  }

  lemma AttachRoot(f: Forest, key: seq<int>, home: seq<int>, x: int, a: int, right: bool, c: int)
    requires CanAttach(f, key, home, x, a, right) && IsRoot(c)
    ensures RootOk(Attach(f, x, a, right), home, c)
    ensures home[x] == c ==> x in Attach(f, x, a, right).Below(Attach(f, x, a, right).r[c])
    ensures forall y | y in f.Below(f.r[c]) :: y in Attach(f, x, a, right).Below(Attach(f, x, a, right).r[c])
  {
    assert RootOk(f, home, c);
    assert RootOk(f, home, home[x]);
    var g := Attach(f, x, a, right);
    assert forall z | f.Live(z) :: g.Live(z);
    if c != a { assert g.r[c] == f.r[c]; }
  }

  /** Hanging a free node where its key fits keeps the forest ordered and adds exactly that node. */
  lemma AttachKeepsOrder(f: Forest, key: seq<int>, home: seq<int>, x: int, a: int, right: bool)
    requires CanAttach(f, key, home, x, a, right)
    ensures Ordered(Attach(f, x, a, right), key, home)
    ensures Attach(f, x, a, right).Nodes() == f.Nodes() + {x}
  {
    var g := Attach(f, x, a, right);
    assert forall y | 0 <= y < N :: g.Live(y) <==> f.Live(y) || y == x;
    forall y {:trigger ChildrenOk(g, key, y)} | g.Live(y) ensures ChildrenOk(g, key, y) {
      if y != x { AttachChildren(f, key, home, x, a, right, y); }
    }
    forall y {:trigger ParentOk(g, y)} | g.Live(y) ensures ParentOk(g, y) {
      AttachParent(f, key, home, x, a, right, y);
    }
    forall c {:trigger RootOk(g, home, c)} | IsRoot(c) ensures RootOk(g, home, c) {
      AttachRoot(f, key, home, x, a, right, c);
    }
    forall y {:trigger AtHome(g, home, y)} | g.Live(y) ensures AtHome(g, home, y) {
      if y != x { assert AtHome(f, home, y); }
      AttachRoot(f, key, home, x, a, right, home[y]);
    }
  }

  // ---------- taking over another node ----------

  /** x takes the place of the live node d, links and all; d leaves the forest. */
  ghost function Replace(f: Forest, x: int, d: int): Forest
    requires f.Shape() && 0 <= x < N && Linkable(f, d)
  {
    var a := f.p[d];
    var l1, r1 := f.l[x := f.l[d]], f.r[x := f.r[d]];
    Forest(
      if f.r[a] == d then l1 else l1[a := x],
      if f.r[a] == d then r1[a := x] else r1,
      Put(Put(f.p[x := a], f.l[d], x), f.r[d], x)[d := NIL],
      seq(N, b requires 0 <= b < N =>
        if b == x then f.sub[d] - {d} + {x} else if d in f.sub[b] then f.sub[b] - {d} + {x} else f.sub[b]))
  }

  ghost predicate CanReplace(f: Forest, key: seq<int>, home: seq<int>, x: int, d: int) {
    && Ordered(f, key, home)
    && 0 <= x < N && !f.Live(x) && f.Live(d) && Linkable(f, d)
    && home[x] == home[d] && IsRoot(home[x])
    && (forall y <- f.Below(f.l[d]) :: f.Live(y) && key[y] < key[x])
    && (forall y <- f.Below(f.r[d]) :: f.Live(y) && key[x] < key[y])
    && OnPath(f, key, key[x], d)
  }

  lemma ReplaceDefined(f: Forest, key: seq<int>, home: seq<int>, x: int, d: int)
    requires CanReplace(f, key, home, x, d)
    ensures forall b | 0 <= b < N :: Replace(f, x, d).Live(b) <==> (b == x || (b != d && f.Live(b)))
  {
    assert ChildrenOk(f, key, d) && ParentOk(f, d);
  }

  /** The links of a node of the new forest, read off the node o it stands for. */
  lemma ReplaceLinks(f: Forest, key: seq<int>, home: seq<int>, x: int, d: int, y: int)
    requires CanReplace(f, key, home, x, d) && (y == x || (f.Live(y) && y != d))
    ensures var g, o := Replace(f, x, d), if y == x then d else y;
      && g.l[y] == (if f.l[o] == d then x else f.l[o])
      && g.r[y] == (if f.r[o] == d then x else f.r[o])
  {
    assert ChildrenOk(f, key, d) && ParentOk(f, d);
    if y != x { assert ChildrenOk(f, key, y); }
    var o := if y == x then d else y;
    assert f.l[d] != d && f.r[d] != d;
    if f.l[o] == d { assert f.p[d] == o && f.r[o] != d; }
  }

  lemma ReplaceChild(f: Forest, key: seq<int>, home: seq<int>, x: int, d: int, y: int, m: int)
    requires CanReplace(f, key, home, x, d) && (y == x || (f.Live(y) && y != d))
    requires var o := if y == x then d else y; m == f.l[o] || m == f.r[o]
    ensures var g, n := Replace(f, x, d), if m == d then x else m;
      && ChildOk(g, y, n)
      && g.Below(n) == (if d in f.Below(m) then f.Below(m) - {d} + {x} else f.Below(m))
  {
    ReplaceDefined(f, key, home, x, d);
    assert ChildrenOk(f, key, d);
    var o := if y == x then d else y;
    assert ChildrenOk(f, key, o) && ChildOk(f, o, m);
    if m != NIL && m != d {
      assert m != x && f.Live(m) && f.p[m] == o;
      assert Replace(f, x, d).p[m] == y;
    }
  }

  lemma ReplaceSelf(f: Forest, key: seq<int>, home: seq<int>, x: int, d: int)
    requires CanReplace(f, key, home, x, d)
    ensures var g := Replace(f, x, d); g.Live(x) && ChildrenOk(g, key, x)
  {
    var g := Replace(f, x, d);
    ReplaceDefined(f, key, home, x, d);
    assert ChildrenOk(f, key, d);
    ReplaceLinks(f, key, home, x, d, x);
    ReplaceChild(f, key, home, x, d, x, f.l[d]);
    ReplaceChild(f, key, home, x, d, x, f.r[d]);
    assert d !in f.Below(f.l[d]) && d !in f.Below(f.r[d]);
  }

  lemma ReplaceChildren(f: Forest, key: seq<int>, home: seq<int>, x: int, d: int, y: int)
    requires CanReplace(f, key, home, x, d) && f.Live(y) && y != d
    ensures var g := Replace(f, x, d); g.Live(y) && ChildrenOk(g, key, y)
  {
    var g := Replace(f, x, d);
    ReplaceDefined(f, key, home, x, d);
    assert ChildrenOk(f, key, y);
    ReplaceLinks(f, key, home, x, d, y);
    ReplaceChild(f, key, home, x, d, y, f.l[y]);
    ReplaceChild(f, key, home, x, d, y, f.r[y]);
    if d in f.sub[y] { assert Straddles(f, key, y, d, key[x]); }
  }

  lemma ReplaceParent(f: Forest, key: seq<int>, home: seq<int>, x: int, d: int, y: int)
    requires CanReplace(f, key, home, x, d) && (y == x || (f.Live(y) && y != d))
    ensures var g := Replace(f, x, d); g.Live(y) && ParentOk(g, y)
  {
    var g := Replace(f, x, d);
    ReplaceDefined(f, key, home, x, d);
    assert ChildrenOk(f, key, d) && ParentOk(f, d);
    if y != x {
      assert ParentOk(f, y);
      if !IsRoot(f.p[y]) { assert ChildrenOk(f, key, f.p[y]); }
    }
    if f.l[d] != NIL { assert ChildrenOk(f, key, f.l[d]); }
  }

  lemma ReplaceRoot(f: Forest, key: seq<int>, home: seq<int>, x: int, d: int, c: int)
    requires CanReplace(f, key, home, x, d) && IsRoot(c)
    ensures var g := Replace(f, x, d);
      && RootOk(g, home, c)
      && (forall y | y in f.Below(f.r[c]) && y != d :: y in g.Below(g.r[c]))
      && (home[x] == c ==> x in g.Below(g.r[c]))
  {
    var g := Replace(f, x, d);
    ReplaceDefined(f, key, home, x, d);
    assert ChildrenOk(f, key, d) && ParentOk(f, d) && AtHome(f, home, d);
    assert RootOk(f, home, c) && RootOk(f, home, home[d]);
    assert g.r[c] == if f.r[c] == d then x else f.r[c];
    var m := f.r[c];
    if m != NIL && m != d {
      assert m != x && f.Live(m) && f.p[m] == c;
      assert g.p[m] == c;
    }
  }

  /** Taking over the place of a node keeps the forest ordered: it adds x and drops exactly d. */
  lemma ReplaceKeepsOrder(f: Forest, key: seq<int>, home: seq<int>, x: int, d: int)
    requires CanReplace(f, key, home, x, d)
    ensures Ordered(Replace(f, x, d), key, home)
    ensures Replace(f, x, d).Nodes() == f.Nodes() - {d} + {x}
  {
    var g := Replace(f, x, d);
    ReplaceDefined(f, key, home, x, d);
    forall y {:trigger ChildrenOk(g, key, y)} | g.Live(y) ensures ChildrenOk(g, key, y) {
      if y == x {
        ReplaceSelf(f, key, home, x, d);
      } else {
        ReplaceChildren(f, key, home, x, d, y);
      }
    }
    forall y {:trigger ParentOk(g, y)} | g.Live(y) ensures ParentOk(g, y) {
      ReplaceParent(f, key, home, x, d, y);
    }
    forall c {:trigger RootOk(g, home, c)} | IsRoot(c) ensures RootOk(g, home, c) {
      ReplaceRoot(f, key, home, x, d, c);
    }
    forall y {:trigger AtHome(g, home, y)} | g.Live(y) ensures AtHome(g, home, y) {
      if y != x { assert AtHome(f, home, y); }
      ReplaceRoot(f, key, home, x, d, home[y]);
    }
  }

  /** A free position may take over a node of equal key. */
  lemma EqualKeyFits(f: Forest, key: seq<int>, home: seq<int>, x: int, d: int)
    requires Ordered(f, key, home) && 0 <= x < N && !f.Live(x) && f.Live(d)
    requires key[x] == key[d] && home[x] == home[d]
    ensures CanReplace(f, key, home, x, d)
  {
    LiveIsLinkable(f, key, home, d);
    assert ChildrenOk(f, key, d) && AtHome(f, home, d);
    forall b {:trigger Straddles(f, key, b, d, key[x])} | f.Live(b) && b != d && d in f.sub[b]
      ensures Straddles(f, key, b, d, key[x])
    {
      assert ChildrenOk(f, key, b);
    }
  }

  // ---------- splicing out a node with a free link ----------

  /** The node d, one link of which is free, gives its place to its other child. */
  ghost function Splice(f: Forest, d: int): Forest
    requires f.Shape() && Linkable(f, d) && (f.l[d] == NIL || f.r[d] == NIL)
  {
    var a := f.p[d];
    var q := if f.r[d] == NIL then f.l[d] else f.r[d];
    Forest(
      if f.r[a] == d then f.l else f.l[a := q],
      if f.r[a] == d then f.r[a := q] else f.r,
      Put(f.p, q, a)[d := NIL],
      seq(N, b requires 0 <= b < N => f.sub[b] - {d}))
  }

  ghost predicate CanSplice(f: Forest, key: seq<int>, home: seq<int>, d: int) {
    Ordered(f, key, home) && f.Live(d) && Linkable(f, d) && (f.l[d] == NIL || f.r[d] == NIL)
  }

  lemma SpliceDefined(f: Forest, key: seq<int>, home: seq<int>, d: int)
    requires CanSplice(f, key, home, d)
    ensures forall b | 0 <= b < N :: Splice(f, d).Live(b) <==> (b != d && f.Live(b))
  {
    assert ChildrenOk(f, key, d) && ParentOk(f, d);
  }

  /** The links of another node, with the child of d in the place of d. */
  lemma SpliceLinks(f: Forest, key: seq<int>, home: seq<int>, d: int, y: int)
    requires CanSplice(f, key, home, d) && f.Live(y) && y != d
    ensures var g, q := Splice(f, d), if f.r[d] == NIL then f.l[d] else f.r[d];
      && g.l[y] == (if f.l[y] == d then q else f.l[y])
      && g.r[y] == (if f.r[y] == d then q else f.r[y])
  {
    assert ChildrenOk(f, key, d) && ParentOk(f, d) && ChildrenOk(f, key, y);
    if f.l[y] == d { assert f.p[d] == y && f.r[y] != d; }
  }

  lemma SpliceChild(f: Forest, key: seq<int>, home: seq<int>, d: int, y: int, m: int)
    requires CanSplice(f, key, home, d) && (IsRoot(y) || (f.Live(y) && y != d))
    requires m == NIL || (f.Live(m) && f.p[m] == y)
    ensures var g, n := Splice(f, d), if m == d then (if f.r[d] == NIL then f.l[d] else f.r[d]) else m;
      && ChildOk(g, y, n)
      && g.Below(n) == f.Below(m) - {d}
  {
    SpliceDefined(f, key, home, d);
    assert ChildrenOk(f, key, d);
    if m != NIL && m != d {
      assert Splice(f, d).p[m] == y;
    }
  }

  lemma SpliceChildren(f: Forest, key: seq<int>, home: seq<int>, d: int, y: int)
    requires CanSplice(f, key, home, d) && f.Live(y) && y != d
    ensures var g := Splice(f, d); g.Live(y) && ChildrenOk(g, key, y)
  {
    SpliceDefined(f, key, home, d);
    assert ChildrenOk(f, key, y);
    SpliceLinks(f, key, home, d, y);
    SpliceChild(f, key, home, d, y, f.l[y]);
    SpliceChild(f, key, home, d, y, f.r[y]);
  }

  lemma SpliceParent(f: Forest, key: seq<int>, home: seq<int>, d: int, y: int)
    requires CanSplice(f, key, home, d) && f.Live(y) && y != d
    ensures var g := Splice(f, d); g.Live(y) && ParentOk(g, y)
  {
    SpliceDefined(f, key, home, d);
    assert ChildrenOk(f, key, d) && ParentOk(f, d) && ParentOk(f, y);
    if !IsRoot(f.p[y]) { assert ChildrenOk(f, key, f.p[y]); }
    var q := if f.r[d] == NIL then f.l[d] else f.r[d];
    if y == q {
      assert f.p[y] == d && Splice(f, d).p[y] == f.p[d];
    } else {
      assert Splice(f, d).p[y] == f.p[y] && f.p[y] != d;
    }
  }

  lemma SpliceRoot(f: Forest, key: seq<int>, home: seq<int>, d: int, c: int)
    requires CanSplice(f, key, home, d) && IsRoot(c)
    ensures var g := Splice(f, d);
      && RootOk(g, home, c)
      && (forall y | y in f.Below(f.r[c]) && y != d :: y in g.Below(g.r[c]))
  {
    SpliceDefined(f, key, home, d);
    assert ParentOk(f, d) && RootOk(f, home, c);
    SpliceChild(f, key, home, d, c, f.r[c]);
  }

  /** Splicing keeps the forest ordered and removes exactly d. */
  lemma SpliceKeepsOrder(f: Forest, key: seq<int>, home: seq<int>, d: int)
    requires CanSplice(f, key, home, d)
    ensures Ordered(Splice(f, d), key, home)
    ensures Splice(f, d).Nodes() == f.Nodes() - {d}
  {
    var g := Splice(f, d);
    SpliceDefined(f, key, home, d);
    forall y {:trigger ChildrenOk(g, key, y)} | g.Live(y) ensures ChildrenOk(g, key, y) {
      SpliceChildren(f, key, home, d, y);
    }
    forall y {:trigger ParentOk(g, y)} | g.Live(y) ensures ParentOk(g, y) {
      SpliceParent(f, key, home, d, y);
    }
    forall c {:trigger RootOk(g, home, c)} | IsRoot(c) ensures RootOk(g, home, c) {
      SpliceRoot(f, key, home, d, c);
    }
    forall y {:trigger AtHome(g, home, y)} | g.Live(y) ensures AtHome(g, home, y) {
      assert AtHome(f, home, y);
      SpliceRoot(f, key, home, d, home[y]);
    }
  }

  // ---------- removing a node with two children ----------

  /** A subtree of a subtree is inside it. */
  lemma {:induction false} SubtreeInside(f: Forest, key: seq<int>, home: seq<int>, x: int, c: int)
    requires Ordered(f, key, home) && f.Live(x) && c in f.sub[x]
    ensures f.Live(c) && f.sub[c] <= f.sub[x]
    decreases f.sub[x]
  {
    assert ChildrenOk(f, key, x);
    if c != x {
      var d := if c in f.Below(f.l[x]) then f.l[x] else f.r[x];
      assert x !in f.sub[d];
      SubtreeInside(f, key, home, d, c);
    }
  }

  /** q is the last node of the left subtree of d. */
  ghost predicate Predecessor(f: Forest, key: seq<int>, d: int, q: int)
    requires f.Shape() && |key| == N && f.Live(d) && 0 <= f.l[d] <= N
  {
    && f.Live(q) && q in f.Below(f.l[d]) && f.r[q] == NIL
    && (forall y <- f.Below(f.l[d]) :: y == q || (0 <= y < N && key[y] < key[q]))
  }

  /** Once spliced out, the predecessor q may stand where d stands. */
  lemma PredecessorFits(f: Forest, key: seq<int>, home: seq<int>, d: int, q: int)
    requires Ordered(f, key, home) && f.Live(d) && Linkable(f, d)
    requires f.l[d] != NIL && f.r[d] != NIL && Predecessor(f, key, d, q)
    ensures CanSplice(f, key, home, q) && CanReplace(Splice(f, q), key, home, q, d)
  {
    LiveIsLinkable(f, key, home, q);
    var g := Splice(f, q);
    SpliceKeepsOrder(f, key, home, q);
    SpliceDefined(f, key, home, q);
    assert ChildrenOk(f, key, d);
    LiveIsLinkable(g, key, home, d);
    SpliceLinks(f, key, home, q, d);
    SpliceChild(f, key, home, q, d, f.l[d]);
    SpliceChild(f, key, home, q, d, f.r[d]);
    HomesAgree(f, key, home, d, q);
    forall b {:trigger Straddles(g, key, b, d, key[q])} | g.Live(b) && b != d && d in g.sub[b]
      ensures Straddles(g, key, b, d, key[q])
    {
      assert ChildrenOk(f, key, b);
      SpliceLinks(f, key, home, q, b);
      SpliceChild(f, key, home, q, b, f.l[b]);
      SpliceChild(f, key, home, q, b, f.r[b]);
      if d in f.Below(f.l[b]) { SubtreeInside(f, key, home, f.l[b], d); }
      if d in f.Below(f.r[b]) { SubtreeInside(f, key, home, f.r[b], d); }
    }
  }

  /** A whole subtree hangs in one tree. */
  lemma HomesAgree(f: Forest, key: seq<int>, home: seq<int>, x: int, c: int)
    requires Ordered(f, key, home) && f.Live(x) && c in f.sub[x]
    ensures f.Live(c) && home[c] == home[x] && IsRoot(home[x])
  {
    assert AtHome(f, home, x) && RootOk(f, home, home[x]);
    SubtreeInside(f, key, home, f.r[home[x]], x);
    SubtreeInside(f, key, home, x, c);
  }

  ghost predicate TwoChildren(f: Forest, d: int)
    requires f.Shape() && 0 <= d < N
  {
    f.l[d] != NIL && f.r[d] != NIL
  }

  /** The parent of b after d has been removed and q has moved. */
  ghost function NewParent(f: Forest, d: int, q: int, b: int): int
    requires f.Shape() && Linkable(f, d) && 0 <= b < N && (TwoChildren(f, d) ==> Linkable(f, q))
  {
    if b == d then NIL
    else if b == q then f.p[d]
    else if TwoChildren(f, d) && (b == f.r[d] || (q != f.l[d] && b == f.l[d])) then q
    else if TwoChildren(f, d) && q != f.l[d] && b == f.l[q] then f.p[q]
    else f.p[b]
  }

  ghost function NewLeft(f: Forest, d: int, q: int, b: int): int
    requires f.Shape() && Linkable(f, d) && 0 <= b < N
  {
    if b == f.p[d] && f.r[b] != d then q
    else if TwoChildren(f, d) && b == q && q != f.l[d] then f.l[d]
    else f.l[b]
  }

  ghost function NewRight(f: Forest, d: int, q: int, b: int): int
    requires f.Shape() && Linkable(f, d) && 0 <= b < N + 257 && (TwoChildren(f, d) ==> Linkable(f, q))
  {
    if b == f.p[d] && f.r[b] == d then q
    else if TwoChildren(f, d) && b == q then f.r[d]
    else if TwoChildren(f, d) && q != f.l[d] && b == f.p[q] then f.l[q]
    else f.r[b]
  }

  /** h is f after DeleteNode has removed d, which q replaces. */
  ghost predicate Unlinked(f: Forest, h: Forest, d: int, q: int)
    requires f.Shape() && Linkable(f, d) && (TwoChildren(f, d) ==> Linkable(f, q))
  {
    && h.Shape()
    && (forall b | 0 <= b < N :: h.p[b] == NewParent(f, d, q, b))
    && (forall b | f.Live(b) && b != d :: h.l[b] == NewLeft(f, d, q, b) && h.r[b] == NewRight(f, d, q, b))
    && (forall c | IsRoot(c) :: h.r[c] == NewRight(f, d, q, c))
  }

  ghost predicate CanUnlink(f: Forest, key: seq<int>, home: seq<int>, d: int, q: int) {
    && Ordered(f, key, home) && f.Live(d) && Linkable(f, d)
    && (if TwoChildren(f, d) then Predecessor(f, key, d, q) && Linkable(f, q)
        else q == if f.r[d] == NIL then f.l[d] else f.r[d])
  }

  /** The subtrees after the removal. */
  ghost function NewSub(f: Forest, d: int, q: int): seq<set<int>>
    requires f.Shape() && 0 <= d < N
  {
    if TwoChildren(f, d) then
      seq(N, b requires 0 <= b < N =>
        if b == q then f.sub[d] - {q} - {d} + {q}
        else if d in f.sub[b] - {q} then f.sub[b] - {q} - {d} + {q}
        else f.sub[b] - {q})
    else
      seq(N, b requires 0 <= b < N => f.sub[b] - {d})
  }

  /** The cells of the arrays after the last step: a, the parent of d, and q are linked, d is freed. */
  ghost predicate Relinked(l: seq<int>, r: seq<int>, p: seq<int>, l': seq<int>, r': seq<int>, p': seq<int>, d: int,
                           q: int)
    requires |l| == N + 1 && |r| == N + 257 && |p| == N + 1 && 0 <= d < N && 0 <= q <= N
    requires 0 <= p[d] < N + 257 && (r[p[d]] != d ==> p[d] < N)
  {
    && p' == p[q := p[d]][d := NIL]
    && (if r[p[d]] == d then r' == r[p[d] := q] && l' == l else l' == l[p[d] := q] && r' == r)
  }

  /** The arrays after PullUp. */
  ghost predicate PulledUp(l: seq<int>, r: seq<int>, p: seq<int>, l': seq<int>, r': seq<int>, p': seq<int>, d: int,
                           q: int)
    requires |l| == N + 1 && |r| == N + 257 && |p| == N + 1 && 0 <= d < N && 0 <= q < N
    requires 0 <= l[d] <= N && 0 <= r[d] <= N && 0 <= l[q] <= N && 0 <= p[q] <= N
  {
    if q == l[d] then
      l' == l && r' == r[q := r[d]] && p' == p[r[d] := q]
    else
      && l' == l[q := l[d]]
      && r' == r[p[q] := l[q]][q := r[d]]
      && p' == p[l[q] := p[q]][l[d] := q][r[d] := q]
  }

  /** The arrays l1, r1, p1 just before d is unlinked, p being the parent array of f with its scratch cell. */
  ghost predicate Prepared(f: Forest, key: seq<int>, home: seq<int>, d: int, q: int,
                           p: seq<int>, l1: seq<int>, r1: seq<int>, p1: seq<int>)
  {
    && CanUnlink(f, key, home, d, q) && |p| == N + 1 && f.p == p[..N]
    && (if TwoChildren(f, d) then
          && 0 <= f.p[q] < N && (q == f.l[d] || (f.p[q] != d && f.r[f.p[q]] == q))
          && PulledUp(f.l, f.r, p, l1, r1, p1, d, q)
        else l1 == f.l && r1 == f.r && p1 == p)
  }

  /** Unlinking d stays inside the arrays: a root is never looked up on the left. */
  lemma PreparedDefined(f: Forest, key: seq<int>, home: seq<int>, d: int, q: int,
                        p: seq<int>, l1: seq<int>, r1: seq<int>, p1: seq<int>)
    requires Prepared(f, key, home, d, q, p, l1, r1, p1)
    ensures |l1| == N + 1 && |r1| == N + 257 && |p1| == N + 1 && 0 <= q <= N && q != d
    ensures 0 <= p1[d] < N + 257 && (r1[p1[d]] != d ==> p1[d] < N)
  {
    assert ChildrenOk(f, key, d) && ParentOk(f, d);
    if TwoChildren(f, d) { assert ChildrenOk(f, key, q) && ParentOk(f, q); }
  }

  lemma RelinkOuter(f: Forest, key: seq<int>, home: seq<int>, d: int, q: int,
                    p: seq<int>, h: Forest, p': seq<int>)
    requires Prepared(f, key, home, d, q, p, f.l, f.r, p) && !TwoChildren(f, d)
    requires |h.sub| == N && |p'| == N + 1 && h.p == p'[..N]
    requires Relinked(f.l, f.r, p, h.l, h.r, p', d, q)
    ensures Unlinked(f, h, d, q)
  {
    assert ChildrenOk(f, key, d) && ParentOk(f, d);
  }

  /** h are the cells after the last step, for a node with two children. */
  ghost predicate LastStep(f: Forest, key: seq<int>, home: seq<int>, d: int, q: int,
                           p: seq<int>, l1: seq<int>, r1: seq<int>, p1: seq<int>, h: Forest, p': seq<int>)
  {
    && Prepared(f, key, home, d, q, p, l1, r1, p1) && TwoChildren(f, d)
    && |h.sub| == N && |p'| == N + 1 && h.p == p'[..N]
    && |l1| == N + 1 && |r1| == N + 257 && |p1| == N + 1
    && 0 <= p1[d] < N + 257 && (r1[p1[d]] != d ==> p1[d] < N)
    && Relinked(l1, r1, p1, h.l, h.r, p', d, q)
  }

  lemma RelinkInner(f: Forest, key: seq<int>, home: seq<int>, d: int, q: int,
                    p: seq<int>, l1: seq<int>, r1: seq<int>, p1: seq<int>, h: Forest, p': seq<int>)
    requires LastStep(f, key, home, d, q, p, l1, r1, p1, h, p')
    ensures Unlinked(f, h, d, q)
  {
    hide PulledUp, Relinked, NewParent, NewLeft, NewRight;
    RelinkShape(f, key, home, d, q, p, l1, r1, p1, h, p');
    if q == f.l[d] {
      RelinkNear(f, key, home, d, q, p, l1, r1, p1, h, p');
    } else {
      RelinkFarParents(f, key, home, d, q, p, l1, r1, p1, h, p');
      RelinkFarLinks(f, key, home, d, q, p, l1, r1, p1, h, p');
    }
  }

  lemma RelinkShape(f: Forest, key: seq<int>, home: seq<int>, d: int, q: int,
                    p: seq<int>, l1: seq<int>, r1: seq<int>, p1: seq<int>, h: Forest, p': seq<int>)
    requires LastStep(f, key, home, d, q, p, l1, r1, p1, h, p')
    ensures h.Shape()
  {
  }

  lemma RelinkNear(f: Forest, key: seq<int>, home: seq<int>, d: int, q: int,
                   p: seq<int>, l1: seq<int>, r1: seq<int>, p1: seq<int>, h: Forest, p': seq<int>)
    requires LastStep(f, key, home, d, q, p, l1, r1, p1, h, p') && q == f.l[d] && h.Shape()
    ensures Unlinked(f, h, d, q)
  {
    assert ChildrenOk(f, key, d) && ParentOk(f, d) && ChildrenOk(f, key, q) && ParentOk(f, q);
  }

  lemma RelinkFarParents(f: Forest, key: seq<int>, home: seq<int>, d: int, q: int,
                         p: seq<int>, l1: seq<int>, r1: seq<int>, p1: seq<int>, h: Forest, p': seq<int>)
    requires LastStep(f, key, home, d, q, p, l1, r1, p1, h, p') && q != f.l[d] && h.Shape()
    ensures forall b | 0 <= b < N :: h.p[b] == NewParent(f, d, q, b)
  {
    assert ChildrenOk(f, key, d) && ParentOk(f, d) && ChildrenOk(f, key, q) && ParentOk(f, q);
  }

  lemma RelinkFarLinks(f: Forest, key: seq<int>, home: seq<int>, d: int, q: int,
                       p: seq<int>, l1: seq<int>, r1: seq<int>, p1: seq<int>, h: Forest, p': seq<int>)
    requires LastStep(f, key, home, d, q, p, l1, r1, p1, h, p') && q != f.l[d] && h.Shape()
    ensures forall b | f.Live(b) && b != d :: h.l[b] == NewLeft(f, d, q, b) && h.r[b] == NewRight(f, d, q, b)
    ensures forall c | IsRoot(c) :: h.r[c] == NewRight(f, d, q, c)
  {
    assert ChildrenOk(f, key, d) && ParentOk(f, d) && ChildrenOk(f, key, q) && ParentOk(f, q);
  }

  /** Removing a node with a free link. */
  lemma UnlinkOuter(f: Forest, h: Forest, key: seq<int>, home: seq<int>, d: int, q: int)
    requires CanUnlink(f, key, home, d, q) && !TwoChildren(f, d)
    requires Unlinked(f, h, d, q) && h.sub == NewSub(f, d, q)
    ensures Ordered(h, key, home) && h.Nodes() == f.Nodes() - {d}
  {
    assert ChildrenOk(f, key, d) && ParentOk(f, d);
    SpliceKeepsOrder(f, key, home, d);
    OnlyLiveCounts(Splice(f, d), h, key, home, key, home);
  }

  lemma InnerParents(f: Forest, key: seq<int>, home: seq<int>, d: int, q: int, b: int)
    requires CanUnlink(f, key, home, d, q) && TwoChildren(f, d) && 0 <= b < N
    requires CanSplice(f, key, home, q) && CanReplace(Splice(f, q), key, home, q, d)
    ensures Replace(Splice(f, q), q, d).p[b] == NewParent(f, d, q, b)
  {
    assert ChildrenOk(f, key, d) && ParentOk(f, d) && ChildrenOk(f, key, q) && ParentOk(f, q);
    assert Splice(f, q).r[d] == f.r[d];
    assert Splice(f, q).l[d] == if q == f.l[d] then f.l[q] else f.l[d];
  }

  /** The predecessor is a right child, unless it is the left child of d itself. */
  lemma PredecessorParent(f: Forest, key: seq<int>, home: seq<int>, d: int, q: int)
    requires CanUnlink(f, key, home, d, q) && TwoChildren(f, d)
    ensures q != d && f.p[d] != q && f.l[q] != d
    ensures if q == f.l[d] then f.p[q] == d else 0 <= f.p[q] < N && f.p[q] != d && f.r[f.p[q]] == q && f.l[f.p[q]] != q
  {
    assert ChildrenOk(f, key, d) && ParentOk(f, d) && ChildrenOk(f, key, q) && ParentOk(f, q);
    if q != f.l[d] {
      ParentInside(f, key, home, f.l[d], q);
      assert ChildrenOk(f, key, f.p[q]);
    }
  }

  lemma InnerLinks(f: Forest, key: seq<int>, home: seq<int>, d: int, q: int, b: int)
    requires CanUnlink(f, key, home, d, q) && TwoChildren(f, d)
    requires CanSplice(f, key, home, q) && CanReplace(Splice(f, q), key, home, q, d)
    requires IsRoot(b) || (f.Live(b) && b != d)
    ensures Replace(Splice(f, q), q, d).r[b] == NewRight(f, d, q, b)
    ensures b < N ==> Replace(Splice(f, q), q, d).l[b] == NewLeft(f, d, q, b)
  {
    PredecessorParent(f, key, home, d, q);
    assert ChildrenOk(f, key, d) && ParentOk(f, d);
    assert Splice(f, q).r[d] == f.r[d];
    assert Splice(f, q).l[d] == if q == f.l[d] then f.l[q] else f.l[d];
    assert Splice(f, q).p[d] == f.p[d];
  }

  /** PullUp and the relinking amount to splicing q out and putting it in the place of d. */
  lemma InnerMatches(f: Forest, h: Forest, key: seq<int>, home: seq<int>, d: int, q: int)
    requires CanUnlink(f, key, home, d, q) && TwoChildren(f, d)
    requires CanSplice(f, key, home, q) && CanReplace(Splice(f, q), key, home, q, d)
    requires Unlinked(f, h, d, q)
    ensures var g := Replace(Splice(f, q), q, d);
      && h.p == g.p
      && (forall b | f.Live(b) && b != d :: h.l[b] == g.l[b] && h.r[b] == g.r[b])
      && (forall c | IsRoot(c) :: h.r[c] == g.r[c])
  {
    var g := Replace(Splice(f, q), q, d);
    forall b | 0 <= b < N ensures h.p[b] == g.p[b] {
      InnerParents(f, key, home, d, q, b);
    }
    forall b | f.Live(b) && b != d ensures h.l[b] == g.l[b] && h.r[b] == g.r[b] {
      InnerLinks(f, key, home, d, q, b);
    }
    forall c | IsRoot(c) ensures h.r[c] == g.r[c] {
      InnerLinks(f, key, home, d, q, c);
    }
  }

  /** Removing a node with two children: the last node before it moves into its place. */
  lemma UnlinkInner(f: Forest, h: Forest, key: seq<int>, home: seq<int>, d: int, q: int)
    requires CanUnlink(f, key, home, d, q) && TwoChildren(f, d)
    requires Unlinked(f, h, d, q) && h.sub == NewSub(f, d, q)
    ensures Ordered(h, key, home) && h.Nodes() == f.Nodes() - {d}
  {
    PredecessorFits(f, key, home, d, q);
    InnerMatches(f, h, key, home, d, q);
    var e := Splice(f, q);
    SpliceKeepsOrder(f, key, home, q);
    SpliceDefined(f, key, home, q);
    ReplaceKeepsOrder(e, key, home, q, d);
    ReplaceDefined(e, key, home, q, d);
    var g := Replace(e, q, d);
    assert h.sub == g.sub;
    OnlyLiveCounts(g, h, key, home, key, home);
  }

  /** The links DeleteNode leaves behind: an ordered forest without d. */
  lemma Removed(f: Forest, key: seq<int>, home: seq<int>, d: int, q: int,
                p: seq<int>, l1: seq<int>, r1: seq<int>, p1: seq<int>, h: Forest, p': seq<int>)
    requires Prepared(f, key, home, d, q, p, l1, r1, p1)
    requires h.sub == NewSub(f, d, q) && |p'| == N + 1 && h.p == p'[..N]
    requires |l1| == N + 1 && |r1| == N + 257 && |p1| == N + 1
    requires 0 <= p1[d] < N + 257 && (r1[p1[d]] != d ==> p1[d] < N) && 0 <= q <= N
    requires Relinked(l1, r1, p1, h.l, h.r, p', d, q)
    ensures Ordered(h, key, home) && h.Nodes() == f.Nodes() - {d}
  {
    if TwoChildren(f, d) {
      RelinkInner(f, key, home, d, q, p, l1, r1, p1, h, p');
      UnlinkInner(f, h, key, home, d, q);
    } else {
      RelinkOuter(f, key, home, d, q, p, h, p');
      UnlinkOuter(f, h, key, home, d, q);
    }
  }
}

/** In-order sequences of the search trees: what a change of links does to the order of the nodes. */
module LzssInOrder {
  import opened LzssConstants
  import opened LzssForest

  ghost function InOrder(f: Forest, key: seq<int>, home: seq<int>, x: int): seq<int>
    requires Ordered(f, key, home) && (x == NIL || f.Live(x))
    decreases f.Below(x)
  {
    if x == NIL then []
    else
      assert ChildrenOk(f, key, x);
      assert x !in f.Below(f.l[x]) && x !in f.Below(f.r[x]);
      InOrder(f, key, home, f.l[x]) + [x] + InOrder(f, key, home, f.r[x])
  }

  /** The in-order sequence of the tree hanging off root c. */
  ghost function Tree(f: Forest, key: seq<int>, home: seq<int>, c: int): seq<int>
    requires Ordered(f, key, home) && IsRoot(c)
  {
    assert RootOk(f, home, c);
    InOrder(f, key, home, f.r[c])
  }

  /** s lists nodes by strictly increasing key. */
  ghost predicate Increasing(key: seq<int>, s: seq<int>) {
    && (forall i | 0 <= i < |s| :: 0 <= s[i] < |key|)
    && (forall i, j | 0 <= i < j < |s| :: key[s[i]] < key[s[j]])
  }

  function Without(s: seq<int>, d: int): (t: seq<int>)
    ensures forall x :: x in t <==> x in s && x != d
  {
    if s == [] then []
    else if s[0] == d then Without(s[1..], d)
    else [s[0]] + Without(s[1..], d)
  }

  lemma Join(key: seq<int>, a: seq<int>, x: int, b: seq<int>)
    requires Increasing(key, a) && Increasing(key, b) && 0 <= x < |key|
    requires (forall y <- a :: 0 <= y < |key| && key[y] < key[x])
    requires (forall y <- b :: 0 <= y < |key| && key[x] < key[y])
    ensures Increasing(key, a + [x] + b)
  {
    var s := a + [x] + b;
    forall i | 0 <= i < |s|
      ensures 0 <= s[i] < |key| && (i < |a| ==> key[s[i]] < key[x]) && (|a| < i ==> key[x] < key[s[i]])
    {
      if i < |a| {
        assert s[i] == a[i] && a[i] in a;
      } else if |a| < i {
        assert s[i] == b[i - |a| - 1] && b[i - |a| - 1] in b;
      }
    }
    forall i, j | 0 <= i < j < |s| ensures key[s[i]] < key[s[j]] {
      if j < |a| {
        assert s[i] == a[i] && s[j] == a[j];
      } else if |a| < i {
        assert s[i] == b[i - |a| - 1] && s[j] == b[j - |a| - 1];
      }
    }
  }

  lemma {:induction false} WithoutIncreasing(key: seq<int>, s: seq<int>, d: int)
    requires Increasing(key, s)
    ensures Increasing(key, Without(s, d))
  {
    if s != [] {
      var t := Without(s[1..], d);
      WithoutIncreasing(key, s[1..], d);
      if s[0] != d {
        forall y | y in t ensures 0 <= y < |key| && key[s[0]] < key[y] {
          assert y in s[1..];
          var k :| 0 <= k < |s[1..]| && s[1..][k] == y;
          assert s[k + 1] == y;
        }
        Join(key, [], s[0], t);
        assert [] + [s[0]] + t == [s[0]] + t;
      }
    }
  }

  lemma {:induction false} WithoutAbsent(s: seq<int>, d: int)
    requires d !in s
    ensures Without(s, d) == s
  {
    if s != [] {
      WithoutAbsent(s[1..], d);
    }
  }

  /** An increasing sequence is determined by its set of elements. */
  lemma {:induction false} IncreasingUnique(key: seq<int>, s: seq<int>, t: seq<int>)
    requires Increasing(key, s) && Increasing(key, t)
    requires forall x :: x in s <==> x in t
    ensures s == t
  {
    assert s != [] ==> s[0] in t;
    assert t != [] ==> t[0] in s;
    if s != [] {
      var i :| 0 <= i < |t| && t[i] == s[0];
      var j :| 0 <= j < |s| && s[j] == t[0];
      assert s[0] == t[0];
      forall x ensures x in s[1..] <==> x in t[1..] {
        if x in s[1..] { TailMember(key, s, t, x); }
        if x in t[1..] { TailMember(key, t, s, x); }
      }
      IncreasingUnique(key, s[1..], t[1..]);
      assert s == [s[0]] + s[1..] && t == [t[0]] + t[1..];
    }
  }

  lemma TailMember(key: seq<int>, s: seq<int>, t: seq<int>, x: int)
    requires Increasing(key, s)
    requires s != [] && t != [] && s[0] == t[0] && x in s[1..] && x in t
    ensures x in t[1..]
  {
    var i :| 0 <= i < |s[1..]| && s[1..][i] == x;
    assert s[i + 1] == x && key[s[0]] < key[x];
    var j :| 0 <= j < |t| && t[j] == x;
    assert j != 0;
    assert t[1..][j - 1] == x;
  }

  /** Each tree in order: its nodes, strictly increasing by key. */
  lemma {:induction false} InOrderIncreasing(f: Forest, key: seq<int>, home: seq<int>, x: int)
    requires Ordered(f, key, home) && (x == NIL || f.Live(x))
    ensures forall y :: y in InOrder(f, key, home, x) <==> y in f.Below(x)
    ensures Increasing(key, InOrder(f, key, home, x))
    decreases f.Below(x)
  {
    if x != NIL {
      assert ChildrenOk(f, key, x);
      assert x !in f.Below(f.l[x]) && x !in f.Below(f.r[x]);
      InOrderIncreasing(f, key, home, f.l[x]);
      InOrderIncreasing(f, key, home, f.r[x]);
      var a, b := InOrder(f, key, home, f.l[x]), InOrder(f, key, home, f.r[x]);
      Join(key, a, x, b);
    }
  }

  /** Tree c holds exactly the live nodes at home in it, in strictly increasing order of key. */
  lemma TreeIsSorted(f: Forest, key: seq<int>, home: seq<int>, c: int)
    requires Ordered(f, key, home) && IsRoot(c)
    ensures forall y :: y in Tree(f, key, home, c) <==> f.Live(y) && home[y] == c
    ensures Increasing(key, Tree(f, key, home, c))
  {
    assert RootOk(f, home, c);
    InOrderIncreasing(f, key, home, f.r[c]);
    forall y | f.Live(y) && home[y] == c ensures y in f.Below(f.r[c]) {
      assert AtHome(f, home, y);
    }
  }

  /**
   * Two ordered forests whose nodes differ by d leaving the one and e leaving the other have, tree
   * by tree, the same sequence of remaining nodes.
   */
  lemma SameOrderBesides(f: Forest, g: Forest, key: seq<int>, home: seq<int>, d: int, e: int, c: int)
    requires Ordered(f, key, home) && Ordered(g, key, home) && IsRoot(c)
    requires f.Nodes() - {d} == g.Nodes() - {e}
    requires (e in f.Nodes() ==> e == d) && (d in g.Nodes() ==> d == e)
    ensures Without(Tree(f, key, home, c), d) == Without(Tree(g, key, home, c), e)
  {
    TreeIsSorted(f, key, home, c);
    TreeIsSorted(g, key, home, c);
    var s, t := Tree(f, key, home, c), Tree(g, key, home, c);
    WithoutIncreasing(key, s, d);
    WithoutIncreasing(key, t, e);
    forall y ensures y in Without(s, d) <==> y in Without(t, e) {
      assert f.Live(y) <==> y in f.Nodes();
      assert g.Live(y) <==> y in g.Nodes();
      if y in f.Nodes() && y != d { assert y in g.Nodes() - {e}; }
      if y in g.Nodes() && y != e { assert y in f.Nodes() - {d}; }
    }
    IncreasingUnique(key, Without(s, d), Without(t, e));
  }

  /** When d has left, every tree is what it was without d. */
  lemma OrderAfterRemoval(f: Forest, g: Forest, key: seq<int>, home: seq<int>, d: int)
    requires Ordered(f, key, home) && Ordered(g, key, home)
    requires g.Nodes() == f.Nodes() - {d}
    ensures forall c | IsRoot(c) :: Tree(g, key, home, c) == Without(Tree(f, key, home, c), d)
  {
    assert d !in g.Nodes();
    forall c | IsRoot(c) ensures Tree(g, key, home, c) == Without(Tree(f, key, home, c), d) {
      SameOrderBesides(f, g, key, home, d, d, c);
      TreeIsSorted(g, key, home, c);
      WithoutAbsent(Tree(g, key, home, c), d);
    }
  }

  /** When r has come, every tree is what it was with r in its place. */
  lemma OrderAfterAddition(f: Forest, g: Forest, key: seq<int>, home: seq<int>, r: int)
    requires Ordered(f, key, home) && Ordered(g, key, home)
    requires r !in f.Nodes() && g.Nodes() == f.Nodes() + {r}
    ensures forall c | IsRoot(c) :: Without(Tree(g, key, home, c), r) == Tree(f, key, home, c)
  {
    assert f.Nodes() == g.Nodes() - {r};
    OrderAfterRemoval(g, f, key, home, r);
  }

  /** When r has come for d, every tree is what it was with r for d. */
  lemma OrderAfterExchange(f: Forest, g: Forest, key: seq<int>, home: seq<int>, d: int, r: int)
    requires Ordered(f, key, home) && Ordered(g, key, home)
    requires r !in f.Nodes() && g.Nodes() == f.Nodes() - {d} + {r} && r != d
    ensures forall c | IsRoot(c) :: Without(Tree(g, key, home, c), r) == Without(Tree(f, key, home, c), d)
  {
    forall c | IsRoot(c) ensures Without(Tree(g, key, home, c), r) == Without(Tree(f, key, home, c), d) {
      SameOrderBesides(f, g, key, home, d, r, c);
    }
  }
}

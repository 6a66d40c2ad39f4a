/** The state of the compressor: its link arrays, its text buffer and the last match found. */
module LzssEncodeState {
  import opened Basics
  import opened LzssConstants
  import opened LzssForest
  import opened LzssInOrder
  import opened LzssWindow

  /** On the side of p away from r, no window shares more with r than p does. */
  lemma Skipped(f: Forest, t: seq<byte>, p: int, r: int)
    requires IsText(t) && Ordered(f, Keys(t), Homes(t)) && f.Live(p) && 0 <= r < N
    ensures Key(t, p) < Key(t, r) ==> forall x <- f.Below(f.l[p]) :: 0 <= x < N && Common(t, x, r) <= Common(t, p, r)
    ensures Key(t, r) < Key(t, p) ==> forall x <- f.Below(f.r[p]) :: 0 <= x < N && Common(t, x, r) <= Common(t, p, r)
  {
    assert ChildrenOk(f, Keys(t), p);
    forall x | x in f.Below(f.l[p]) && Key(t, p) < Key(t, r) ensures 0 <= x < N && Common(t, x, r) <= Common(t, p, r) {
      Between(t, x, p, r);
    }
    forall x | x in f.Below(f.r[p]) && Key(t, r) < Key(t, p) ensures 0 <= x < N && Common(t, x, r) <= Common(t, p, r) {
      Between(t, x, p, r);
    }
  }

  /** Windows of positions in other trees differ in their first byte. */
  lemma OtherTrees(f: Forest, t: seq<byte>, r: int)
    requires IsText(t) && Ordered(f, Keys(t), Homes(t)) && 0 <= r < N
    ensures IsRoot(Homes(t)[r])
    ensures forall x <- f.Nodes() :: x in f.Below(f.r[Homes(t)[r]]) || Common(t, x, r) == 0
    ensures forall x <- f.Below(f.r[Homes(t)[r]]) :: x in f.Nodes() && t[x] == t[r]
  {
    var c := Homes(t)[r];
    assert RootOk(f, Homes(t), c);
    forall x | x in f.Nodes() && x !in f.Below(f.r[c]) ensures Common(t, x, r) == 0 {
      assert AtHome(f, Homes(t), x);
      assert Window(t, x)[0] == t[x] && Window(t, r)[0] == t[r];
    }
  }

  /** The subtree a search for r has still to look at, having compared r with p. */
  ghost function Ahead(f: Forest, p: int, cmp: int): int
    requires f.Shape() && (IsRoot(p) ==> cmp >= 0) && (IsRoot(p) || 0 <= p < N)
  {
    if cmp >= 0 then f.r[p] else f.l[p]
  }

  /**
   * A search for r has come to p and compared: no node outside the subtree ahead shares more than
   * `length` bytes with r, and `position` shares that many.
   */
  ghost predicate Probed(f: Forest, t: seq<byte>, r: int, p: int, cmp: int, length: int, position: int)
    requires IsText(t) && 0 <= r < N
  {
    var key, home := Keys(t), Homes(t);
    && Ordered(f, key, home) && !f.Live(r) && IsRoot(home[r])
    && (if IsRoot(p) then p == home[r] && cmp == 1 && length == 0
        else
          && f.Live(p) && p in f.Below(f.r[home[r]])
          && (if cmp < 0 then key[r] < key[p] else cmp > 0 && key[p] < key[r]))
    && OnPath(f, key, key[r], p)
    && 0 <= length < F
    && (length > 0 ==> position in f.Below(f.r[home[r]]) && 0 <= position < N && Common(t, position, r) == length)
    && f.Below(Ahead(f, p, cmp)) <= f.Below(f.r[home[r]])
    && (forall x <- f.Below(f.r[home[r]]) ::
      x in f.Below(Ahead(f, p, cmp)) || (0 <= x < N && Common(t, x, r) <= length))
  }

  lemma ProbeStart(f: Forest, t: seq<byte>, r: int, position: int)
    requires IsText(t) && 0 <= r < N && Ordered(f, Keys(t), Homes(t)) && !f.Live(r)
    ensures Probed(f, t, r, N + 1 + t[r], 1, 0, position)
  {
    OtherTrees(f, t, r);
    RootOnPath(f, Keys(t), Homes(t), Keys(t)[r], Homes(t)[r]);
  }

  /** How a search for r ends at p: at a free link, or at a node with the same window. */
  ghost predicate Found(f: Forest, t: seq<byte>, r: int, p: int, right: bool, length: int, position: int)
    requires IsText(t) && 0 <= r < N && f.Shape()
  {
    && 0 <= length <= F
    && (forall x <- f.Nodes() :: Common(t, x, r) <= length)
    && (length > 0 ==> position in f.Nodes() && Common(t, position, r) == length)
    && (if length < F then CanAttach(f, Keys(t), Homes(t), r, p, right) else p == position)
  }

  /** The next node m of the search: it is in the tree of r. */
  lemma ProbeNext(f: Forest, t: seq<byte>, r: int, p: int, cmp: int, length: int, position: int)
    requires IsText(t) && 0 <= r < N && Probed(f, t, r, p, cmp, length, position)
    requires Ahead(f, p, cmp) != NIL
    ensures var m := Ahead(f, p, cmp);
      && f.Live(m) && m in f.Below(f.r[Homes(t)[r]]) && t[m] == t[r]
      && ChildrenOk(f, Keys(t), m) && OnPath(f, Keys(t), Keys(t)[r], m)
  {
    var m := Ahead(f, p, cmp);
    PathStep(f, Keys(t), Homes(t), Keys(t)[r], p, m);
    assert ChildrenOk(f, Keys(t), m);
    OtherTrees(f, t, r);
  }

  lemma ProbeOn(f: Forest, t: seq<byte>, r: int, p: int, cmp: int, length: int, position: int, cmp': int)
    requires IsText(t) && 0 <= r < N && Probed(f, t, r, p, cmp, length, position)
    requires Ahead(f, p, cmp) != NIL && f.Live(Ahead(f, p, cmp)) && Common(t, Ahead(f, p, cmp), r) < F
    requires cmp' == t[r + Common(t, Ahead(f, p, cmp), r)] as int
      - t[Ahead(f, p, cmp) + Common(t, Ahead(f, p, cmp), r)] as int
    ensures var m := Ahead(f, p, cmp);
      var i := Common(t, m, r);
      && Probed(f, t, r, m, cmp', if i > length then i else length, if i > length then m else position)
      && f.Below(Ahead(f, m, cmp')) < f.Below(m)
  {
    hide Key, Common;
    ProbeNext(f, t, r, p, cmp, length, position);
    var m := Ahead(f, p, cmp);
    CommonEnds(t, m, r);
    KeyOrder(t, m, r);
    Skipped(f, t, m, r);
    assert m !in f.Below(f.l[m]) && m !in f.Below(f.r[m]);
  }

  /** Comparing r with the next node m: either all F bytes agree or the difference tells the side to go on. */
  lemma ProbeStep(f: Forest, t: seq<byte>, r: int, p: int, cmp: int, length: int, position: int, i: int, cmp': int)
    requires IsText(t) && 0 <= r < N && Probed(f, t, r, p, cmp, length, position)
    requires Ahead(f, p, cmp) != NIL && f.Live(Ahead(f, p, cmp)) && i == Common(t, Ahead(f, p, cmp), r)
    requires i < F ==> cmp' == t[r + i] as int - t[Ahead(f, p, cmp) + i] as int
    ensures var m := Ahead(f, p, cmp);
      if i == F then Found(f, t, r, m, true, F, m)
      else
        && Probed(f, t, r, m, cmp', if i > length then i else length, if i > length then m else position)
        && f.Below(Ahead(f, m, cmp')) < f.Below(m)
  {
    if i < F { ProbeOn(f, t, r, p, cmp, length, position, cmp'); }
  }

  /** The search has come to a free link: r belongs there, and the best match was met on the way. */
  lemma ProbeEnd(f: Forest, t: seq<byte>, r: int, p: int, cmp: int, length: int, position: int)
    requires IsText(t) && 0 <= r < N && Probed(f, t, r, p, cmp, length, position)
    requires Ahead(f, p, cmp) == NIL
    ensures Found(f, t, r, p, cmp >= 0, length, position)
  {
    OtherTrees(f, t, r);
  }

  class EncodeState {
    const lchild: array<int>
    const rchild: array<int>
    const parent: array<int>
    const textBuf: array<byte>
    var matchPosition: int
    var matchLength: int

    /** The node sets of all subtrees. */
    ghost var sub: seq<set<int>>

    ghost predicate Sized() {
      && lchild.Length == N + 1 && rchild.Length == N + 257 && parent.Length == N + 1
      && textBuf.Length == N + F - 1
      && lchild != rchild && lchild != parent && rchild != parent
      && textBuf as object !in {lchild as object, rchild as object, parent as object}
    }

    /** The links, without the scratch cell parent[NIL]. */
    ghost function Links(): Forest
      requires Sized()
      reads this`sub, lchild, rchild, parent
    {
      Forest(lchild[..], rchild[..], parent[..N], sub)
    }

    ghost function Text(): seq<byte>
      reads textBuf
    {
      textBuf[..]
    }

    ghost predicate Valid()
      reads this`sub, lchild, rchild, parent, textBuf
    {
      Sized() && Ordered(Links(), Keys(Text()), Homes(Text()))
    }

    /** The positions that are in a tree. */
    ghost function Nodes(): set<int>
      requires Valid()
      reads this`sub, lchild, rchild, parent, textBuf
    {
      Links().Nodes()
    }

    /** The in-order sequence of tree c. */
    ghost function InTree(c: int): seq<int>
      requires Valid() && IsRoot(c)
      reads this`sub, lchild, rchild, parent, textBuf
    {
      Tree(Links(), Keys(Text()), Homes(Text()), c)
    }

    /** All trees empty, the ring blank up to the last F cells, zero bytes in the rest. */
    constructor InitState()
      ensures Valid() && fresh(lchild) && fresh(rchild) && fresh(parent) && fresh(textBuf)
      ensures Nodes() == {}
      ensures Text() == seq(N + F - 1, i => if i < N - F then SPACE else 0)
    {
      lchild := new int[N + 1](_ => 0);
      rchild := new int[N + 257](_ => 0);
      parent := new int[N + 1](_ => 0);
      textBuf := new byte[N + F - 1](_ => 0);
      matchPosition, matchLength := 0, 0;
      sub := seq(N, _ => {});
      new;
      for i := 0 to N - F
        modifies textBuf
        invariant forall k | 0 <= k < textBuf.Length :: textBuf[k] == if k < i then SPACE else 0
      {
        textBuf[i] := SPACE;
      }
      for i := N + 1 to N + 257
        modifies rchild
        invariant forall k | N < k < i :: rchild[k] == NIL
      {
        rchild[i] := NIL;
      }
      for i := 0 to N
        modifies parent
        invariant forall k | 0 <= k < i :: parent[k] == NIL
      {
        parent[i] := NIL;
      }
      EmptyForest(Links(), Keys(Text()), Homes(Text()));
    }

    /** The last node of the left subtree of a node with two children. */
    method LastBefore(p: int) returns (q: int)
      requires Valid() && p in Nodes() && Linkable(Links(), p) && lchild[p] != NIL && rchild[p] != NIL
      ensures Predecessor(Links(), Keys(Text()), p, q)
      ensures q != p && 0 <= parent[q] < N
      ensures q == lchild[p] || (parent[q] != p && rchild[parent[q]] == q)
    {
      ghost var f, key := Links(), Keys(Text());
      assert ChildrenOk(f, key, p);
      q := lchild[p];
      assert ChildrenOk(f, key, q);
      while rchild[q] != NIL
        invariant f.Live(q) && q in f.Below(f.l[p]) && ChildrenOk(f, key, q)
        invariant q == f.l[p] || (f.Live(f.p[q]) && f.p[q] in f.Below(f.l[p]) && f.r[f.p[q]] == q)
        invariant forall y <- f.Below(f.l[p]) :: y in f.sub[q] || (0 <= y < N && key[y] < key[q])
        decreases f.sub[q]
      {
        q := rchild[q];
        assert ChildrenOk(f, key, q);
      }
    }

    /** Gives q, the last node before p, the children of p. */
    method PullUp(p: int, q: int)
      requires Sized() && 0 <= p < N && 0 <= q < N && p != q
      requires 0 <= lchild[p] <= N && 0 <= rchild[p] <= N && 0 <= lchild[q] <= N && 0 <= parent[q] <= N
      requires q != lchild[p] ==> parent[q] != p
      modifies lchild, rchild, parent
      ensures PulledUp(old(lchild[..]), old(rchild[..]), old(parent[..]), lchild[..], rchild[..], parent[..], p, q)
    {
      if q != lchild[p] {
        rchild[parent[q]] := lchild[q];
        parent[lchild[q]] := parent[q];
        lchild[q] := lchild[p];
        parent[lchild[p]] := q;
      }
      rchild[q] := rchild[p];
      parent[rchild[p]] := q;
    }

    /** Hangs q where p hangs, and frees p. */
    method Relink(p: int, q: int)
      requires Sized() && 0 <= p < N && 0 <= q <= N
      requires 0 <= parent[p] < N + 257 && (rchild[parent[p]] != p ==> parent[p] < N)
      modifies lchild, rchild, parent
      ensures Relinked(old(lchild[..]), old(rchild[..]), old(parent[..]), lchild[..], rchild[..], parent[..], p, q)
    {
      parent[q] := parent[p];
      if rchild[parent[p]] == p {
        rchild[parent[p]] := q;
      } else {
        lchild[parent[p]] := q;
      }
      parent[p] := NIL;
    }

    method DeleteNode(p: int)
      requires Valid() && 0 <= p < N
      modifies this`sub, lchild, rchild, parent
      ensures Valid()
      ensures Nodes() == old(Nodes()) - {p}
      ensures p !in old(Nodes()) ==> Links() == old(Links())
      ensures forall c | IsRoot(c) :: InTree(c) == Without(old(InTree(c)), p)
    {
      ghost var key, home, f := Keys(Text()), Homes(Text()), Links();
      if parent[p] == NIL {
        OrderAfterRemoval(f, f, key, home, p);
        return;
      }
      ghost var p0 := parent[..];
      LiveIsLinkable(f, key, home, p);
      var q;
      if rchild[p] == NIL {
        q := lchild[p];
      } else if lchild[p] == NIL {
        q := rchild[p];
      } else {
        q := LastBefore(p);
        LiveIsLinkable(f, key, home, q);
        PullUp(p, q);
      }
      ghost var l1, r1, p1 := lchild[..], rchild[..], parent[..];
      PreparedDefined(f, key, home, p, q, p0, l1, r1, p1);
      Relink(p, q);
      sub := NewSub(f, p, q);
      Removed(f, key, home, p, q, p0, l1, r1, p1, Links(), parent[..]);
      OrderAfterRemoval(f, Links(), key, home, p);
    }

    /** Length of the common prefix of the windows at p and r, which share their first byte. */
    method Compare(p: int, r: int) returns (i: int, cmp: int)
      requires Sized() && 0 <= p < N && 0 <= r < N && textBuf[p] == textBuf[r]
      ensures i == Common(Text(), p, r)
      ensures if i < F then cmp == textBuf[r + i] as int - textBuf[p + i] as int else cmp == 0
    {
      ghost var u, v := Window(Text(), p), Window(Text(), r);
      cmp := 0;
      i := 1;
      while i < F
        invariant 1 <= i <= F && cmp == 0
        invariant Shared(u, v) == SharedFrom(u, v, i)
      {
        assert u[i] == textBuf[p + i] && v[i] == textBuf[r + i];
        cmp := textBuf[r + i] as int - textBuf[p + i] as int;
        if cmp != 0 {
          break;
        }
        i := i + 1;
      }
    }

    /**
     * The descent of InsertNode: ends at the free link where r belongs, or at a node whose whole
     * window equals that of r, and leaves the longest match met on the way.
     */
    method Search(r: int) returns (p: int, right: bool)
      requires Valid() && 0 <= r < N && r !in Nodes()
      modifies this`matchPosition, this`matchLength
      ensures Found(Links(), Text(), r, p, right, matchLength, matchPosition)
    {
      hide Found, OnPath, Straddles, Shared, SharedFrom, Numeral, ChildrenOk;
      ghost var f, t := Links(), Text();
      var cmp := 1;
      p := N + 1 + textBuf[r];
      matchLength := 0;
      ProbeStart(f, t, r, matchPosition);
      while true
        modifies this`matchPosition, this`matchLength
        invariant Probed(f, t, r, p, cmp, matchLength, matchPosition)
        decreases f.Below(Ahead(f, p, cmp))
      {
        right := cmp >= 0;
        var next := if right then rchild[p] else lchild[p];
        if next == NIL {
          ProbeEnd(f, t, r, p, cmp, matchLength, matchPosition);
          return;
        }
        ProbeNext(f, t, r, p, cmp, matchLength, matchPosition);
        var i, cmp' := Compare(next, r);
        ProbeStep(f, t, r, p, cmp, matchLength, matchPosition, i, cmp');
        p, cmp := next, cmp';
        if i > matchLength {
          matchPosition := p;
          matchLength := i;
          if i >= F {
            right := true;
            return;
          }
        }
      }
    }

    /** Hangs r at the free link of p. */
    method Hang(r: int, p: int, right: bool)
      requires Sized() && |sub| == N && 0 <= r < N && (0 <= p < N || (right && IsRoot(p)))
      requires p != r && lchild[r] == NIL && rchild[r] == NIL
      modifies this`sub, lchild, rchild, parent
      ensures Links() == Attach(old(Links()), r, p, right)
    {
      if right {
        rchild[p] := r;
      } else {
        lchild[p] := r;
      }
      parent[r] := p;
      sub := Attach(Links(), r, p, right).sub;
    }

    /** Puts r in the place of p. */
    method TakeOver(r: int, p: int)
      requires Sized() && |sub| == N && 0 <= r < N && Linkable(Links(), p)
      requires r != p && lchild[p] != p && rchild[p] != p && parent[p] != r && parent[p] != p && parent[p] != NIL
      modifies this`sub, lchild, rchild, parent
      ensures Links() == Replace(old(Links()), r, p)
    {
      ghost var f := Links();
      parent[r] := parent[p];
      lchild[r] := lchild[p];
      rchild[r] := rchild[p];
      parent[lchild[p]] := r;
      parent[rchild[p]] := r;
      if rchild[parent[p]] == p {
        rchild[parent[p]] := r;
      } else {
        lchild[parent[p]] := r;
      }
      parent[p] := NIL;
      sub := Replace(f, r, p).sub;
    }

    method InsertNode(r: int)
      requires Valid() && 0 <= r < N && r !in Nodes()
      modifies this, lchild, rchild, parent
      ensures Valid()
      // The longest match with any node there was, and a node that attains it.
      ensures 0 <= matchLength <= F
      ensures forall x <- old(Nodes()) :: Common(Text(), x, r) <= matchLength
      ensures matchLength > 0 ==> matchPosition in old(Nodes()) && Common(Text(), matchPosition, r) == matchLength
      // r is added; only a node with the very same window can leave, all others keep their order.
      ensures Nodes() == (if matchLength == F then old(Nodes()) - {matchPosition} else old(Nodes())) + {r}
      ensures matchLength == F ==> Key(Text(), matchPosition) == Key(Text(), r)
      ensures forall c | IsRoot(c) ::
        Without(InTree(c), r) == if matchLength == F then Without(old(InTree(c)), matchPosition) else old(InTree(c))
    {
      ghost var f, t := Links(), Text();
      ghost var key, home := Keys(t), Homes(t);
      rchild[r] := NIL;
      lchild[r] := NIL;
      ghost var f1 := Links();
      OnlyLiveCounts(f, f1, key, home, key, home);
      var p, right := Search(r);
      if matchLength < F {
        AttachKeepsOrder(f1, key, home, r, p, right);
        OrderAfterAddition(f, Attach(f1, r, p, right), key, home, r);
        Hang(r, p, right);
      } else {
        KeyOrder(t, p, r);
        EqualKeyFits(f1, key, home, r, p);
        ReplaceKeepsOrder(f1, key, home, r, p);
        OrderAfterExchange(f, Replace(f1, r, p), key, home, p, r);
        assert ChildrenOk(f1, key, p) && ParentOk(f1, p);
        TakeOver(r, p);
      }
    }
  }
}

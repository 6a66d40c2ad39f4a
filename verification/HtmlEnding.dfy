/** Exactly when the loop over CombineTags ends, on any document at all. */
module HtmlEnding {
  import opened HtmlTags
  import opened HtmlPairing
  import opened HtmlMatching

  // ---------- depth ----------

  ghost function Span(ts: set<Tag>, y: nat, x: nat): set<Tag> {
    set t | t in ts && y <= t.id < x
  }

  ghost predicate DeepSince(os: set<Tag>, cs: set<Tag>, x: nat, y: nat) {
    |Span(os, y, x)| > |Span(cs, y, x)|
  }

  /** An opening tag is open at x, closing tags that have none to close being passed by. */
  ghost predicate Deep(os: set<Tag>, cs: set<Tag>, x: nat) {
    exists y: nat :: DeepSince(os, cs, x, y)
  }

  lemma SpanMinus(ts: set<Tag>, t: Tag, y: nat, x: nat)
    requires t in ts
    ensures Span(ts - {t}, y, x) == Span(ts, y, x) - {t}
    ensures |Span(ts - {t}, y, x)| == |Span(ts, y, x)| - (if y <= t.id < x then 1 else 0)
  {
    assert Span(ts - {t}, y, x) == Span(ts, y, x) - {t};
  }

  lemma Subset(a: set<Tag>, b: set<Tag>)
    requires a <= b
    ensures |a| <= |b|
  {
    assert b == a + (b - a);
  }

  /** With a closing tag less it is as deep. */
  lemma DeepFewer(os: set<Tag>, cs: set<Tag>, c: Tag, x: nat)
    requires c in cs && Deep(os, cs, x)
    ensures Deep(os, cs - {c}, x)
  {
    var y: nat :| DeepSince(os, cs, x, y);
    SpanMinus(cs, c, y, x);
    assert DeepSince(os, cs - {c}, x, y);
  }

  /** Behind a pair it is as deep without the pair. */
  lemma DeepBehind(os: set<Tag>, cs: set<Tag>, o: Tag, c: Tag, x: nat)
    requires o in os && c in cs && o.id < c.id < x && Deep(os, cs, x)
    ensures Deep(os - {o}, cs - {c}, x)
  {
    var y: nat :| DeepSince(os, cs, x, y);
    SpanMinus(cs, c, y, x);
    SpanMinus(os, o, y, x);
    assert DeepSince(os - {o}, cs - {c}, x, y);
  }

  /** The last opening tag before c and c itself, with no other tag between them. */
  ghost predicate Adjacent(os: set<Tag>, cs: set<Tag>, o: Tag, c: Tag) {
    && o in os && c in cs && o.id < c.id
    && (forall p <- os :: p == o || p.id < o.id || c.id < p.id)
    && (forall d <- cs :: d == c || d.id < o.id || c.id < d.id)
  }

  /** Nowhere is it deeper without an adjacent pair. */
  lemma DeepBack(os: set<Tag>, cs: set<Tag>, o: Tag, c: Tag, x: nat)
    requires Adjacent(os, cs, o, c) && Deep(os - {o}, cs - {c}, x)
    ensures Deep(os, cs, x)
  {
    var y: nat :| DeepSince(os - {o}, cs - {c}, x, y);
    SpanMinus(cs, c, y, x);
    SpanMinus(os, o, y, x);
    if o.id < y <= c.id < x {
      SpanMinus(cs, c, o.id, x);
      SpanMinus(os, o, o.id, x);
      assert Span(os - {o}, o.id, x) == Span(os - {o}, y, x);
      assert Span(cs - {c}, o.id, x) == Span(cs - {c}, y, x);
      assert DeepSince(os, cs, x, o.id);
    } else {
      assert DeepSince(os, cs, x, y);
    }
  }

  /** Nowhere is it deeper without a first closing tag that has nothing to close. */
  lemma DeepBackAlone(os: set<Tag>, cs: set<Tag>, c: Tag, x: nat)
    requires c in cs && (forall o <- os :: c.id < o.id) && Deep(os, cs - {c}, x)
    ensures Deep(os, cs, x)
  {
    var y: nat :| DeepSince(os, cs - {c}, x, y);
    SpanMinus(cs, c, y, x);
    if y <= c.id < x {
      var z := c.id + 1;
      SpanMinus(cs, c, z, x);
      assert Span(os, z, x) == Span(os, y, x);
      Subset(Span(cs - {c}, z, x), Span(cs - {c}, y, x));
      assert DeepSince(os, cs, x, z);
    } else {
      assert DeepSince(os, cs, x, y);
    }
  }

  // ---------- the condition ----------

  ghost predicate IsLast(os: set<Tag>, l: Tag) {
    l in os && forall o <- os :: o.id <= l.id
  }

  ghost predicate ClosedBehind(cs: set<Tag>, l: Tag) {
    exists c :: c in cs && c.id > l.id
  }

  /** All opening tags before the last one are closed before it, and something closes it. */
  ghost predicate Soluble(os: set<Tag>, cs: set<Tag>) {
    forall l :: IsLast(os, l) ==> !Deep(os, cs, l.id) && ClosedBehind(cs, l)
  }

  /** c closes something. */
  ghost predicate Useful(st: State, c: Tag) {
    Deep(Of(st.opens, c.name), Of(st.closes, c.name), c.id)
  }

  /** All closing tags that come before those of the name close something. */
  ghost predicate Reached(st: State, name: string) {
    forall c <- st.closes :: (forall d <- st.closes :: d.name == name ==> c.id < d.id) ==> Useful(st, c)
  }

  ghost predicate WillEnd(st: State) {
    && (forall name :: Soluble(Of(st.opens, name), Of(st.closes, name)))
    && (forall name {:trigger Reached(st, name)} :: Of(st.opens, name) != {} ==> Reached(st, name))
  }

  /** Within k calls no opening tag is left, and the loop over CombineTags ends. */
  ghost predicate Ends(st: State, k: nat)
    decreases k
  {
    st.opens == [] || (st.closes != [] && k > 0 && Ends(Combine(st), k - 1))
  }

  // ---------- only if ----------

  /** The tags of a name, before and after a pair is made. */
  lemma PairedOf(st: State, c: Tag, o: Tag, st': State)
    requires Paired(st, c, o, st')
    ensures o.name == c.name && o.id < c.id && o in Of(st.opens, c.name) && c in Of(st.closes, c.name)
    ensures Of(st'.opens, c.name) == Of(st.opens, c.name) - {o}
    ensures Of(st'.closes, c.name) == Of(st.closes, c.name) - {c}
    ensures forall name | name != c.name ::
      Of(st'.opens, name) == Of(st.opens, name) && Of(st'.closes, name) == Of(st.closes, name)
    ensures |st'.opens| == |st.opens| - 1
  {
    PairedNames(st, c, o, st');
    PairedSets(st, c, o, st', c.name, 0);
    forall name | name != c.name
      ensures Of(st'.opens, name) == Of(st.opens, name) && Of(st'.closes, name) == Of(st.closes, name)
    {
      PairedSets(st, c, o, st', name, 0);
    }
    assert |multiset(st'.opens)| == |multiset(st.opens)| - 1;
  }

  /** What a pair says of the tags of its name. */
  lemma PairsOf(st: State, c: Tag, o: Tag)
    requires Valid(st) && c in st.closes && Pairs(Elems(st.opens), o, c)
    ensures var os := Of(st.opens, c.name);
      && o in os && o.id < c.id && (forall p <- os :: p.id != c.id && (p.id < c.id ==> p == o || p.id < o.id))
      && ((exists p :: p in os && c.id < p.id) || os == {o})
  {
    var os := Of(st.opens, c.name);
    assert forall p <- os :: p in Elems(st.opens);
    forall p | p in os && p.id < c.id && p != o ensures p.id < o.id {
      DistinctIds(st.opens, o, p);
    }
    if MoreAfter(Elems(st.opens), c) {
      var p :| p in Elems(st.opens) && p.name == c.name && p.id > c.id;
      assert p in os;
    } else {
      assert os == {o};
    }
  }

  lemma OneIsShallow(cs: set<Tag>, l: Tag)
    ensures !Deep({l}, cs, l.id)
  {
    forall y: nat ensures !DeepSince({l}, cs, l.id, y) {
      assert Span({l}, y, l.id) == {};
    }
  }

  /** No pair helps a name whose tags cannot all be paired. */
  lemma InsolublePaired(os: set<Tag>, cs: set<Tag>, o: Tag, c: Tag)
    requires o in os && c in cs && o.id < c.id && !Soluble(os, cs)
    requires (exists p :: p in os && c.id < p.id) || os == {o}
    ensures !Soluble(os - {o}, cs - {c})
  {
    var l :| IsLast(os, l) && !(!Deep(os, cs, l.id) && ClosedBehind(cs, l));
    if os == {o} { OneIsShallow(cs, o); }
    var p :| p in os && c.id < p.id;
    assert IsLast(os - {o}, l);
    if Deep(os, cs, l.id) { DeepBehind(os, cs, o, c, l.id); }
  }

  lemma InsolubleStays(st: State, c: Tag, name: string)
    requires Valid(st) && c in st.closes && !Soluble(Of(st.opens, name), Of(st.closes, name))
    ensures Valid(Step(st, c)) && !Soluble(Of(Step(st, c).opens, name), Of(Step(st, c).closes, name))
  {
    hide Step, Of, Pairs, Valid, Soluble;
    var paired, o := StepPairs(st, c);
    if paired {
      PairedOf(st, c, o, Step(st, c));
      PairsOf(st, c, o);
      if c.name == name { InsolublePaired(Of(st.opens, name), Of(st.closes, name), o, c); }
    }
  }

  lemma {:induction false} PassInsoluble(st: State, cs: seq<Tag>, name: string)
    requires Pending(st, cs) && !Soluble(Of(st.opens, name), Of(st.closes, name))
    ensures !Soluble(Of(Pass(st, cs).opens, name), Of(Pass(st, cs).closes, name))
    decreases |cs|
  {
    hide Step, Of, Soluble;
    if cs != [] {
      InsolubleStays(st, cs[0], name);
      PendingStep(st, cs);
      PassInsoluble(Step(st, cs[0]), cs[1..], name);
    }
  }

  /** The pair of a pass has no tag of its name left between its tags. */
  lemma PairedAdjacent(st: State, cs: seq<Tag>, c: Tag, o: Tag, st': State)
    requires Pending(st, cs) && cs != [] && cs[0] == c && Paired(st, c, o, st') && PassedOver(st, cs, c.name)
    ensures Adjacent(Of(st.opens, c.name), Of(st.closes, c.name), o, c)
  {
    PairedOf(st, c, o, st');
    forall t | t in Of(st'.opens, c.name) || t in Of(st'.closes, c.name) ensures t.id < o.id || c.id < t.id {
      NewPairOutside(st, cs, c, o, st', t);
    }
  }

  lemma AdjacentDeep(os: set<Tag>, cs: set<Tag>, o: Tag, c: Tag)
    requires Adjacent(os, cs, o, c)
    ensures Deep(os, cs, c.id)
  {
    assert Span(cs, o.id, c.id) == {};
    assert o in Span(os, o.id, c.id);
    assert DeepSince(os, cs, c.id, o.id);
  }

  /** A closing tag that closes nothing is not paired, and never comes to close anything. */
  lemma {:induction false} PassUseless(st: State, cs: seq<Tag>, name: string, c: Tag)
    requires Pending(st, cs) && (forall d <- cs :: d.name == name) && PassedOver(st, cs, name)
    requires c in st.closes && c.name == name && !Useful(st, c)
    ensures c in Pass(st, cs).closes && !Useful(Pass(st, cs), c)
    decreases |cs|
  {
    hide Step, Pairs, Of, PassedOver, Pending;
    if cs != [] {
      var d, st' := cs[0], Step(st, cs[0]);
      PendingValid(st, cs);
      var paired, o := StepPairs(st, d);
      if paired {
        var os, ks := Of(st.opens, name), Of(st.closes, name);
        PairedAdjacent(st, cs, d, o, st');
        AdjacentDeep(os, ks, o, d);
        assert c != d;
        assert c in Elems(st.closes) && c in Elems(st'.closes);
        PairedOf(st, d, o, st');
        if Deep(os - {o}, ks - {d}, c.id) { DeepBack(os, ks, o, d, c.id); }
      }
      PendingStep(st, cs);
      StepPassesOver(st, cs, name);
      PassUseless(st', cs[1..], name, c);
    }
  }

  lemma PendingValid(st: State, cs: seq<Tag>)
    requires Pending(st, cs) && cs != []
    ensures Valid(st) && cs[0] in st.closes
  {
  }

  /** A pass leaves tags of other names alone. */
  lemma {:induction false} PassOthers(st: State, cs: seq<Tag>, name: string, other: string)
    requires Pending(st, cs) && (forall d <- cs :: d.name == name) && other != name
    ensures Of(Pass(st, cs).opens, other) == Of(st.opens, other)
      && Of(Pass(st, cs).closes, other) == Of(st.closes, other)
    decreases |cs|
  {
    hide Step, Pairs, Of, Pending;
    if cs != [] {
      PendingValid(st, cs);
      var paired, o := StepPairs(st, cs[0]);
      if paired { PairedOf(st, cs[0], o, Step(st, cs[0])); }
      PendingStep(st, cs);
      PassOthers(Step(st, cs[0]), cs[1..], name, other);
    }
  }

  /** The loop will come to a closing tag that closes nothing before it comes to the name. */
  ghost predicate Blocks(st: State, name: string, c: Tag) {
    && Of(st.opens, name) != {} && c in st.closes && !Useful(st, c)
    && (forall d <- st.closes :: d.name == name ==> c.id < d.id)
  }

  lemma BlocksStays(st: State, name: string, c: Tag)
    requires Valid(st) && Blocks(st, name, c)
    ensures Valid(Combine(st)) && Blocks(Combine(st), name, c)
  {
    hide Pass;
    CombineConserves(st);
    if st.opens != [] {
      var front := st.closes[0];
      var cs := ByName(st.closes, front.name);
      FrontFirst(st.closes, c);
      CombinePending(st);
      PassOthers(st, cs, front.name, name);
      if c.name == front.name {
        PassUseless(st, cs, front.name, c);
      } else {
        PassOthers(st, cs, front.name, c.name);
        assert c in Of(st.closes, c.name);
      }
      forall d | d in Combine(st).closes && d.name == name ensures c.id < d.id {
        assert d in Of(Combine(st).closes, name);
      }
    }
  }

  lemma FrontFirst(ts: seq<Tag>, t: Tag)
    requires Sorted(ts) && t in ts
    ensures ts[0].id <= t.id && (t != ts[0] ==> ts[0].id < t.id)
  {
    TailOf(ts, t);
  }

  lemma {:induction false} EndsNeeds(st: State, k: nat)
    requires Valid(st) && Ends(st, k)
    ensures forall name :: Soluble(Of(st.opens, name), Of(st.closes, name))
    ensures forall name, c :: !Blocks(st, name, c)
    decreases k
  {
    hide Combine, Soluble;
    if st.opens == [] {
      forall name ensures Soluble(Of(st.opens, name), Of(st.closes, name)) {
        NothingSoluble(st, name);
      }
    } else {
      CombineConserves(st);
      EndsNeeds(Combine(st), k - 1);
      forall name ensures Soluble(Of(st.opens, name), Of(st.closes, name)) {
        if !Soluble(Of(st.opens, name), Of(st.closes, name)) { CombineInsoluble(st, name); }
      }
      forall name, c ensures !Blocks(st, name, c) {
        if Blocks(st, name, c) { BlocksStays(st, name, c); }
      }
    }
  }

  lemma NothingSoluble(st: State, name: string)
    requires st.opens == []
    ensures Of(st.opens, name) == {} && Soluble(Of(st.opens, name), Of(st.closes, name))
  {
  }

  lemma CombineInsoluble(st: State, name: string)
    requires Valid(st) && st.opens != [] && st.closes != [] && !Soluble(Of(st.opens, name), Of(st.closes, name))
    ensures !Soluble(Of(Combine(st).opens, name), Of(Combine(st).closes, name))
  {
    hide Soluble, Of, Pass;
    CombinePending(st);
    PassInsoluble(st, ByName(st.closes, st.closes[0].name), name);
  }

  // ---------- if ----------

  /** An opening tag before the first closing tag makes it deep there, and nothing else does. */
  lemma DeepAtFirst(os: set<Tag>, ks: set<Tag>, c: Tag)
    requires forall k <- ks :: c.id <= k.id
    ensures Deep(os, ks, c.id) <==> exists p :: p in os && p.id < c.id
  {
    if Deep(os, ks, c.id) {
      var y: nat :| DeepSince(os, ks, c.id, y);
      assert Span(os, y, c.id) != {};
      var p :| p in Span(os, y, c.id);
    }
    if p :| p in os && p.id < c.id {
      assert p in Span(os, p.id, c.id);
      assert Span(ks, p.id, c.id) == {};
      assert DeepSince(os, ks, c.id, p.id);
    }
  }

  /** The first closing tag of a soluble name that has an opening tag before it finds its partner. */
  lemma FirstFindsPartner(st: State, c: Tag, ks: set<Tag>)
    requires Valid(st) && c in st.closes && c in ks && (forall k <- ks :: c.id <= k.id)
    requires Soluble(Of(st.opens, c.name), ks) && Deep(Of(st.opens, c.name), ks, c.id)
    ensures exists o :: Pairs(Elems(st.opens), o, c)
  {
    var os := Of(st.opens, c.name);
    DeepAtFirst(os, ks, c);
    var before := set o | o in os && o.id < c.id;
    var p :| p in os && p.id < c.id;
    assert p in before;
    var o := LastOf(before);
    var l := LastOf(os);
    assert forall q <- Elems(st.opens) :: q.name == c.name ==> q in os;
    assert l in Elems(st.opens) && l.id != c.id;
    if c.id < l.id {
      assert MoreAfter(Elems(st.opens), c);
    } else {
      assert !Deep(os, ks, l.id);
      DeepAtFirst(os, ks, l);
      forall q | q in os ensures q == l {
        if q != l { DistinctIds(st.opens, q, l); }
      }
    }
    assert Pairs(Elems(st.opens), o, c);
  }

  /** The tags of a name after its first closing tag has been looked at. */
  lemma FirstStep(st: State, c: Tag, ks: set<Tag>)
    requires Valid(st) && c in st.closes && c in ks
      && (forall k <- ks :: k.name == c.name && k in st.closes && (k == c || c.id < k.id))
    requires Soluble(Of(st.opens, c.name), ks)
    ensures var st', os := Step(st, c), Of(st.opens, c.name);
      && Soluble(Of(st'.opens, c.name), ks - {c})
      && (forall k <- ks - {c} :: Deep(os, ks, k.id) ==> Deep(Of(st'.opens, c.name), ks - {c}, k.id))
      && (if Deep(os, ks, c.id) then exists o :: Paired(st, c, o, st') else st' == st)
  {
    hide Step, Pairs, Valid, Of;
    var paired, o := StepPairs(st, c);
    var os := Of(st.opens, c.name);
    DeepAtFirst(os, ks, c);
    if paired {
      var st' := Step(st, c);
      PairedOf(st, c, o, st');
      PairsOf(st, c, o);
      assert Adjacent(os, ks, o, c);
      forall k | k in ks - {c} && Deep(os, ks, k.id) ensures Deep(os - {o}, ks - {c}, k.id) {
        DeepBehind(os, ks, o, c, k.id);
      }
      SolublePaired(os, ks, o, c);
    } else {
      if Deep(os, ks, c.id) { FirstFindsPartner(st, c, ks); }
      NoOpeningBefore(st, c, ks);
      forall k | k in ks - {c} && Deep(os, ks, k.id) ensures Deep(os, ks - {c}, k.id) {
        DeepFewer(os, ks, c, k.id);
      }
      SolubleAlone(os, ks, c);
    }
  }

  lemma NoOpeningBefore(st: State, c: Tag, ks: set<Tag>)
    requires Valid(st) && c in st.closes && (forall k <- ks :: c.id <= k.id)
    requires !Deep(Of(st.opens, c.name), ks, c.id)
    ensures forall o <- Of(st.opens, c.name) :: c.id < o.id
  {
    DeepAtFirst(Of(st.opens, c.name), ks, c);
  }

  lemma SolublePaired(os: set<Tag>, ks: set<Tag>, o: Tag, c: Tag)
    requires Adjacent(os, ks, o, c) && Soluble(os, ks) && ((exists p :: p in os && c.id < p.id) || os == {o})
    ensures Soluble(os - {o}, ks - {c})
  {
    forall l | IsLast(os - {o}, l) ensures !Deep(os - {o}, ks - {c}, l.id) && ClosedBehind(ks - {c}, l) {
      var p :| p in os && c.id < p.id;
      assert p in os - {o};
      assert IsLast(os, l) && c.id < l.id;
      if Deep(os - {o}, ks - {c}, l.id) { DeepBack(os, ks, o, c, l.id); }
      var k :| k in ks && k.id > l.id;
      assert k in ks - {c};
    }
  }

  lemma SolubleAlone(os: set<Tag>, ks: set<Tag>, c: Tag)
    requires c in ks && (forall o <- os :: c.id < o.id) && Soluble(os, ks)
    ensures Soluble(os, ks - {c})
  {
    forall l | IsLast(os, l) ensures !Deep(os, ks - {c}, l.id) && ClosedBehind(ks - {c}, l) {
      if Deep(os, ks - {c}, l.id) { DeepBackAlone(os, ks, c, l.id); }
      var k :| k in ks && k.id > l.id;
      assert k in ks - {c};
    }
  }

  /** A pass over a soluble name pairs all its opening tags, and all closing tags that close something. */
  lemma {:induction false} PassSolves(st: State, cs: seq<Tag>, name: string, useful: set<Tag>)
    requires Pending(st, cs) && (forall c <- cs :: c.name == name) && Soluble(Of(st.opens, name), Elems(cs))
    requires forall c <- cs :: c in useful ==> Deep(Of(st.opens, name), Elems(cs), c.id)
    ensures Valid(Pass(st, cs)) && Of(Pass(st, cs).opens, name) == {}
    ensures |Pass(st, cs).opens| == |st.opens| - |Of(st.opens, name)|
    ensures forall c <- Pass(st, cs).closes :: c in st.closes && (c in cs ==> c !in useful)
    decreases |cs|
  {
    hide Step, Pairs, Of, Soluble, Pending, Deep;
    if cs == [] {
      SolvedWhenNoneLeft(st, cs, name);
    } else {
      var c, st' := cs[0], Step(st, cs[0]);
      PendingFirst(st, cs);
      FirstStep(st, c, Elems(cs));
      TailElems(cs);
      PendingStep(st, cs);
      assert forall d <- cs[1..] :: d in cs && d in Elems(cs) - {c};
      PassSolves(st', cs[1..], name, useful);
      if Deep(Of(st.opens, name), Elems(cs), c.id) {
        var o :| Paired(st, c, o, st');
        PairedOf(st, c, o, st');
        assert c !in Elems(st'.closes);
        assert forall d <- st'.closes :: d in Elems(st'.closes) && d in st.closes;
      }
      forall d | d in Pass(st, cs).closes ensures d in st.closes && (d in cs ==> d !in useful) {
        if d in cs && d != c { assert d in Elems(cs[1..]); }
      }
    }
  }

  lemma TailElems(cs: seq<Tag>)
    requires Sorted(cs) && cs != []
    ensures Elems(cs[1..]) == Elems(cs) - {cs[0]}
  {
    forall t ensures t in Elems(cs[1..]) <==> t in Elems(cs) - {cs[0]} {
      if t in cs { TailOf(cs, t); }
      if t in cs[1..] { assert t in cs; }
    }
  }

  lemma PendingFirst(st: State, cs: seq<Tag>)
    requires Pending(st, cs) && cs != []
    ensures Valid(st) && Sorted(cs) && cs[0] in st.closes && cs[0] in Elems(cs)
    ensures forall k <- Elems(cs) :: k in st.closes && (k == cs[0] || cs[0].id < k.id)
  {
    forall k | k in Elems(cs) ensures k in st.closes && (k == cs[0] || cs[0].id < k.id) {
      TailOf(cs, k);
    }
  }

  lemma SolvedWhenNoneLeft(st: State, cs: seq<Tag>, name: string)
    requires Pending(st, cs) && cs == [] && Soluble(Of(st.opens, name), Elems(cs))
    ensures Valid(st) && Of(st.opens, name) == {}
  {
    var os := Of(st.opens, name);
    if os != {} {
      var l := LastOf(os);
      assert IsLast(os, l);
    }
  }

  /** A call on a document that will end pairs all opening tags of a name, and all closing tags that close them. */
  lemma CombineSolves(st: State)
    requires Valid(st) && WillEnd(st) && st.opens != []
    ensures st.closes != [] && Valid(Combine(st)) && |Combine(st).opens| < |st.opens|
    ensures var name, st' := st.closes[0].name, Combine(st);
      && Of(st'.opens, name) == {}
      && (forall c <- st'.closes :: c in st.closes && (c.name == name ==> !Useful(st, c)))
      && (forall other | other != name ::
        Of(st'.opens, other) == Of(st.opens, other) && Of(st'.closes, other) == Of(st.closes, other))
  {
    hide Pass, Soluble, Of, Useful;
    SomethingCloses(st);
    var name := st.closes[0].name;
    var cs := ByName(st.closes, name);
    CombinePending(st);
    FrontHasOpening(st);
    ListsAll(st, name);
    var useful := set c | c in st.closes && Useful(st, c);
    UsefulDeep(st, name);
    PassSolves(st, cs, name, useful);
    NonEmpty(Of(st.opens, name));
    forall c | c in Combine(st).closes && c.name == name ensures !Useful(st, c) {
      InByName(st, c);
    }
    forall other | other != name
      ensures Of(Combine(st).opens, other) == Of(st.opens, other)
        && Of(Combine(st).closes, other) == Of(st.closes, other)
    {
      PassOthers(st, cs, name, other);
    }
  }

  /** A call on a document that will end pairs an opening tag and leaves a document that will end. */
  lemma CombineEnds(st: State)
    requires Valid(st) && WillEnd(st) && st.opens != []
    ensures st.closes != [] && Valid(Combine(st)) && WillEnd(Combine(st)) && |Combine(st).opens| < |st.opens|
  {
    hide Combine, Soluble, Of, Useful;
    CombineSolves(st);
    var name, st' := st.closes[0].name, Combine(st);
    NoneSoluble(Of(st'.closes, name));
    forall other {:trigger Reached(st', other)} | Of(st'.opens, other) != {} ensures Reached(st', other) {
      forall c | c in st'.closes && forall d <- st'.closes :: d.name == other ==> c.id < d.id ensures Useful(st', c) {
        assert Reached(st, other);
        SameOf(st, st', other);
        assert Useful(st, c);
        SameUse(st, st', c);
      }
    }
  }

  /** The closing tags that close nothing. */
  ghost function Idle(st: State): set<Tag> {
    set c | c in st.closes && !Useful(st, c)
  }

  /** The same closing tags close nothing after a call. */
  lemma IdleStays(st: State)
    requires Valid(st) && WillEnd(st) && st.opens != []
    ensures Idle(Combine(st)) == Idle(st)
  {
    hide Pass, Useful, Of, WillEnd;
    CombineSolves(st);
    var name, st' := st.closes[0].name, Combine(st);
    CombinePending(st);
    forall c ensures c in Idle(st') <==> c in Idle(st) {
      if c.name != name {
        SameUse(st, st', c);
        SameOf(st, st', c.name);
      } else if c in Idle(st) {
        PassUseless(st, ByName(st.closes, name), name, c);
      }
    }
  }

  lemma IdleLeft(st: State)
    requires st.opens == []
    ensures Idle(st) == Elems(st.closes)
  {
    forall c | c in st.closes ensures !Useful(st, c) {
      NothingSoluble(st, c.name);
      if Useful(st, c) { SomeOpen(Of(st.opens, c.name), Of(st.closes, c.name), c.id); }
    }
  }

  lemma SomethingCloses(st: State)
    requires WillEnd(st) && st.opens != []
    ensures st.closes != []
  {
    var o := st.opens[0];
    assert o in Of(st.opens, o.name);
    var l := LastOf(Of(st.opens, o.name));
    assert IsLast(Of(st.opens, o.name), l);
    assert Soluble(Of(st.opens, o.name), Of(st.closes, o.name));
    var c :| c in Of(st.closes, o.name) && c.id > l.id;
  }

  /** The name of the first closing tag has an opening tag. */
  lemma FrontHasOpening(st: State)
    requires Valid(st) && WillEnd(st) && st.opens != [] && st.closes != []
    ensures Of(st.opens, st.closes[0].name) != {}
  {
    var front, name := st.closes[0], st.opens[0].name;
    assert st.opens[0] in Of(st.opens, name);
    if front.name != name {
      assert Reached(st, name);
      forall d | d in st.closes && d.name == name ensures front.id < d.id {
        FrontFirst(st.closes, d);
      }
      assert Useful(st, front);
      SomeOpen(Of(st.opens, front.name), Of(st.closes, front.name), front.id);
    }
  }

  lemma SomeOpen(os: set<Tag>, cs: set<Tag>, x: nat)
    requires Deep(os, cs, x)
    ensures os != {}
  {
    var y: nat :| DeepSince(os, cs, x, y);
    assert Span(os, y, x) <= os;
  }

  lemma ListsAll(st: State, name: string)
    ensures Elems(ByName(st.closes, name)) == Of(st.closes, name)
  {
  }

  lemma UsefulDeep(st: State, name: string)
    ensures forall c <- ByName(st.closes, name) :: Useful(st, c) ==>
      Deep(Of(st.opens, name), Elems(ByName(st.closes, name)), c.id)
  {
    ListsAll(st, name);
  }

  lemma NonEmpty(ts: set<Tag>)
    requires ts != {}
    ensures |ts| > 0
  {
  }

  lemma NoneSoluble(cs: set<Tag>)
    ensures Soluble({}, cs)
  {
  }

  lemma SameOf(st: State, st': State, name: string)
    requires Of(st'.closes, name) == Of(st.closes, name)
    ensures forall d: Tag :: d.name == name ==> (d in st.closes <==> d in st'.closes)
  {
    forall d: Tag | d.name == name ensures d in st.closes <==> d in st'.closes {
      assert d in Of(st.closes, name) <==> d in Of(st'.closes, name);
    }
  }

  lemma InByName(st: State, c: Tag)
    requires c in st.closes
    ensures c in ByName(st.closes, c.name)
  {
  }

  lemma SameUse(st: State, st': State, c: Tag)
    requires Of(st'.opens, c.name) == Of(st.opens, c.name) && Of(st'.closes, c.name) == Of(st.closes, c.name)
    ensures Useful(st', c) <==> Useful(st, c)
  {
  }

  lemma {:induction false} EndsLonger(st: State, k: nat, n: nat)
    requires Ends(st, k) && k <= n
    ensures Ends(st, n)
    decreases k
  {
    if st.opens != [] { EndsLonger(Combine(st), k - 1, n - 1); }
  }

  lemma {:induction false} WillEndEnds(st: State)
    requires Valid(st) && WillEnd(st)
    ensures Ends(st, |st.opens|)
    decreases |st.opens|
  {
    hide Combine, WillEnd;
    if st.opens != [] {
      CombineEnds(st);
      WillEndEnds(Combine(st));
      EndsLonger(Combine(st), |Combine(st).opens|, |st.opens| - 1);
    }
  }

  lemma EndingWillEnd(st: State, k: nat)
    requires Valid(st) && Ends(st, k)
    ensures WillEnd(st)
  {
    EndsNeeds(st, k);
    forall name {:trigger Reached(st, name)} | Of(st.opens, name) != {} ensures Reached(st, name) {
      forall c | c in st.closes && forall d <- st.closes :: d.name == name ==> c.id < d.id ensures Useful(st, c) {
        assert !Blocks(st, name, c);
      }
    }
  }

  /**
   * On any document the loop over CombineTags ends exactly when, for each name with opening tags, all
   * but the last are closed before the last, the last is closed too, and every closing tag in front of
   * the first one of the name closes something.
   */
  lemma EndsExactly(st: State)
    requires Valid(st)
    ensures (exists k: nat :: Ends(st, k)) <==> WillEnd(st)
  {
    if WillEnd(st) { WillEndEnds(st); }
    forall k: nat | Ends(st, k) ensures WillEnd(st) {
      EndingWillEnd(st, k);
    }
  }

  lemma {:induction false} FinishesIsEnds(st: State, k: nat)
    requires Finishes(st, k)
    ensures Ends(st, k)
    decreases k
  {
    if st.opens != [] { FinishesIsEnds(Combine(st), k - 1); }
  }

  lemma {:induction false} EndedIdle(st: State, k: nat)
    requires Valid(st) && Ends(st, k)
    ensures Run(st, k).opens == [] && Elems(Run(st, k).closes) == Idle(st)
    decreases k
  {
    hide Combine, WillEnd, Idle;
    if st.opens == [] {
      RunStays(st, k);
      IdleLeft(st);
    } else {
      EndingWillEnd(st, k);
      CombineEnds(st);
      EndedIdle(Combine(st), k - 1);
      IdleStays(st);
    }
  }

  /** When the loop has ended, its pairs are the matching of the tags without the closing tags that close nothing. */
  lemma EndedPairs(st: State, k: nat)
    requires Valid(st) && st.pairs == [] && Ends(st, k)
    ensures Matching(PairSet(Run(st, k).pairs), Elems(st.opens), Elems(st.closes) - Idle(st))
  {
    UnpairedSafe(st);
    EndedIdle(st, k);
    RunPairs(st, k);
  }

  /** A document is resolvable exactly when the loop ends on it and every closing tag closes something. */
  lemma ResolvableWillEnd(st: State)
    requires Valid(st)
    ensures AllResolvable(st) <==> WillEnd(st) && Idle(st) == {}
  {
    hide AllResolvable, WillEnd, Idle;
    if AllResolvable(st) {
      ResolvableFinishes(st);
      FinishesIsEnds(st, |st.opens|);
      EndingWillEnd(st, |st.opens|);
      EndedIdle(st, |st.opens|);
      RunEnds(st, |st.opens|);
    }
    if WillEnd(st) && Idle(st) == {} {
      WillEndEnds(st);
      EndedFinishes(st, |st.opens|);
      FinishesExactly(st);
    }
  }

  lemma NoElems(ts: seq<Tag>)
    ensures ts != [] ==> Elems(ts) != {}
  {
    if ts != [] { assert ts[0] in Elems(ts); }
  }

  lemma {:induction false} EndedFinishes(st: State, k: nat)
    requires Valid(st) && Ends(st, k) && Idle(st) == {}
    ensures Finishes(st, k)
    decreases k
  {
    hide Combine, WillEnd, Idle;
    if st.opens == [] {
      IdleLeft(st);
      NoElems(st.closes);
    } else {
      EndingWillEnd(st, k);
      CombineEnds(st);
      IdleStays(st);
      EndedFinishes(Combine(st), k - 1);
    }
  }
}

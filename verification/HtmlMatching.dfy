/** Exactly when pairing comes to an end with every tag paired, and which pairs it then has made. */
module HtmlMatching {
  import opened HtmlTags
  import opened HtmlPairing

  ghost function Of(ts: seq<Tag>, name: string): set<Tag> {
    set t | t in ts && t.name == name
  }

  ghost function Upto(ts: seq<Tag>, name: string, x: nat): set<Tag> {
    set t | t in ts && t.name == name && t.id < x
  }

  /** The tags of the name are balanced: as many closing as opening, and nowhere more so far. */
  ghost predicate Balanced(st: State, name: string) {
    && |Of(st.closes, name)| == |Of(st.opens, name)|
    && forall x: nat :: |Upto(st.closes, name, x)| <= |Upto(st.opens, name, x)|
  }

  /** The closing tags of the name behind all its opening tags. */
  ghost function Late(st: State, name: string): set<Tag> {
    set c | c in st.closes && c.name == name && forall o <- st.opens :: o.name == name ==> o.id < c.id
  }

  /** Balanced, and the last opening tag is closed at once and outside all others. */
  ghost predicate Resolvable(st: State, name: string) {
    Balanced(st, name) && (Of(st.opens, name) != {} ==> |Late(st, name)| == 1)
  }

  /** Within k calls the loop over CombineTags ends, and nothing is left unpaired. */
  ghost predicate Finishes(st: State, k: nat)
    decreases k
  {
    if st.opens == [] then st.closes == []
    else st.closes != [] && k > 0 && Finishes(Combine(st), k - 1)
  }

  // ---------- only if ----------

  lemma PairedSets(st: State, c: Tag, o: Tag, st': State, name: string, x: nat)
    requires Paired(st, c, o, st')
    ensures Of(st'.opens, name) == Of(st.opens, name) - {o} && Of(st'.closes, name) == Of(st.closes, name) - {c}
    ensures Upto(st'.opens, name, x) == Upto(st.opens, name, x) - {o}
    ensures Upto(st'.closes, name, x) == Upto(st.closes, name, x) - {c}
  {
    hide Pairs;
    assert forall t :: t in st'.opens <==> t in Elems(st'.opens);
    assert forall t :: t in st'.closes <==> t in Elems(st'.closes);
    assert forall t :: t in st.opens <==> t in Elems(st.opens);
    assert forall t :: t in st.closes <==> t in Elems(st.closes);
  }

  /** Pairing takes an opening tag and a later closing tag: what is balanced after it was so before. */
  lemma BalancedBefore(st: State, c: Tag, o: Tag, st': State, name: string)
    requires Paired(st, c, o, st') && Balanced(st', name)
    ensures Balanced(st, name)
  {
    hide Of, Upto;
    PairedSets(st, c, o, st', name, 0);
    OfMember(st, c, o, name);
    forall x: nat ensures |Upto(st.closes, name, x)| <= |Upto(st.opens, name, x)| {
      PairedSets(st, c, o, st', name, x);
      UptoMember(st, c, o, name, x);
      assert |Upto(st'.closes, name, x)| <= |Upto(st'.opens, name, x)|;
    }
  }

  lemma OfMember(st: State, c: Tag, o: Tag, name: string)
    requires o in st.opens && c in st.closes && o.name == c.name
    ensures o in Of(st.opens, name) <==> o.name == name
    ensures c in Of(st.closes, name) <==> o.name == name
  {
  }

  lemma UptoMember(st: State, c: Tag, o: Tag, name: string, x: nat)
    requires o in st.opens && c in st.closes && o.name == c.name
    ensures o in Upto(st.opens, name, x) <==> o.name == name && o.id < x
    ensures c in Upto(st.closes, name, x) <==> o.name == name && c.id < x
  {
  }

  /** A name that will keep closing tags: no opening tag is left for them, or two come behind them all. */
  ghost predicate Doomed(st: State, name: string) {
    && Of(st.closes, name) != {}
    && (Of(st.opens, name) == {} || exists c, d :: c in Late(st, name) && d in Late(st, name) && c != d)
  }

  /** A closing tag with an opening tag still behind it leaves what comes behind that one alone. */
  lemma LateStays(st: State, c: Tag, o: Tag, st': State, e: Tag)
    requires Paired(st, c, o, st') && MoreAfter(Elems(st.opens), c) && e in Late(st, c.name)
    ensures e in Late(st', c.name) && e != c
  {
    hide Pairs;
    var p :| p in Elems(st.opens) && p.name == c.name && p.id > c.id;
    assert p in st.opens && p.id < e.id;
    assert e in Elems(st'.closes);
    forall q | q in st'.opens && q.name == c.name ensures q.id < e.id {
      assert q in Elems(st'.opens);
      assert q in st.opens;
    }
  }

  /** The only opening tag has found its partner: another closing tag behind it stays alone. */
  lemma LastOneTaken(st: State, c: Tag, o: Tag, st': State, g: Tag)
    requires Paired(st, c, o, st') && !MoreAfter(Elems(st.opens), c) && g in Of(st.closes, c.name) && g != c
    ensures Of(st'.opens, c.name) == {} && g in Of(st'.closes, c.name)
  {
    PairedSets(st, c, o, st', c.name, 0);
    forall q | q in Of(st.opens, c.name) ensures q == o {
      assert q in Elems(st.opens);
    }
  }

  lemma DoomedStays(st: State, c: Tag, name: string)
    requires Valid(st) && c in st.closes && Doomed(st, name)
    ensures Doomed(Step(st, c), name)
  {
    hide Step, Valid, Pairs, MoreAfter, Late, Of;
    var paired, o := StepPairs(st, c);
    var st' := Step(st, c);
    if paired && c.name == name {
      DoomedPaired(st, c, o, st');
    } else if paired {
      PairedSets(st, c, o, st', name, 0);
      OtherName(st, c, o, name);
      LateByOf(st, st', name);
    }
  }

  lemma OtherName(st: State, c: Tag, o: Tag, name: string)
    requires Pairs(Elems(st.opens), o, c) && c.name != name
    ensures o !in Of(st.opens, name) && c !in Of(st.closes, name)
  {
  }

  lemma DoomedPaired(st: State, c: Tag, o: Tag, st': State)
    requires Paired(st, c, o, st') && Doomed(st, c.name)
    ensures Doomed(st', c.name)
  {
    hide MoreAfter;
    assert o in Elems(st.opens) && o in Of(st.opens, c.name);
    var e, f :| e in Late(st, c.name) && f in Late(st, c.name) && e != f;
    if MoreAfter(Elems(st.opens), c) {
      LateStays(st, c, o, st', e);
      LateStays(st, c, o, st', f);
      assert e in Of(st'.closes, c.name);
    } else {
      LastOneTaken(st, c, o, st', if e == c then f else e);
    }
  }

  lemma LateByOf(st: State, st': State, name: string)
    requires Of(st'.opens, name) == Of(st.opens, name) && Of(st'.closes, name) == Of(st.closes, name)
    ensures Late(st', name) == Late(st, name)
  {
    assert forall t: Tag :: t.name == name ==> (t in st.opens <==> t in Of(st.opens, name));
    assert forall t: Tag :: t.name == name ==> (t in st'.opens <==> t in Of(st'.opens, name));
    assert forall t: Tag :: t.name == name ==> (t in st.closes <==> t in Of(st.closes, name));
    assert forall t: Tag :: t.name == name ==> (t in st'.closes <==> t in Of(st'.closes, name));
  }

  lemma {:induction false} PassBack(st: State, cs: seq<Tag>, name: string)
    requires Pending(st, cs)
    ensures Valid(Pass(st, cs))
    ensures Balanced(Pass(st, cs), name) ==> Balanced(st, name)
    ensures Doomed(st, name) ==> Doomed(Pass(st, cs), name)
    decreases |cs|
  {
    hide Balanced, Doomed, Step;
    if cs != [] {
      var st' := Step(st, cs[0]);
      PendingStep(st, cs);
      PassBack(st', cs[1..], name);
      var paired, o := StepPairs(st, cs[0]);
      if paired && Balanced(st', name) { BalancedBefore(st, cs[0], o, st', name); }
      if Doomed(st, name) { DoomedStays(st, cs[0], name); }
    }
  }

  /** If every tag gets paired, every name is balanced and none is doomed. */
  lemma {:induction false} FinishingNeeds(st: State, k: nat, name: string)
    requires Valid(st) && Finishes(st, k)
    ensures Balanced(st, name) && !Doomed(st, name)
    decreases k
  {
    if st.opens == [] {
      assert Of(st.closes, name) == {} && forall x: nat :: Upto(st.closes, name, x) == {};
    } else {
      CombinePending(st);
      PassBack(st, ByName(st.closes, st.closes[0].name), name);
      FinishingNeeds(Combine(st), k - 1, name);
    }
  }

  /** Balanced tags of a name end with a closing tag. */
  lemma BalancedEndsLate(st: State, name: string)
    requires Valid(st) && Balanced(st, name) && Of(st.opens, name) != {}
    ensures Late(st, name) != {} && Of(st.closes, name) != {}
  {
    var o := LastOf(Of(st.opens, name));
    assert Upto(st.opens, name, o.id) == Of(st.opens, name) - {o};
    assert Upto(st.closes, name, o.id) != Of(st.closes, name);
    if Late(st, name) == {} {
      forall c | c in Of(st.closes, name) ensures c.id < o.id {
        assert c !in Late(st, name);
        var p :| p in st.opens && p.name == name && p.id >= c.id;
        assert p in Of(st.opens, name);
        assert o.id != c.id;
      }
      assert false;
    }
  }

  lemma ResolvableNeeded(st: State, k: nat, name: string)
    requires Valid(st) && Finishes(st, k)
    ensures Resolvable(st, name)
  {
    FinishingNeeds(st, k, name);
    if Of(st.opens, name) != {} {
      BalancedEndsLate(st, name);
      var c :| c in Late(st, name);
      assert Late(st, name) == {c};
    }
  }

  // ---------- if ----------

  /** cs lists the closing tags of the name. */
  ghost predicate Lists(st: State, cs: seq<Tag>, name: string) {
    Pending(st, cs) && Elems(cs) == Of(st.closes, name)
  }

  /** The next closing tag of a resolvable name finds its partner. */
  lemma FindsPartner(st: State, cs: seq<Tag>, name: string)
    requires Lists(st, cs, name) && cs != [] && Resolvable(st, name)
    ensures exists o :: Pairs(Elems(st.opens), o, cs[0])
  {
    var c := cs[0];
    assert c in Elems(cs);
    var x := c.id + 1;
    assert c in Upto(st.closes, name, x);
    assert |Upto(st.closes, name, x)| <= |Upto(st.opens, name, x)|;
    var o := LastOf(Upto(st.opens, name, x));
    assert LastBefore(Elems(st.opens), o, c);
    assert o in Of(st.opens, name);
    if |cs| == 1 {
      Singleton(cs, c);
      assert Of(st.closes, name) == {c};
      OneElement(Of(st.opens, name), o);
      assert forall p <- Elems(st.opens) :: p.name == name ==> p in Of(st.opens, name);
      assert OnlyOne(Elems(st.opens), o);
    } else {
      NotLate(st, cs, name);
    }
    assert Pairs(Elems(st.opens), o, c);
  }

  lemma Singleton(cs: seq<Tag>, c: Tag)
    requires |cs| == 1 && cs[0] == c
    ensures Elems(cs) == {c}
  {
  }

  lemma OneElement(ts: set<Tag>, t: Tag)
    requires |ts| == 1 && t in ts
    ensures ts == {t}
  {
    assert |ts - {t}| == 0;
  }

  /** Only the last closing tag of a resolvable name has no opening tag behind it. */
  lemma NotLate(st: State, cs: seq<Tag>, name: string)
    requires Lists(st, cs, name) && |cs| >= 2 && Resolvable(st, name) && Of(st.opens, name) != {}
    ensures cs[0] !in Late(st, name) && MoreAfter(Elems(st.opens), cs[0])
  {
    var c, d := cs[0], cs[1];
    assert c in Elems(cs) && d in Elems(cs) && c.id < d.id;
    if c in Late(st, name) {
      assert d in Late(st, name);
      OneElement(Late(st, name), c);
      assert false;
    }
    var p :| p in st.opens && p.name == name && p.id >= c.id;
    assert p in Elems(st.opens);
  }

  lemma PairedNames(st: State, c: Tag, o: Tag, st': State)
    requires Paired(st, c, o, st')
    ensures o.name == c.name && o.id < c.id
  {
  }

  /** Up to the first closing tag there are none, and from there on both sides lose one. */
  lemma StillBalanced(st: State, cs: seq<Tag>, name: string, o: Tag, st': State, x: nat)
    requires Lists(st, cs, name) && cs != [] && Balanced(st, name) && Paired(st, cs[0], o, st') && cs[0].name == name
    ensures |Upto(st'.closes, name, x)| <= |Upto(st'.opens, name, x)|
  {
    hide Pairs;
    var c := cs[0];
    PairedNames(st, c, o, st');
    PairedSets(st, c, o, st', name, x);
    UptoMember(st, c, o, name, x);
    assert |Upto(st.closes, name, x)| <= |Upto(st.opens, name, x)|;
    if x <= c.id {
      forall t | t in Upto(st.closes, name, x) ensures false {
        assert t in Of(st.closes, name);
        assert t in Elems(cs);
        TailOf(cs, t);
      }
      assert Upto(st'.closes, name, x) == {};
    }
  }

  lemma LateKept(st: State, cs: seq<Tag>, name: string, o: Tag, st': State)
    requires Lists(st, cs, name) && cs != [] && Resolvable(st, name) && Paired(st, cs[0], o, st') && cs[0].name == name
    requires Of(st'.opens, name) != {}
    ensures |Late(st', name)| == 1
  {
    var c := cs[0];
    PairedSets(st, c, o, st', name, 0);
    assert o in Elems(st.opens) && o in Of(st.opens, name);
    MoreThanOne(st, cs, name, o, st');
    NotLate(st, cs, name);
    forall e | e in Late(st, name) ensures e in Late(st', name) {
      LateStays(st, c, o, st', e);
    }
    forall e | e in Late(st', name) ensures e in Late(st, name) {
      LateWas(st, c, o, st', e);
    }
    assert Late(st', name) == Late(st, name);
  }

  lemma MoreThanOne(st: State, cs: seq<Tag>, name: string, o: Tag, st': State)
    requires Lists(st, cs, name) && cs != [] && Balanced(st, name) && o in Of(st.opens, name)
    requires Of(st'.opens, name) == Of(st.opens, name) - {o} && Of(st'.opens, name) != {}
    ensures |cs| >= 2
  {
    if |cs| == 1 {
      Singleton(cs, cs[0]);
      OneElement(Of(st.opens, name), o);
    }
  }

  /** What is behind all opening tags that are left is behind the one that has been paired too. */
  lemma LateWas(st: State, c: Tag, o: Tag, st': State, e: Tag)
    requires Paired(st, c, o, st') && MoreAfter(Elems(st.opens), c) && e in Late(st', c.name)
    ensures e in Late(st, c.name)
  {
    hide Pairs;
    PairedNames(st, c, o, st');
    var p :| p in Elems(st.opens) && p.name == c.name && p.id > c.id;
    assert p in Elems(st'.opens);
    assert p in st'.opens;
    assert e in Elems(st'.closes);
    forall q | q in st.opens && q.name == c.name ensures q.id < e.id {
      assert q in Elems(st.opens);
      if q != o {
        assert q in Elems(st'.opens);
        assert q in st'.opens;
      }
    }
  }

  /** Pairing the first closing tag of a resolvable name leaves the name resolvable. */
  lemma StaysResolvable(st: State, cs: seq<Tag>, name: string, o: Tag, st': State)
    requires Lists(st, cs, name) && cs != [] && Resolvable(st, name) && Paired(st, cs[0], o, st') && cs[0].name == name
    ensures Resolvable(st', name)
  {
    hide Pairs, Late, Of, Upto, Lists;
    var c := cs[0];
    PairedNames(st, c, o, st');
    OfMember(st, c, o, name);
    PairedSets(st, c, o, st', name, 0);
    forall x: nat ensures |Upto(st'.closes, name, x)| <= |Upto(st'.opens, name, x)| {
      StillBalanced(st, cs, name, o, st', x);
    }
    if Of(st'.opens, name) != {} {
      LateKept(st, cs, name, o, st');
    }
  }

  lemma OthersResolvable(st: State, c: Tag, o: Tag, st': State, name: string)
    requires Paired(st, c, o, st') && c.name != name && Resolvable(st, name)
    ensures Resolvable(st', name)
  {
    hide Pairs, Late;
    PairedNames(st, c, o, st');
    OfMember(st, c, o, name);
    PairedSets(st, c, o, st', name, 0);
    LateByOf(st, st', name);
    forall x: nat ensures |Upto(st'.closes, name, x)| <= |Upto(st'.opens, name, x)| {
      PairedSets(st, c, o, st', name, x);
      UptoMember(st, c, o, name, x);
      assert |Upto(st.closes, name, x)| <= |Upto(st.opens, name, x)|;
    }
  }

  ghost predicate AllResolvable(st: State) {
    forall name :: Resolvable(st, name)
  }

  lemma ListsStep(st: State, cs: seq<Tag>, name: string, o: Tag, st': State)
    requires Lists(st, cs, name) && cs != [] && Paired(st, cs[0], o, st') && st' == Step(st, cs[0])
    ensures Lists(st', cs[1..], name)
  {
    hide Pairs, Step;
    PendingStep(st, cs);
    PairedSets(st, cs[0], o, st', name, 0);
    forall t ensures t in Elems(cs[1..]) <==> t in Elems(cs) - {cs[0]} {
      if t in Elems(cs) { TailOf(cs, t); }
      if t in cs[1..] { assert t in cs; TailOf(cs, t); }
    }
    assert Elems(cs[1..]) == Elems(cs) - {cs[0]};
  }

  /** A pass over a resolvable name pairs all its tags. */
  lemma {:induction false} PassResolves(st: State, cs: seq<Tag>, name: string)
    requires Lists(st, cs, name) && AllResolvable(st) && forall c <- cs :: c.name == name
    ensures AllResolvable(Pass(st, cs)) && Valid(Pass(st, cs))
    ensures |Pass(st, cs).opens| == |st.opens| - |cs|
    decreases |cs|
  {
    hide Pairs, Step, Resolvable, Lists;
    if cs != [] {
      var c, st' := cs[0], Step(st, cs[0]);
      ListsFacts(st, cs, name);
      assert Resolvable(st, name);
      FindsPartner(st, cs, name);
      var paired, o := StepPairs(st, c);
      assert |multiset(st'.opens)| == |multiset(st.opens)| - 1;
      forall other: string ensures Resolvable(st', other) {
        assert Resolvable(st, other);
        if other == name {
          StaysResolvable(st, cs, name, o, st');
        } else {
          OthersResolvable(st, c, o, st', other);
        }
      }
      ListsStep(st, cs, name, o, st');
      PassResolves(st', cs[1..], name);
    } else {
      ListsFacts(st, cs, name);
    }
  }

  lemma ListsFacts(st: State, cs: seq<Tag>, name: string)
    requires Lists(st, cs, name)
    ensures Valid(st) && (cs != [] ==> cs[0] in st.closes)
  {
  }

  lemma {:induction false} FinishesLonger(st: State, k: nat, n: nat)
    requires Finishes(st, k) && k <= n
    ensures Finishes(st, n)
    decreases k
  {
    if st.opens != [] {
      FinishesLonger(Combine(st), k - 1, n - 1);
    }
  }

  /** Every call on a resolvable document pairs all tags of a name, and leaves a resolvable document. */
  lemma CombineProgress(st: State)
    requires Valid(st) && AllResolvable(st) && st.opens != []
    ensures st.closes != [] && Valid(Combine(st)) && AllResolvable(Combine(st))
    ensures |Combine(st).opens| < |st.opens|
  {
    hide Pass, ByName;
    ClosingLeft(st);
    var name := st.closes[0].name;
    var cs := ByName(st.closes, name);
    CombinePending(st);
    assert Elems(cs) == Of(st.closes, name);
    assert st.closes[0] in cs;
    PassResolves(st, cs, name);
  }

  lemma {:induction false} ResolvableFinishes(st: State)
    requires Valid(st) && AllResolvable(st)
    ensures Finishes(st, |st.opens|)
    decreases |st.opens|
  {
    hide Combine;
    if st.opens == [] {
      NothingLeft(st);
    } else {
      CombineProgress(st);
      ResolvableFinishes(Combine(st));
      FinishesLonger(Combine(st), |Combine(st).opens|, |st.opens| - 1);
    }
  }

  lemma NoneOfName(st: State, name: string)
    requires Resolvable(st, name) && st.opens == []
    ensures Of(st.closes, name) == {}
  {
    assert Of(st.opens, name) == {};
  }

  lemma NothingLeft(st: State)
    requires AllResolvable(st) && st.opens == []
    ensures st.closes == []
  {
    hide Resolvable;
    if st.closes != [] {
      assert st.closes[0] in Of(st.closes, st.closes[0].name);
      assert Resolvable(st, st.closes[0].name);
      NoneOfName(st, st.closes[0].name);
    }
  }

  lemma ClosingLeft(st: State)
    requires AllResolvable(st) && st.opens != []
    ensures st.closes != []
  {
    var o := st.opens[0];
    assert Resolvable(st, o.name);
    assert o in Of(st.opens, o.name);
    assert st.closes == [] ==> Of(st.closes, o.name) == {};
  }

  /**
   * The loop over CombineTags ends with every tag paired exactly when, for each name, the tags are
   * balanced and one closing tag only comes behind the last opening tag.
   */
  lemma FinishesExactly(st: State)
    requires Valid(st)
    ensures (exists k: nat :: Finishes(st, k)) <==> AllResolvable(st)
  {
    if AllResolvable(st) {
      ResolvableFinishes(st);
    }
    forall k: nat, name | Finishes(st, k) ensures Resolvable(st, name) {
      ResolvableNeeded(st, k, name);
    }
  }

  ghost predicate IsNestedPair(st: State) {
    st.opens == [Tag("ul", 0), Tag("ul", 1)] && st.closes == [Tag("ul", 2), Tag("ul", 3)]
  }

  lemma NestedPairStays(st: State)
    requires IsNestedPair(st)
    ensures Combine(st) == st
  {
    var c, d := Tag("ul", 2), Tag("ul", 3);
    assert ByName(st.opens[..1], "ul") == [Tag("ul", 0)] by { assert st.opens[..1][..0] == []; }
    assert ByName(st.opens, "ul") == st.opens;
    assert ByName(st.closes[..1], "ul") == [c] by { assert st.closes[..1][..0] == []; }
    assert ByName(st.closes, "ul") == st.closes;
    assert Partner(st.opens, c, 2).None? && Partner(st.opens, c, 1).None?;
    assert Partner(st.opens, d, 2).None? && Partner(st.opens, d, 1).None?;
    assert Step(st, c) == st && Step(st, d) == st;
    assert Pass(st, [d]) == st;
    assert st.closes[1..] == [d];
  }

  /** A pair inside a pair: no call pairs anything, and the loop goes on for ever. */
  lemma {:induction false} NestedPairSpins(st: State, k: nat)
    requires IsNestedPair(st)
    ensures Combine(st) == st && Run(st, k) == st && !Finishes(st, k)
    decreases k
  {
    hide Combine;
    NestedPairStays(st);
    if k > 0 { NestedPairSpins(st, k - 1); }
  }

  // ---------- which pairs ----------

  ghost predicate OpensPair(ps: set<(Tag, Tag)>, o: Tag) {
    exists p :: p in ps && p.0 == o
  }

  ghost predicate ClosesPair(ps: set<(Tag, Tag)>, c: Tag) {
    exists p :: p in ps && p.1 == c
  }

  /** Two pairs share no tag, and those of a name do not cross. */
  ghost predicate Compatible(p: (Tag, Tag), q: (Tag, Tag)) {
    p.0 != q.0 && p.1 != q.1 && (p.0.name == q.0.name ==> !(p.0.id < q.0.id < p.1.id < q.1.id))
  }

  /**
   * Every opening tag of os and every closing tag of cs is in one pair, of one name, and pairs of a name do
   * not cross.
   */
  ghost predicate Matching(ps: set<(Tag, Tag)>, os: set<Tag>, cs: set<Tag>) {
    && (forall p <- ps :: p.0 in os && p.1 in cs && PairOk(p))
    && (forall o {:trigger OpensPair(ps, o)} | o in os :: OpensPair(ps, o))
    && (forall c {:trigger ClosesPair(ps, c)} | c in cs :: ClosesPair(ps, c))
    && (forall p, q {:trigger Compatible(p, q)} | p in ps && q in ps && p != q :: Compatible(p, q))
  }

  ghost function PairSet(ps: seq<(Tag, Tag)>): set<(Tag, Tag)> {
    set p | p in ps
  }

  ghost predicate DistinctNumbers(ts: set<Tag>) {
    forall t <- ts, u <- ts :: t != u ==> t.id != u.id
  }

  /** In a matching the first closing tag goes with the last opening tag of its name before it. */
  lemma FirstIsForced(ps: set<(Tag, Tag)>, os: set<Tag>, cs: set<Tag>, p: (Tag, Tag))
    requires Matching(ps, os, cs) && p in ps && forall d <- cs :: p.1.id <= d.id
    requires DistinctNumbers(cs)
    ensures LastBefore(os, p.0, p.1)
  {
    forall o | o in os && o.name == p.1.name && o.id < p.1.id ensures o.id <= p.0.id {
      assert OpensPair(ps, o);
      var q :| q in ps && q.0 == o;
      if q != p {
        assert Compatible(p, q);
        assert p.1.id < q.1.id;
      }
    }
  }

  lemma {:induction false} FirstOf(ts: set<Tag>) returns (t: Tag)
    requires ts != {}
    ensures t in ts && forall u <- ts :: t.id <= u.id
    decreases ts
  {
    t :| t in ts;
    if ts != {t} {
      var u := FirstOf(ts - {t});
      if u.id < t.id { t := u; }
    }
  }

  lemma WithoutPair(ps: set<(Tag, Tag)>, os: set<Tag>, cs: set<Tag>, p: (Tag, Tag))
    requires Matching(ps, os, cs) && p in ps
    ensures Matching(ps - {p}, os - {p.0}, cs - {p.1})
  {
    var ps', os', cs' := ps - {p}, os - {p.0}, cs - {p.1};
    forall q | q in ps' ensures q.0 in os' && q.1 in cs' {
      assert Compatible(p, q);
    }
    forall o {:trigger OpensPair(ps', o)} | o in os' ensures OpensPair(ps', o) {
      assert OpensPair(ps, o);
      var q :| q in ps && q.0 == o;
      assert q in ps';
    }
    forall c {:trigger ClosesPair(ps', c)} | c in cs' ensures ClosesPair(ps', c) {
      assert ClosesPair(ps, c);
      var q :| q in ps && q.1 == c;
      assert q in ps';
    }
  }

  /** There is one matching only. */
  lemma {:induction false} MatchingUnique(ps: set<(Tag, Tag)>, qs: set<(Tag, Tag)>, os: set<Tag>, cs: set<Tag>)
    requires Matching(ps, os, cs) && Matching(qs, os, cs) && DistinctNumbers(os) && DistinctNumbers(cs)
    ensures ps == qs
    decreases cs
  {
    hide LastBefore, Compatible, PairOk, DistinctNumbers;
    if cs == {} {
      assert forall o | o in os :: OpensPair(ps, o);
    } else {
      var c := FirstOf(cs);
      assert ClosesPair(ps, c) && ClosesPair(qs, c);
      var p :| p in ps && p.1 == c;
      var q :| q in qs && q.1 == c;
      FirstIsForced(ps, os, cs, p);
      FirstIsForced(qs, os, cs, q);
      LastBeforeUnique(os, p.0, q.0, c);
      WithoutPair(ps, os, cs, p);
      WithoutPair(qs, os, cs, q);
      FewerDistinct(os, cs, p.0, c);
      MatchingUnique(ps - {p}, qs - {q}, os - {p.0}, cs - {c});
      assert ps == (ps - {p}) + {p} && qs == (qs - {q}) + {q};
    }
  }

  lemma FewerDistinct(os: set<Tag>, cs: set<Tag>, o: Tag, c: Tag)
    requires DistinctNumbers(os) && DistinctNumbers(cs)
    ensures DistinctNumbers(os - {o}) && DistinctNumbers(cs - {c})
  {
  }

  lemma LastBeforeUnique(os: set<Tag>, o: Tag, p: Tag, c: Tag)
    requires LastBefore(os, o, c) && LastBefore(os, p, c) && DistinctNumbers(os)
    ensures o == p
  {
  }

  lemma SortedDistinct(ts: seq<Tag>)
    requires Sorted(ts)
    ensures DistinctNumbers(Elems(ts)) && forall t <- ts :: multiset(ts)[t] == 1
    decreases |ts|
  {
    forall t, u | t in Elems(ts) && u in Elems(ts) && t != u ensures t.id != u.id {
      DistinctIds(ts, t, u);
    }
    if ts != [] {
      assert ts == [ts[0]] + ts[1..];
      SortedDistinct(ts[1..]);
      forall t | t in ts ensures multiset(ts)[t] == 1 {
        TailOf(ts, t);
      }
    }
  }

  lemma {:induction false} RunEnds(st: State, k: nat)
    requires Finishes(st, k)
    ensures Run(st, k).opens == [] && Run(st, k).closes == []
    decreases k
  {
    if st.opens == [] {
      RunStays(st, k);
    } else {
      RunEnds(Combine(st), k - 1);
    }
  }

  lemma {:induction false} RunStays(st: State, k: nat)
    requires st.opens == []
    ensures Run(st, k) == st
    decreases k
  {
    if k > 0 { RunStays(st, k - 1); }
  }

  /** Tags listed without repetition, divided in two. */
  lemma OncePerTag(ts: seq<Tag>, us: seq<Tag>, left: seq<Tag>)
    requires Sorted(ts) && multiset(us) + multiset(left) == multiset(ts)
    ensures forall t :: t in us <==> t in Elems(ts) - Elems(left)
    ensures forall i, j | 0 <= i < j < |us| :: us[i] != us[j]
  {
    SortedDistinct(ts);
    assert forall t :: t in ts <==> t in multiset(ts);
    forall t ensures t in us <==> t in Elems(ts) - Elems(left) {
      assert t in us <==> t in multiset(us);
      assert t in left <==> t in multiset(left);
    }
    forall i, j | 0 <= i < j < |us| ensures us[i] != us[j] {
      assert us == us[..i] + [us[i]] + us[i + 1..j] + [us[j]] + us[j + 1..];
      assert us[i] in multiset(us);
    }
  }

  /** A run that leaves no opening tag unpaired has made the matching of the tags that did not stay. */
  lemma RunPairs(st: State, k: nat)
    requires Safe(st) && st.pairs == [] && Run(st, k).opens == []
    ensures Matching(PairSet(Run(st, k).pairs), Elems(st.opens), Elems(st.closes) - Elems(Run(st, k).closes))
  {
    hide Run;
    var e := Run(st, k);
    RunSafe(st, k);
    assert Firsts(st.pairs) == [] && Seconds(st.pairs) == [];
    assert multiset(st.opens) == Openings(st) && multiset(st.closes) == Closings(st);
    assert multiset(Firsts(e.pairs)) == Openings(e) && multiset(Seconds(e.pairs)) + multiset(e.closes) == Closings(e);
    OncePerTag(st.opens, Firsts(e.pairs), e.opens);
    OncePerTag(st.closes, Seconds(e.pairs), e.closes);
    ListExhausts(e.pairs, Elems(st.opens), Elems(st.closes) - Elems(e.closes));
    SafeMatching(e, Elems(st.opens), Elems(st.closes) - Elems(e.closes));
  }

  /** When pairing finishes, its pairs are the matching of the document. */
  lemma FinishedPairs(st: State, k: nat)
    requires Safe(st) && st.pairs == [] && Finishes(st, k)
    ensures Matching(PairSet(Run(st, k).pairs), Elems(st.opens), Elems(st.closes))
  {
    RunEnds(st, k);
    RunPairs(st, k);
  }

  /** Pairs of all the tags of os and cs, each in one pair. */
  ghost predicate Exhausts(ps: seq<(Tag, Tag)>, os: set<Tag>, cs: set<Tag>) {
    && (forall i | 0 <= i < |ps| :: ps[i].0 in os && ps[i].1 in cs)
    && (forall o {:trigger OpensPair(PairSet(ps), o)} | o in os :: OpensPair(PairSet(ps), o))
    && (forall c {:trigger ClosesPair(PairSet(ps), c)} | c in cs :: ClosesPair(PairSet(ps), c))
    && (forall i, j | 0 <= i < j < |ps| :: ps[i].0 != ps[j].0 && ps[i].1 != ps[j].1)
  }

  lemma ListExhausts(ps: seq<(Tag, Tag)>, os: set<Tag>, cs: set<Tag>)
    requires (forall t :: t in Firsts(ps) <==> t in os) && (forall t :: t in Seconds(ps) <==> t in cs)
    requires forall i, j | 0 <= i < j < |ps| :: Firsts(ps)[i] != Firsts(ps)[j]
    requires forall i, j | 0 <= i < j < |ps| :: Seconds(ps)[i] != Seconds(ps)[j]
    ensures Exhausts(ps, os, cs)
  {
    assert forall i | 0 <= i < |ps| :: Firsts(ps)[i] == ps[i].0 && Seconds(ps)[i] == ps[i].1;
    forall o {:trigger OpensPair(PairSet(ps), o)} | o in os ensures OpensPair(PairSet(ps), o) {
      var i :| 0 <= i < |ps| && Firsts(ps)[i] == o;
      assert ps[i] in PairSet(ps);
    }
    forall c {:trigger ClosesPair(PairSet(ps), c)} | c in cs ensures ClosesPair(PairSet(ps), c) {
      var i :| 0 <= i < |ps| && Seconds(ps)[i] == c;
      assert ps[i] in PairSet(ps);
    }
  }

  lemma SafeMatching(e: State, os: set<Tag>, cs: set<Tag>)
    requires Safe(e) && os !! cs && Exhausts(e.pairs, os, cs)
    ensures Matching(PairSet(e.pairs), os, cs)
  {
    hide Valid, Outside, NestedOrApart, Compatible, OpensPair, ClosesPair;
    var ps := PairSet(e.pairs);
    forall p | p in ps ensures p.0 in os && p.1 in cs && PairOk(p) {
      var i :| 0 <= i < |e.pairs| && e.pairs[i] == p;
      assert IsEntry(p);
    }
    forall p, q {:trigger Compatible(p, q)} | p in ps && q in ps && p != q ensures Compatible(p, q) {
      var i :| 0 <= i < |e.pairs| && e.pairs[i] == p;
      var j :| 0 <= j < |e.pairs| && e.pairs[j] == q;
      PairsCompatible(e, os, cs, i, j);
    }
  }

  lemma PairsCompatible(e: State, os: set<Tag>, cs: set<Tag>, i: nat, j: nat)
    requires Safe(e) && Exhausts(e.pairs, os, cs) && i < |e.pairs| && j < |e.pairs| && i != j
    ensures Compatible(e.pairs[i], e.pairs[j])
  {
    hide Valid, Outside, OpensPair, ClosesPair;
    var p, q := e.pairs[i], e.pairs[j];
    if i < j {
      assert p.0.name == q.0.name ==> NestedOrApart(p, q);
    } else {
      assert q.0.name == p.0.name ==> NestedOrApart(q, p);
    }
  }

  // ---------- pairs made before ----------

  /** The same lists behind pairs that were there before. */
  function After(base: seq<(Tag, Tag)>, st: State): State {
    st.(pairs := base + st.pairs)
  }

  lemma {:induction false} PassAfter(base: seq<(Tag, Tag)>, st: State, cs: seq<Tag>)
    ensures Pass(After(base, st), cs) == After(base, Pass(st, cs))
    decreases |cs|
  {
    hide Partner, ByName, RemoveId;
    if cs != [] {
      var st' := Step(st, cs[0]);
      StepAfter(base, st, cs[0]);
      PassAfter(base, st', cs[1..]);
    }
  }

  lemma StepAfter(base: seq<(Tag, Tag)>, st: State, c: Tag)
    ensures Step(After(base, st), c) == After(base, Step(st, c))
  {
    hide Partner, ByName, RemoveId;
    match Partner(ByName(st.opens, c.name), c, 0)
    case Some(o) => assert base + (st.pairs + [(o, c)]) == base + st.pairs + [(o, c)];
    case None =>
  }

  /** Pairs made before have no part in pairing. */
  lemma CombineAfter(base: seq<(Tag, Tag)>, st: State)
    ensures Combine(After(base, st)) == After(base, Combine(st))
  {
    if st.opens != [] && st.closes != [] {
      PassAfter(base, st, ByName(st.closes, st.closes[0].name));
    }
  }

  /** Nor have they in whole runs. */
  lemma {:induction false} RunAfter(base: seq<(Tag, Tag)>, st: State, k: nat)
    ensures Run(After(base, st), k) == After(base, Run(st, k))
    decreases k
  {
    hide Combine;
    if k > 0 {
      CombineAfter(base, st);
      RunAfter(base, Combine(st), k - 1);
    }
  }

  lemma {:induction false} RunStep(st: State, k: nat)
    ensures Run(st, k + 1) == Combine(Run(st, k))
    decreases k
  {
    hide Combine;
    if k > 0 { RunStep(Combine(st), k - 1); }
  }

  lemma RunNothing(st: State, base: seq<(Tag, Tag)>)
    ensures Run(st, 0) == st && After(base, st.(pairs := [])) == st.(pairs := base)
    ensures Valid(st) <==> Valid(st.(pairs := base))
  {
  }

  lemma CombineNothing(st: State)
    requires st.opens == []
    ensures Combine(st) == st
  {
  }
}

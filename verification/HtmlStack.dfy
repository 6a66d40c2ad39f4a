/** The matching that a stack of opening tags for each name makes, and that pairing makes the same. */
module HtmlStack {
  import opened HtmlTags
  import opened HtmlPairing
  import opened HtmlMatching
  import opened HtmlEnding

  /**
   * The tags of one name in the order of their numbers: an opening tag goes on the stack, a closing tag
   * is paired with the top of the stack, or passed by if there is none.
   */
  function Stack(opens: seq<Tag>, closes: seq<Tag>, stack: seq<Tag>): seq<(Tag, Tag)>
    decreases |opens| + |closes|
  {
    if closes == [] then []
    else if opens != [] && opens[0].id < closes[0].id then Stack(opens[1..], closes, stack + [opens[0]])
    else if stack == [] then Stack(opens, closes[1..], [])
    else [(stack[|stack| - 1], closes[0])] + Stack(opens, closes[1..], stack[..|stack| - 1])
  }

  /** The opening tags still open or still to come, and the closing tags to come. */
  ghost predicate Stacked(opens: seq<Tag>, closes: seq<Tag>, stack: seq<Tag>, name: string) {
    && Sorted(stack) && Sorted(opens) && Sorted(closes)
    && (forall t | t in stack || t in opens || t in closes :: t.name == name)
    && (forall p <- stack, o <- opens :: p.id < o.id)
    && (forall p <- stack, c <- closes :: p.id < c.id)
    && (forall o <- opens, c <- closes :: o.id != c.id)
  }

  /** The opening tags of a stack and a list. */
  ghost function Both(stack: seq<Tag>, opens: seq<Tag>): set<Tag> {
    Elems(stack) + Elems(opens)
  }

  /** The closing tags that close something. */
  ghost function Closing(os: set<Tag>, ks: set<Tag>): set<Tag> {
    set c | c in ks && Deep(os, ks, c.id)
  }

  lemma PushStacked(opens: seq<Tag>, closes: seq<Tag>, stack: seq<Tag>, name: string)
    requires Stacked(opens, closes, stack, name) && closes != [] && opens != [] && opens[0].id < closes[0].id
    ensures Stacked(opens[1..], closes, stack + [opens[0]], name)
    ensures Both(stack + [opens[0]], opens[1..]) == Both(stack, opens)
  {
    var o, pushed := opens[0], stack + [opens[0]];
    assert o in opens;
    forall c | c in closes ensures o.id < c.id {
      TailOf(closes, c);
    }
    forall p | p in opens[1..] ensures p in opens && o.id < p.id {
      assert p in opens;
      TailOf(opens, p);
    }
    forall t ensures t in pushed <==> t in stack || t == o {
    }
    forall t ensures t in opens <==> t == o || t in opens[1..] {
      if t in opens { TailOf(opens, t); }
    }
  }

  lemma AllBehind(opens: seq<Tag>, closes: seq<Tag>, stack: seq<Tag>, name: string)
    requires Stacked(opens, closes, stack, name) && closes != []
    requires opens == [] || closes[0].id < opens[0].id
    ensures forall o <- opens :: closes[0].id < o.id
    ensures forall k <- Elems(closes) :: k == closes[0] || closes[0].id < k.id
    ensures Elems(closes[1..]) == Elems(closes) - {closes[0]}
  {
    forall o | o in opens ensures closes[0].id < o.id {
      TailOf(opens, o);
    }
    forall k | k in Elems(closes) ensures k == closes[0] || closes[0].id < k.id {
      TailOf(closes, k);
    }
    TailElems(closes);
  }

  /** A closing tag with an empty stack closes nothing, and without it the others close as much as before. */
  lemma PassBy(os: set<Tag>, ks: set<Tag>, c: Tag)
    requires c in ks && (forall k <- ks :: k == c || c.id < k.id) && (forall o <- os :: c.id < o.id)
    ensures Closing(os, ks - {c}) == Closing(os, ks)
  {
    hide Deep;
    DeepAtFirst(os, ks, c);
    forall k | k in ks - {c} ensures Deep(os, ks, k.id) <==> Deep(os, ks - {c}, k.id) {
      if Deep(os, ks, k.id) { DeepFewer(os, ks, c, k.id); }
      if Deep(os, ks - {c}, k.id) { DeepBackAlone(os, ks, c, k.id); }
    }
  }

  /** Without the first closing tag and the opening tag before it the others close as much as before. */
  lemma PopOff(os: set<Tag>, ks: set<Tag>, o: Tag, c: Tag)
    requires Adjacent(os, ks, o, c) && forall k <- ks :: k == c || c.id < k.id
    ensures c in Closing(os, ks) && Closing(os - {o}, ks - {c}) == Closing(os, ks) - {c}
  {
    hide Deep;
    DeepAtFirst(os, ks, c);
    forall k | k in ks - {c} ensures Deep(os, ks, k.id) <==> Deep(os - {o}, ks - {c}, k.id) {
      if Deep(os, ks, k.id) { DeepBehind(os, ks, o, c, k.id); }
      if Deep(os - {o}, ks - {c}, k.id) { DeepBack(os, ks, o, c, k.id); }
    }
  }

  /** The top of the stack. */
  lemma TopAdjacent(opens: seq<Tag>, closes: seq<Tag>, stack: seq<Tag>, name: string)
    requires Stacked(opens, closes, stack, name) && closes != [] && stack != []
    requires opens == [] || closes[0].id < opens[0].id
    ensures var o, c := stack[|stack| - 1], closes[0];
      Adjacent(Both(stack, opens), Elems(closes), o, c) && LastBefore(Both(stack, opens), o, c)
  {
    AllBehind(opens, closes, stack, name);
    var o, c := stack[|stack| - 1], closes[0];
    assert o in stack && c in closes;
    forall p | p in Both(stack, opens) ensures p == o || p.id < o.id || c.id < p.id {
      if p in stack { var i :| 0 <= i < |stack| && stack[i] == p; }
    }
  }

  lemma WithoutLast(ts: seq<Tag>)
    requires Sorted(ts) && ts != []
    ensures var t, rest := ts[|ts| - 1], ts[..|ts| - 1];
      Sorted(rest) && (forall p :: p in rest <==> p in ts && p != t) && (forall p <- rest :: p.id < t.id)
  {
    var t, rest := ts[|ts| - 1], ts[..|ts| - 1];
    assert ts == rest + [t];
    forall p | p in rest ensures p.id < t.id {
      var i :| 0 <= i < |rest| && rest[i] == p;
      assert ts[i] == p;
    }
  }

  lemma WithoutFirst(ts: seq<Tag>)
    requires Sorted(ts) && ts != []
    ensures Sorted(ts[1..]) && forall p <- ts[1..] :: p in ts
  {
  }

  /** The rest of the stack. */
  lemma TopOff(opens: seq<Tag>, closes: seq<Tag>, stack: seq<Tag>, name: string)
    requires Stacked(opens, closes, stack, name) && closes != [] && stack != []
    ensures var o, rest := stack[|stack| - 1], stack[..|stack| - 1];
      Stacked(opens, closes[1..], rest, name) && Both(rest, opens) == Both(stack, opens) - {o}
  {
    hide Sorted;
    var o, rest := stack[|stack| - 1], stack[..|stack| - 1];
    WithoutLast(stack);
    WithoutFirst(closes);
    assert o in stack;
    forall p ensures p in Both(rest, opens) <==> p in Both(stack, opens) - {o} {
    }
  }

  lemma NoneClosed(ps: set<(Tag, Tag)>, os: set<Tag>)
    requires Matching(ps, os, Closing(os, {}))
    ensures ps == {}
  {
  }

  /** The first closing tag, when no opening tag comes before it. */
  lemma Front(opens: seq<Tag>, closes: seq<Tag>, stack: seq<Tag>, name: string)
    requires Stacked(opens, closes, stack, name) && closes != []
    requires opens == [] || opens[0].id >= closes[0].id
    ensures opens == [] || closes[0].id < opens[0].id
    ensures closes[0] in Elems(closes) && (forall k <- Elems(closes) :: k == closes[0] || closes[0].id < k.id)
    ensures Elems(closes[1..]) == Elems(closes) - {closes[0]}
  {
    assert opens != [] ==> opens[0] in opens && closes[0] in closes;
    AllBehind(opens, closes, stack, name);
  }

  lemma EmptyStack(opens: seq<Tag>, closes: seq<Tag>, name: string)
    requires Stacked(opens, closes, [], name) && closes != []
    requires opens == [] || closes[0].id < opens[0].id
    ensures (forall o <- Both([], opens) :: closes[0].id < o.id) && Stacked(opens, closes[1..], [], name)
  {
    hide Sorted;
    AllBehind(opens, closes, [], name);
    WithoutFirst(closes);
  }

  lemma BothDistinct(opens: seq<Tag>, closes: seq<Tag>, stack: seq<Tag>, name: string)
    requires Stacked(opens, closes, stack, name)
    ensures DistinctNumbers(Both(stack, opens)) && DistinctNumbers(Elems(closes))
  {
    SortedDistinct(stack);
    SortedDistinct(opens);
    SortedDistinct(closes);
  }

  /** The top of the stack is what the first closing tag is matched with. */
  lemma TopPaired(ps: set<(Tag, Tag)>, os: set<Tag>, ks: set<Tag>, o: Tag, c: Tag)
    requires Matching(ps, os, Closing(os, ks)) && c in Closing(os, ks) && LastBefore(os, o, c)
    requires (forall k <- ks :: k == c || c.id < k.id) && DistinctNumbers(os) && DistinctNumbers(ks)
    ensures (o, c) in ps
  {
    hide Deep, LastBefore, Compatible, PairOk;
    assert ClosesPair(ps, c);
    var p :| p in ps && p.1 == c;
    FirstIsForced(ps, os, Closing(os, ks), p);
    LastBeforeUnique(os, p.0, o, c);
    assert p == (o, c);
  }

  lemma PairSetFirst(p: (Tag, Tag), rest: seq<(Tag, Tag)>)
    ensures PairSet([p] + rest) == {p} + PairSet(rest)
  {
  }

  /** A matching of the tags with the closing tags that close something is what the stack makes. */
  lemma {:induction false} StackMakes(ps: set<(Tag, Tag)>, opens: seq<Tag>, closes: seq<Tag>, stack: seq<Tag>,
                                      name: string)
    requires Stacked(opens, closes, stack, name)
    requires Matching(ps, Both(stack, opens), Closing(Both(stack, opens), Elems(closes)))
    ensures PairSet(Stack(opens, closes, stack)) == ps
    decreases |opens| + |closes|
  {
    hide Stacked, Matching, Elems, Both, Deep, LastBefore, Adjacent, Closing, PairSet, DistinctNumbers;
    var os, ks := Both(stack, opens), Elems(closes);
    if closes == [] {
      NoElems(ps, os, closes);
    } else if opens != [] && opens[0].id < closes[0].id {
      PushStacked(opens, closes, stack, name);
      StackMakes(ps, opens[1..], closes, stack + [opens[0]], name);
    } else {
      var c := closes[0];
      Front(opens, closes, stack, name);
      if stack == [] {
        EmptyStack(opens, closes, name);
        PassBy(os, ks, c);
        StackMakes(ps, opens, closes[1..], [], name);
      } else {
        var o, rest := stack[|stack| - 1], stack[..|stack| - 1];
        TopAdjacent(opens, closes, stack, name);
        TopOff(opens, closes, stack, name);
        BothDistinct(opens, closes, stack, name);
        PopOff(os, ks, o, c);
        TopPaired(ps, os, ks, o, c);
        WithoutPair(ps, os, Closing(os, ks), (o, c));
        StackMakes(ps - {(o, c)}, opens, closes[1..], rest, name);
        PairSetFirst((o, c), Stack(opens, closes[1..], rest));
      }
    }
  }

  lemma NoElems(ps: set<(Tag, Tag)>, os: set<Tag>, closes: seq<Tag>)
    requires closes == [] && Matching(ps, os, Closing(os, Elems(closes)))
    ensures ps == {} && PairSet([]) == {}
  {
    assert Elems(closes) == {};
    NoneClosed(ps, os);
  }

  // ---------- whole documents ----------

  /** The pairs of a name. */
  ghost function OfName(ps: set<(Tag, Tag)>, name: string): set<(Tag, Tag)> {
    set p | p in ps && p.0.name == name
  }

  ghost function NameOnly(ts: set<Tag>, name: string): set<Tag> {
    set t | t in ts && t.name == name
  }

  lemma MatchingOfName(ps: set<(Tag, Tag)>, os: set<Tag>, cs: set<Tag>, name: string)
    requires Matching(ps, os, cs)
    ensures Matching(OfName(ps, name), NameOnly(os, name), NameOnly(cs, name))
  {
    hide Compatible;
    var qs := OfName(ps, name);
    forall o {:trigger OpensPair(qs, o)} | o in NameOnly(os, name) ensures OpensPair(qs, o) {
      assert OpensPair(ps, o);
      var p :| p in ps && p.0 == o;
      assert p in qs;
    }
    forall c {:trigger ClosesPair(qs, c)} | c in NameOnly(cs, name) ensures ClosesPair(qs, c) {
      assert ClosesPair(ps, c);
      var p :| p in ps && p.1 == c;
      assert p in qs;
    }
  }

  lemma NameStacked(st: State, name: string)
    requires Valid(st)
    ensures Stacked(ByName(st.opens, name), ByName(st.closes, name), [], name)
    ensures Both([], ByName(st.opens, name)) == NameOnly(Elems(st.opens), name)
    ensures NameOnly(Elems(st.closes) - Idle(st), name)
      == Closing(Both([], ByName(st.opens, name)), Elems(ByName(st.closes, name)))
  {
    hide Deep;
    ByNameSorted(st.opens, name);
    ByNameSorted(st.closes, name);
    var opens, closes := ByName(st.opens, name), ByName(st.closes, name);
    assert Both([], opens) == Of(st.opens, name) && Elems(closes) == Of(st.closes, name);
    forall c
      ensures c in NameOnly(Elems(st.closes) - Idle(st), name)
        <==> c in Closing(Of(st.opens, name), Of(st.closes, name))
    {
      assert c in Idle(st) <==> c in st.closes && !Useful(st, c);
    }
  }

  /** When the loop over CombineTags has ended, the pairs it has made are those a stack for each name makes. */
  lemma EndedStack(st: State, k: nat, name: string)
    requires Valid(st) && st.pairs == [] && Ends(st, k)
    ensures OfName(PairSet(Run(st, k).pairs), name)
      == PairSet(Stack(ByName(st.opens, name), ByName(st.closes, name), []))
  {
    hide Stacked, Matching, Elems, Both, Closing, PairSet, Idle, NameOnly, Valid, Run, Ends;
    EndedPairs(st, k);
    NameStacked(st, name);
    var ps := PairSet(Run(st, k).pairs);
    MatchingOfName(ps, Elems(st.opens), Elems(st.closes) - Idle(st), name);
    StackMakes(OfName(ps, name), ByName(st.opens, name), ByName(st.closes, name), [], name);
  }
}

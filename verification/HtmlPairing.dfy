/**
 * What pairing does to a whole document: the pairs it makes nest, tags are neither lost nor made up,
 * and exactly when it comes to an end with every tag paired.
 */
module HtmlPairing {
  import opened HtmlTags

  // ---------- conservation ----------

  function Firsts(ps: seq<(Tag, Tag)>): seq<Tag> {
    seq(|ps|, i requires 0 <= i < |ps| => ps[i].0)
  }

  function Seconds(ps: seq<(Tag, Tag)>): seq<Tag> {
    seq(|ps|, i requires 0 <= i < |ps| => ps[i].1)
  }

  /** The opening tags, open or paired, and the closing tags, open or paired. */
  ghost function Openings(st: State): multiset<Tag> {
    multiset(st.opens) + multiset(Firsts(st.pairs))
  }

  ghost function Closings(st: State): multiset<Tag> {
    multiset(st.closes) + multiset(Seconds(st.pairs))
  }

  lemma StepConserves(st: State, c: Tag)
    requires Valid(st) && c in st.closes
    ensures Openings(Step(st, c)) == Openings(st) && Closings(Step(st, c)) == Closings(st)
  {
    hide Step, Elems, Pairs, Sorted;
    var paired, o := StepPairs(st, c);
    if paired {
      var st' := Step(st, c);
      assert Firsts(st'.pairs) == Firsts(st.pairs) + [o];
      assert Seconds(st'.pairs) == Seconds(st.pairs) + [c];
    }
  }

  /** The closing tags still to come are in the list, sorted. */
  ghost predicate Pending(st: State, cs: seq<Tag>) {
    Valid(st) && Sorted(cs) && forall c <- cs :: c in st.closes
  }

  /** The later tags of a sorted list are other tags than its first. */
  lemma TailOf(cs: seq<Tag>, c: Tag)
    requires Sorted(cs) && c in cs && cs != []
    ensures if c == cs[0] then c !in cs[1..] else c in cs[1..] && cs[0].id < c.id
  {
    if c in cs[1..] {
      var i :| 0 <= i < |cs[1..]| && cs[1..][i] == c;
      assert cs[0].id < cs[i + 1].id;
    } else {
      assert cs == [cs[0]] + cs[1..];
    }
  }

  lemma PendingStep(st: State, cs: seq<Tag>)
    requires Pending(st, cs) && cs != []
    ensures Pending(Step(st, cs[0]), cs[1..])
  {
    hide Step, Pairs;
    var paired, o := StepPairs(st, cs[0]);
    var st' := Step(st, cs[0]);
    assert Sorted(cs[1..]);
    forall c | c in cs[1..] ensures c in st'.closes {
      assert c in cs;
      TailOf(cs, c);
      assert c in Elems(st.closes);
      assert c in Elems(st'.closes);
    }
  }

  lemma {:induction false} PassConserves(st: State, cs: seq<Tag>)
    requires Pending(st, cs)
    ensures Valid(Pass(st, cs))
    ensures Openings(Pass(st, cs)) == Openings(st) && Closings(Pass(st, cs)) == Closings(st)
    decreases |cs|
  {
    if cs != [] {
      StepConserves(st, cs[0]);
      PendingStep(st, cs);
      PassConserves(Step(st, cs[0]), cs[1..]);
    }
  }

  lemma CombinePending(st: State)
    requires Valid(st) && st.closes != []
    ensures Pending(st, ByName(st.closes, st.closes[0].name))
  {
    ByNameSorted(st.closes, st.closes[0].name);
  }

  /** No call loses a tag or makes one up: they stay in the lists or move into pairs. */
  lemma CombineConserves(st: State)
    requires Valid(st)
    ensures Valid(Combine(st)) && Openings(Combine(st)) == Openings(st) && Closings(Combine(st)) == Closings(st)
  {
    if st.opens != [] && st.closes != [] {
      CombinePending(st);
      PassConserves(st, ByName(st.closes, st.closes[0].name));
    }
  }

  // ---------- pairs nest ----------

  ghost predicate Encloses(p: (Tag, Tag), q: (Tag, Tag)) {
    p.0.id < q.0.id && q.1.id < p.1.id
  }

  /** The stretches of two pairs are apart, or one is inside the other. */
  ghost predicate NestedOrApart(p: (Tag, Tag), q: (Tag, Tag)) {
    p.1.id < q.0.id || q.1.id < p.0.id || Encloses(p, q) || Encloses(q, p)
  }

  ghost predicate PairOk(p: (Tag, Tag)) {
    p.0.name == p.1.name && p.0.id < p.1.id
  }

  /** What the list of pairs holds: a tag complete in itself, or an opening tag and a later closing tag of its name. */
  ghost predicate IsEntry(p: (Tag, Tag)) {
    p.0 == p.1 || PairOk(p)
  }

  /** Tag t, not yet paired, is none of the tags of the pair, nor between them if it has their name. */
  ghost predicate Outside(p: (Tag, Tag), t: Tag) {
    && t.id != p.0.id && t.id != p.1.id
    && (t.name == p.0.name ==> t.id < p.0.id || p.1.id < t.id)
  }

  ghost predicate Safe(st: State) {
    && Valid(st)
    && (forall p <- st.pairs :: IsEntry(p))
    && (forall i, j | 0 <= i < j < |st.pairs| && st.pairs[i].0.name == st.pairs[j].0.name ::
          NestedOrApart(st.pairs[i], st.pairs[j]))
    && (forall p <- st.pairs, t <- st.opens :: Outside(p, t))
    && (forall p <- st.pairs, t <- st.closes :: Outside(p, t))
  }

  /** c will find no partner, however the tags that come after it are paired. */
  ghost predicate Hopeless(os: set<Tag>, c: Tag) {
    || (forall o <- os :: o.name == c.name ==> o.id > c.id)
    || (&& (forall o <- os :: o.name == c.name ==> o.id < c.id)
        && exists o, p :: o in os && p in os && o != p && o.name == c.name && p.name == c.name)
  }

  /** Closing tags of the name that were passed over have no hope. */
  ghost predicate PassedOver(st: State, cs: seq<Tag>, name: string) {
    forall c <- st.closes :: c.name == name && c !in cs ==>
      Hopeless(Elems(st.opens), c) && forall d <- cs :: c.id < d.id
  }

  lemma NoPartnerIsHopeless(st: State, c: Tag)
    requires Valid(st) && c in st.closes && forall o :: !Pairs(Elems(st.opens), o, c)
    ensures Hopeless(Elems(st.opens), c)
  {
    var os := Elems(st.opens);
    assert forall p <- os :: p.id != c.id;
    var before := set o | o in os && o.name == c.name && o.id < c.id;
    if before != {} {
      var o := LastOf(before);
      assert !Pairs(os, o, c) && LastBefore(os, o, c);
      var p :| p in os && p.name == o.name && p != o;
      assert !MoreAfter(os, c);
      assert o in os && p in os && o != p && o.name == c.name && p.name == c.name;
    } else {
      assert forall p <- os :: p.name == c.name && p.id < c.id ==> p in before;
    }
  }

  lemma {:induction false} LastOf(ts: set<Tag>) returns (t: Tag)
    requires ts != {}
    ensures t in ts && forall u <- ts :: u.id <= t.id
    decreases ts
  {
    t :| t in ts;
    if ts != {t} {
      var u := LastOf(ts - {t});
      if u.id > t.id { t := u; }
    }
  }

  /** Nothing that is left lies in the stretch of a new pair. */
  lemma NewPairOutside(st: State, cs: seq<Tag>, c: Tag, o: Tag, st': State, t: Tag)
    requires Valid(st) && Pending(st, cs) && cs != [] && cs[0] == c && Paired(st, c, o, st')
    requires PassedOver(st, cs, c.name) && (t in st'.opens || t in st'.closes)
    ensures Outside((o, c), t)
  {
    assert t in Elems(st'.opens) || t in Elems(st'.closes);
    assert o in Elems(st.opens);
    if t in Elems(st'.opens) {
      DistinctIds(st.opens, o, t);
    } else {
      DistinctIds(st.closes, c, t);
      if t in cs {
        TailOf(cs, t);
      } else if t.name == c.name {
        assert Hopeless(Elems(st.opens), t);
      }
    }
  }

  lemma DistinctIds(ts: seq<Tag>, t: Tag, u: Tag)
    requires Sorted(ts) && t in ts && u in ts && t != u
    ensures t.id != u.id
  {
    var i :| 0 <= i < |ts| && ts[i] == t;
    var j :| 0 <= j < |ts| && ts[j] == u;
    if i < j { assert ts[i].id < ts[j].id; } else { assert ts[j].id < ts[i].id; }
  }

  /** A new pair keeps clear of all that is left and of all pairs made before. */
  lemma StepSafe(st: State, cs: seq<Tag>, name: string)
    requires Safe(st) && Pending(st, cs) && cs != [] && cs[0].name == name
    requires PassedOver(st, cs, name)
    ensures Safe(Step(st, cs[0]))
  {
    hide Step, Sorted, Hopeless;
    var c := cs[0];
    var paired, o := StepPairs(st, c);
    if paired {
      var st' := Step(st, c);
      forall t | t in st'.opens || t in st'.closes
        ensures Outside((o, c), t) && (t in st.opens || t in st.closes)
      {
        NewPairOutside(st, cs, c, o, st', t);
        assert t in Elems(st'.opens) || t in Elems(st'.closes);
      }
      forall p | p in st.pairs && p.0.name == name ensures NestedOrApart(p, (o, c)) {
        assert Outside(p, o) && Outside(p, c) && IsEntry(p);
      }
    }
  }

  /** What was passed over stays without hope, and so is what is passed over now. */
  lemma StepPassesOver(st: State, cs: seq<Tag>, name: string)
    requires Pending(st, cs) && cs != [] && cs[0].name == name
    requires PassedOver(st, cs, name)
    ensures PassedOver(Step(st, cs[0]), cs[1..], name)
  {
    hide Step, Sorted;
    var c := cs[0];
    var paired, o := StepPairs(st, c);
    var st' := Step(st, c);
    if !paired { NoPartnerIsHopeless(st, c); }
    forall t | t in st'.closes && t.name == name && t !in cs[1..]
      ensures Hopeless(Elems(st'.opens), t) && forall d <- cs[1..] :: t.id < d.id
    {
      assert t in Elems(st'.closes);
      assert t in Elems(st.closes);
      forall d | d in cs[1..] ensures t.id < d.id {
        assert d in cs;
        TailOf(cs, d);
        if t in cs { TailOf(cs, t); }
      }
      if t in cs {
        TailOf(cs, t);
        assert t == c;
      } else if paired {
        PairingLeavesHopeless(st, c, o, st', t);
      }
    }
  }

  lemma PairingLeavesHopeless(st: State, c: Tag, o: Tag, st': State, t: Tag)
    requires Paired(st, c, o, st') && t.name == c.name && t.id < c.id && Hopeless(Elems(st.opens), t)
    ensures Hopeless(Elems(st'.opens), t)
  {
  }

  lemma {:induction false} PassSafe(st: State, cs: seq<Tag>, name: string)
    requires Safe(st) && Pending(st, cs) && (forall c <- cs :: c.name == name) && PassedOver(st, cs, name)
    ensures Safe(Pass(st, cs))
    decreases |cs|
  {
    hide Safe, Pending, PassedOver, Step;
    if cs != [] {
      StepSafe(st, cs, name);
      PendingStep(st, cs);
      StepPassesOver(st, cs, name);
      PassSafe(Step(st, cs[0]), cs[1..], name);
    }
  }

  /** In every state a call can be made in, it leaves pairs of one name that nest, opening before closing. */
  lemma CombineSafe(st: State)
    requires Safe(st)
    ensures Safe(Combine(st))
  {
    if st.opens != [] && st.closes != [] {
      var name := st.closes[0].name;
      CombinePending(st);
      PassSafe(st, ByName(st.closes, name), name);
    }
  }

  lemma SafeValid(st: State)
    requires Safe(st)
    ensures Valid(st)
  {
  }

  /** Without pairs there is nothing to cross. */
  lemma UnpairedSafe(st: State)
    requires Valid(st) && st.pairs == []
    ensures Safe(st)
  {
  }

  /** Calls of CombineTags, one after the other. */
  function Run(st: State, k: nat): State
    decreases k
  {
    if k == 0 then st else Run(Combine(st), k - 1)
  }

  /** Over whole runs, in every state: what is in the list of pairs nests, and no tag is lost. */
  lemma {:induction false} RunSafe(st: State, k: nat)
    requires Safe(st)
    ensures Safe(Run(st, k)) && Openings(Run(st, k)) == Openings(st) && Closings(Run(st, k)) == Closings(st)
    decreases k
  {
    hide Safe, Combine, Openings, Closings;
    if k > 0 {
      SafeValid(st);
      CombineSafe(st);
      CombineConserves(st);
      RunSafe(Combine(st), k - 1);
    }
  }
}

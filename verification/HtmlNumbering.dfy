/** What numbering the tags gives: in every state of a parser no two entries of its lists have one number. */
module HtmlNumbering {
  import opened HtmlTags
  import opened HtmlPairing
  import opened HtmlMatching
  import opened HtmlSorting

  /** No tag twice, and no number twice. */
  ghost predicate Once(ts: multiset<Tag>) {
    forall t | t in ts :: ts[t] == 1 && forall u | u in ts && u.id == t.id :: u == t
  }

  /** Lists whose tags are numbered below n, in the order they came, and whose pairs nest. */
  ghost predicate Numbered(st: State, n: nat) {
    && Safe(st) && Once(Openings(st))
    && (forall t | t in Openings(st) || t in Closings(st) :: t.id < n)
  }

  ghost predicate AllBelow(st: State, n: nat) {
    && (forall t <- st.opens :: t.id < n) && (forall t <- st.closes :: t.id < n)
    && (forall p <- st.pairs :: p.0.id < n && p.1.id < n)
  }

  lemma NumberedBelow(st: State, n: nat)
    requires Numbered(st, n)
    ensures AllBelow(st, n) && Valid(st)
  {
    hide Once;
    forall t | t in st.opens ensures t.id < n {
      assert t in multiset(st.opens) && t in Openings(st);
    }
    forall t | t in st.closes ensures t.id < n {
      assert t in multiset(st.closes) && t in Closings(st);
    }
    forall p | p in st.pairs ensures p.0.id < n && p.1.id < n {
      var i :| 0 <= i < |st.pairs| && st.pairs[i] == p;
      assert Firsts(st.pairs)[i] == p.0 && p.0 in multiset(Firsts(st.pairs)) && p.0 in Openings(st);
      assert Seconds(st.pairs)[i] == p.1 && p.1 in multiset(Seconds(st.pairs)) && p.1 in Closings(st);
    }
  }

  lemma OneMore(ts: multiset<Tag>, t: Tag)
    requires Once(ts) && forall u | u in ts :: u.id < t.id
    ensures Once(ts + multiset{t})
  {
  }

  lemma FirstNumbered()
    ensures Numbered(State([], [], []), 0)
  {
  }

  lemma SortedMore(ts: seq<Tag>, t: Tag)
    requires Sorted(ts) && forall u <- ts :: u.id < t.id
    ensures Sorted(ts + [t])
  {
  }

  /** A tag with a number above all others keeps clear of all pairs. */
  lemma OpeningSafe(st: State, t: Tag)
    requires Safe(st) && AllBelow(st, t.id)
    ensures Safe(st.(opens := st.opens + [t]))
  {
    hide IsEntry, NestedOrApart, Sorted;
    SortedMore(st.opens, t);
  }

  lemma ClosingSafe(st: State, t: Tag)
    requires Safe(st) && AllBelow(st, t.id)
    ensures Safe(st.(closes := st.closes + [t]))
  {
    hide IsEntry, NestedOrApart, Sorted;
    SortedMore(st.closes, t);
  }

  lemma CompleteSafe(st: State, t: Tag)
    requires Safe(st) && AllBelow(st, t.id)
    ensures Safe(st.(pairs := st.pairs + [(t, t)]))
  {
    hide Sorted;
    var ps := st.pairs + [(t, t)];
    forall i, j | 0 <= i < j < |ps| && ps[i].0.name == ps[j].0.name ensures NestedOrApart(ps[i], ps[j]) {
      assert ps[i] == st.pairs[i] && ps[i] in st.pairs;
      assert j == |st.pairs| || ps[j] == st.pairs[j];
    }
  }

  lemma OpeningNumbered(st: State, t: Tag)
    requires Numbered(st, t.id)
    ensures Numbered(st.(opens := st.opens + [t]), t.id + 1)
  {
    hide Once, Safe, AllBelow;
    NumberedBelow(st, t.id);
    OpeningSafe(st, t);
    OneMore(Openings(st), t);
    assert Openings(st.(opens := st.opens + [t])) == Openings(st) + multiset{t};
  }

  lemma ClosingNumbered(st: State, t: Tag)
    requires Numbered(st, t.id)
    ensures Numbered(st.(closes := st.closes + [t]), t.id + 1)
  {
    hide Once, Safe, AllBelow;
    NumberedBelow(st, t.id);
    ClosingSafe(st, t);
    assert Closings(st.(closes := st.closes + [t])) == Closings(st) + multiset{t};
  }

  lemma EntryTags(st: State, t: Tag)
    ensures var st' := st.(pairs := st.pairs + [(t, t)]);
      Openings(st') == Openings(st) + multiset{t} && Closings(st') == Closings(st) + multiset{t}
  {
    assert Firsts(st.pairs + [(t, t)]) == Firsts(st.pairs) + [t];
    assert Seconds(st.pairs + [(t, t)]) == Seconds(st.pairs) + [t];
  }

  lemma CompleteNumbered(st: State, t: Tag)
    requires Numbered(st, t.id)
    ensures Numbered(st.(pairs := st.pairs + [(t, t)]), t.id + 1)
  {
    hide Once, Safe, AllBelow, Openings, Closings;
    NumberedBelow(st, t.id);
    CompleteSafe(st, t);
    OneMore(Openings(st), t);
    EntryTags(st, t);
  }

  /** Every call keeps it so. */
  lemma CombineNumbered(st: State, n: nat)
    requires Numbered(st, n)
    ensures Numbered(Combine(st), n)
  {
    hide Combine, Once, Openings, Closings;
    SafeValid(st);
    CombineSafe(st);
    CombineConserves(st);
  }

  lemma RunNumbered(st: State, k: nat, n: nat)
    requires Numbered(st, n)
    ensures Numbered(Run(st, k), n)
  {
    hide Run, Once, Openings, Closings;
    RunSafe(st, k);
  }

  /** No two pairs have the same first number. */
  lemma NumberedFirsts(st: State, n: nat)
    requires Numbered(st, n)
    ensures DistinctFirsts(st.pairs)
  {
    hide Safe;
    var fs := Firsts(st.pairs);
    forall i, j | 0 <= i < j < |st.pairs| ensures st.pairs[i].0.id != st.pairs[j].0.id {
      assert fs == fs[..i] + [fs[i]] + fs[i + 1..j] + [fs[j]] + fs[j + 1..];
      assert fs[i] in Openings(st) && fs[j] in Openings(st);
    }
  }

  /** Taking the pairs away. */
  lemma UnpairedNumbered(st: State, n: nat)
    requires Numbered(st, n)
    ensures Numbered(st.(pairs := []), n)
  {
    assert Firsts([]) == [] && Seconds([]) == [];
  }

  /** What sorting makes of it. */
  lemma SortingNumbered(st: State, n: nat)
    ensures Numbered(st, n) ==> DistinctFirsts(st.pairs) && Numbered(st.(pairs := []), n)
  {
    hide Numbered, DistinctFirsts;
    if Numbered(st, n) {
      NumberedFirsts(st, n);
      UnpairedNumbered(st, n);
    }
  }
}

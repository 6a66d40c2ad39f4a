/** Ordering pairs of tags by the number of their opening tag. */
module HtmlSorting {
  import opened HtmlTags

  /** Never a smaller number behind a greater. */
  ghost predicate Ascending(ps: seq<(Tag, Tag)>) {
    forall i, j | 0 <= i < j < |ps| :: ps[i].0.id <= ps[j].0.id
  }

  ghost predicate StrictlyAscending(ps: seq<(Tag, Tag)>) {
    forall i, j | 0 <= i < j < |ps| :: ps[i].0.id < ps[j].0.id
  }

  /** No number among ps exceeds one among qs. */
  ghost predicate Below(ps: seq<(Tag, Tag)>, qs: seq<(Tag, Tag)>) {
    forall p <- ps, q <- qs :: p.0.id <= q.0.id
  }

  ghost predicate DistinctFirsts(ps: seq<(Tag, Tag)>) {
    forall i, j | 0 <= i < j < |ps| :: ps[i].0.id != ps[j].0.id
  }

  /** The pairs, divided into those moved and the rest. */
  ghost predicate Divided(all: seq<(Tag, Tag)>, moved: seq<(Tag, Tag)>, rest: seq<(Tag, Tag)>) {
    multiset(moved) + multiset(rest) == multiset(all)
  }

  lemma NoneMoved(rest: seq<(Tag, Tag)>)
    ensures Ascending([]) && Below([], rest) && Divided(rest, [], rest)
  {
  }

  lemma DividedBehind(base: seq<(Tag, Tag)>, all: seq<(Tag, Tag)>, moved: seq<(Tag, Tag)>, rest: seq<(Tag, Tag)>)
    requires Divided(all, moved, rest)
    ensures multiset(base + moved) + multiset(rest) == multiset(base) + multiset(all)
    ensures |moved| + |rest| == |all|
  {
    assert |multiset(all)| == |all| && |multiset(moved)| == |moved| && |multiset(rest)| == |rest|;
  }

  /** Moving the least pair of the rest behind those moved before. */
  lemma MoveLeast(all: seq<(Tag, Tag)>, moved: seq<(Tag, Tag)>, rest: seq<(Tag, Tag)>, m: nat)
    requires Ascending(moved) && Below(moved, rest) && Divided(all, moved, rest) && m < |rest|
    requires forall k | 0 <= k < |rest| :: rest[m].0.id <= rest[k].0.id
    ensures var (moved', rest') := (moved + [rest[m]], rest[..m] + rest[m + 1..]);
      && Ascending(moved') && Below(moved', rest') && Divided(all, moved', rest')
  {
    var p, moved', rest' := rest[m], moved + [rest[m]], rest[..m] + rest[m + 1..];
    assert rest == rest[..m] + [p] + rest[m + 1..];
    assert p in rest;
    forall q | q in rest' ensures q in rest && p.0.id <= q.0.id {
      var k :| 0 <= k < |rest| && rest[k] == q;
    }
    forall i | 0 <= i < |moved| ensures moved[i].0.id <= p.0.id {
      assert moved[i] in moved;
    }
  }

  /** A sorted permutation of pairs with distinct numbers ascends strictly. */
  lemma SortedStrictly(sorted: seq<(Tag, Tag)>, all: seq<(Tag, Tag)>)
    requires Ascending(sorted) && Divided(all, sorted, []) && DistinctFirsts(all)
    ensures StrictlyAscending(sorted) && multiset(sorted) == multiset(all)
  {
    assert multiset(sorted) == multiset(all);
    forall i, j | 0 <= i < j < |sorted| ensures sorted[i].0.id < sorted[j].0.id {
      var p, q := sorted[i], sorted[j];
      assert sorted == sorted[..i] + [p] + sorted[i + 1..j] + [q] + sorted[j + 1..];
      assert p in multiset(all) && q in multiset(all);
      if p == q {
        Once(all, p);
      } else {
        var k :| 0 <= k < |all| && all[k] == p;
        var l :| 0 <= l < |all| && all[l] == q;
      }
    }
  }

  lemma {:induction false} Once(all: seq<(Tag, Tag)>, p: (Tag, Tag))
    requires DistinctFirsts(all)
    ensures multiset(all)[p] <= 1
    decreases |all|
  {
    if all != [] {
      assert all == [all[0]] + all[1..];
      Once(all[1..], p);
      if all[0] == p {
        assert p !in all[1..];
      }
    }
  }
}

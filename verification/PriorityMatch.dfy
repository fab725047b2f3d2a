/** Rule selection by priority, for any rule type, any priorities and any matching predicate:
    the stable-sort-then-first-match of the Rust datapath and the single-pass scan of the C policy
    table, against one reference, the least (priority, insertion order) among the matches. */
module PriorityMatch {
  import opened Prelude

  // ---------------------------------------------------------------- the reference

  /** Rule `i` matches, and no matching rule has a smaller priority, nor an equal one earlier. */
  ghost predicate IsWinner<R>(rules: seq<R>, prio: R -> int, hits: R -> bool, i: nat) {
    && i < |rules| && hits(rules[i])
    && forall j :: 0 <= j < |rules| && hits(rules[j]) ==>
         prio(rules[i]) < prio(rules[j]) || (prio(rules[i]) == prio(rules[j]) && i <= j)
  }

  ghost predicate NoneHits<R>(rules: seq<R>, hits: R -> bool) {
    forall j :: 0 <= j < |rules| ==> !hits(rules[j])
  }

  /** The winner's index, found in one pass that keeps the best so far. */
  function Best<R>(rules: seq<R>, prio: R -> int, hits: R -> bool): (r: Option<nat>)
    ensures r.Some? ==> r.value < |rules|
  {
    if rules == [] then None
    else
      var last := |rules| - 1;
      var best := Best(rules[..last], prio, hits);
      if hits(rules[last]) && (best.None? || prio(rules[last]) < prio(rules[best.value])) then Some(last) else best
  }

  lemma {:induction false} BestIsWinner<R>(rules: seq<R>, prio: R -> int, hits: R -> bool)
    ensures match Best(rules, prio, hits)
            case Some(i) => IsWinner(rules, prio, hits, i)
            case None => NoneHits(rules, hits)
  {
    if rules != [] {
      var last := |rules| - 1;
      BestIsWinner(rules[..last], prio, hits);
      assert forall j :: 0 <= j < last ==> rules[..last][j] == rules[j];
    }
  }

  lemma WinnerIsBest<R>(rules: seq<R>, prio: R -> int, hits: R -> bool, i: nat)
    requires IsWinner(rules, prio, hits, i)
    ensures Best(rules, prio, hits) == Some(i)
  {
    BestIsWinner(rules, prio, hits);
  }

  /** Selection looks only at priorities and matches, position by position. */
  lemma {:induction false} BestDependsOnPriorityAndMatch<A, B>(
    a: seq<A>, prioA: A -> int, hitsA: A -> bool, b: seq<B>, prioB: B -> int, hitsB: B -> bool)
    requires |a| == |b|
    requires forall i :: 0 <= i < |a| ==> prioA(a[i]) == prioB(b[i]) && hitsA(a[i]) == hitsB(b[i])
    ensures Best(a, prioA, hitsA) == Best(b, prioB, hitsB)
  {
    if a != [] {
      BestDependsOnPriorityAndMatch(a[..|a| - 1], prioA, hitsA, b[..|b| - 1], prioB, hitsB);
    }
  }

  // ---------------------------------------------------------------- stable sort, first match

  ghost predicate Sorted<R>(s: seq<R>, prio: R -> int) {
    forall i, j :: 0 <= i < j < |s| ==> prio(s[i]) <= prio(s[j])
  }

  /** Inserts behind every element of the same priority. */
  function Insert<R>(x: R, s: seq<R>, prio: R -> int): seq<R> {
    if s == [] || prio(x) < prio(s[0]) then [x] + s
    else [s[0]] + Insert(x, s[1..], prio)
  }

  function StableSort<R>(rules: seq<R>, prio: R -> int): seq<R> {
    if rules == [] then []
    else Insert(rules[|rules| - 1], StableSort(rules[..|rules| - 1], prio), prio)
  }

  /** The elements of one priority, in order. */
  function OfPriority<R>(s: seq<R>, prio: R -> int, p: int): seq<R> {
    if s == [] then []
    else if prio(s[|s| - 1]) == p then OfPriority(s[..|s| - 1], prio, p) + [s[|s| - 1]]
    else OfPriority(s[..|s| - 1], prio, p)
  }

  lemma {:induction false} OfPriorityCons<R>(x: R, s: seq<R>, prio: R -> int, p: int)
    ensures OfPriority([x] + s, prio, p) == (if prio(x) == p then [x] else []) + OfPriority(s, prio, p)
  {
    var xs := [x] + s;
    if s == [] {
      assert xs[..0] == [];
    } else {
      OfPriorityCons(x, s[..|s| - 1], prio, p);
      assert xs[..|xs| - 1] == [x] + s[..|s| - 1];
    }
  }

  lemma {:induction false} HeadMultiset<R>(head: R, rest: seq<R>, all: seq<R>)
    requires all == [head] + rest
    ensures multiset(all) == multiset(rest) + multiset{head}
  {
  }

  lemma {:induction false} InsertPermutes<R>(x: R, s: seq<R>, prio: R -> int)
    ensures multiset(Insert(x, s, prio)) == multiset(s) + multiset{x}
  {
    if s != [] && prio(x) >= prio(s[0]) {
      InsertPermutes(x, s[1..], prio);
      HeadMultiset(s[0], s[1..], s);
      HeadMultiset(s[0], Insert(x, s[1..], prio), Insert(x, s, prio));
    }
  }

  lemma {:induction false} InsertKeepsSorted<R>(x: R, s: seq<R>, prio: R -> int)
    requires Sorted(s, prio)
    ensures Sorted(Insert(x, s, prio), prio)
    ensures forall y :: y in Insert(x, s, prio) ==> y == x || y in s
  {
    if s != [] && prio(x) >= prio(s[0]) {
      InsertKeepsSorted(x, s[1..], prio);
      var rest := Insert(x, s[1..], prio);
      forall j | 0 <= j < |rest|
        ensures prio(s[0]) <= prio(rest[j])
      {
        assert rest[j] in rest;
      }
    }
  }

  lemma {:induction false} InsertKeepsOrder<R>(x: R, s: seq<R>, prio: R -> int, p: int)
    requires Sorted(s, prio)
    ensures OfPriority(Insert(x, s, prio), prio, p) == OfPriority(s, prio, p) + if prio(x) == p then [x] else []
  {
    if s == [] || prio(x) < prio(s[0]) {
      OfPriorityCons(x, s, prio, p);
      if prio(x) == p {
        NoneOfLesserPriority(s, prio, p);
      }
    } else {
      InsertKeepsOrder(x, s[1..], prio, p);
      assert s == [s[0]] + s[1..];
      OfPriorityCons(s[0], s[1..], prio, p);
      OfPriorityCons(s[0], Insert(x, s[1..], prio), prio, p);
    }
  }

  lemma {:induction false} NoneOfLesserPriority<R>(s: seq<R>, prio: R -> int, p: int)
    requires forall i :: 0 <= i < |s| ==> p < prio(s[i])
    ensures OfPriority(s, prio, p) == []
  {
    if s != [] {
      NoneOfLesserPriority(s[..|s| - 1], prio, p);
    }
  }

  lemma {:induction false} SortSorts<R>(rules: seq<R>, prio: R -> int)
    ensures Sorted(StableSort(rules, prio), prio)
  {
    if rules != [] {
      SortSorts(rules[..|rules| - 1], prio);
      InsertKeepsSorted(rules[|rules| - 1], StableSort(rules[..|rules| - 1], prio), prio);
    }
  }

  lemma {:induction false} SortPermutes<R>(rules: seq<R>, prio: R -> int)
    ensures multiset(StableSort(rules, prio)) == multiset(rules)
  {
    if rules != [] {
      var front, last := rules[..|rules| - 1], rules[|rules| - 1];
      SortPermutes(front, prio);
      InsertPermutes(last, StableSort(front, prio), prio);
      assert rules == front + [last];
    }
  }

  lemma {:induction false} SortKeepsOrder<R>(rules: seq<R>, prio: R -> int, p: int)
    ensures OfPriority(StableSort(rules, prio), prio, p) == OfPriority(rules, prio, p)
  {
    if rules != [] {
      var front, last := rules[..|rules| - 1], rules[|rules| - 1];
      SortKeepsOrder(front, prio, p);
      SortSorts(front, prio);
      InsertKeepsOrder(last, StableSort(front, prio), prio, p);
    }
  }

  /** The sort is a sorted permutation that keeps rules of equal priority in their order. */
  lemma {:induction false} SortIsStable<R>(rules: seq<R>, prio: R -> int, p: int)
    ensures Sorted(StableSort(rules, prio), prio)
    ensures multiset(StableSort(rules, prio)) == multiset(rules)
    ensures OfPriority(StableSort(rules, prio), prio, p) == OfPriority(rules, prio, p)
  {
    SortSorts(rules, prio);
    SortPermutes(rules, prio);
    SortKeepsOrder(rules, prio, p);
  }

  lemma {:induction false} HeadOfPriority<R>(s: seq<R>, prio: R -> int, p: int)
    ensures OfPriority(s, prio, p) != [] ==> exists i :: 0 <= i < |s| && prio(s[i]) == p
  {
    if s != [] {
      HeadOfPriority(s[..|s| - 1], prio, p);
    }
  }

  /** There is only one stable sort: any sorted arrangement with the same rules of each priority
      in the same order is the one computed here. */
  lemma {:induction false} StableSortIsUnique<R>(a: seq<R>, b: seq<R>, prio: R -> int)
    requires Sorted(a, prio) && Sorted(b, prio)
    requires forall p :: OfPriority(a, prio, p) == OfPriority(b, prio, p)
    ensures a == b
  {
    if a == [] {
      if b != [] {
        assert b == [b[0]] + b[1..];
        OfPriorityCons(b[0], b[1..], prio, prio(b[0]));
      }
    } else {
      assert a == [a[0]] + a[1..];
      OfPriorityCons(a[0], a[1..], prio, prio(a[0]));
      HeadOfPriority(b, prio, prio(a[0]));
      assert b == [b[0]] + b[1..];
      OfPriorityCons(b[0], b[1..], prio, prio(b[0]));
      HeadOfPriority(a, prio, prio(b[0]));
      assert prio(a[0]) == prio(b[0]);
      assert a[0] == OfPriority(a, prio, prio(a[0]))[0] == b[0];
      forall p
        ensures OfPriority(a[1..], prio, p) == OfPriority(b[1..], prio, p)
      {
        OfPriorityCons(a[0], a[1..], prio, p);
        OfPriorityCons(b[0], b[1..], prio, p);
        var head := if prio(a[0]) == p then [a[0]] else [];
        assert (head + OfPriority(a[1..], prio, p))[|head|..] == (head + OfPriority(b[1..], prio, p))[|head|..];
      }
      StableSortIsUnique(a[1..], b[1..], prio);
    }
  }

  /** Index of the first matching element, or the length when none matches. */
  function FirstHit<R>(s: seq<R>, hits: R -> bool): (i: nat)
    ensures i <= |s|
    ensures i < |s| ==> hits(s[i])
    ensures forall j :: 0 <= j < i ==> !hits(s[j])
  {
    if s == [] || hits(s[0]) then 0 else 1 + FirstHit(s[1..], hits)
  }

  function FirstRule<R>(s: seq<R>, hits: R -> bool): Option<R> {
    var i := FirstHit(s, hits);
    if i < |s| then Some(s[i]) else None
  }

  lemma {:induction false} InsertFirstRule<R>(x: R, s: seq<R>, prio: R -> int, hits: R -> bool)
    requires Sorted(s, prio)
    ensures FirstRule(Insert(x, s, prio), hits)
         == var first := FirstRule(s, hits);
            if hits(x) && (first.None? || prio(x) < prio(first.value)) then Some(x) else first
  {
    if s == [] || prio(x) < prio(s[0]) {
      assert ([x] + s)[1..] == s;
    } else {
      InsertFirstRule(x, s[1..], prio, hits);
      assert Insert(x, s, prio)[1..] == Insert(x, s[1..], prio);
    }
  }

  /** First match after a stable sort is the least (priority, insertion order) among the matches. */
  lemma {:induction false} SortedFirstRuleIsBest<R>(rules: seq<R>, prio: R -> int, hits: R -> bool)
    ensures FirstRule(StableSort(rules, prio), hits)
         == match Best(rules, prio, hits) case Some(i) => Some(rules[i]) case None => None
  {
    if rules != [] {
      var front, last := rules[..|rules| - 1], rules[|rules| - 1];
      SortedFirstRuleIsBest(front, prio, hits);
      SortSorts(front, prio);
      InsertFirstRule(last, StableSort(front, prio), prio, hits);
    }
  }

  // ---------------------------------------------------------------- a ceiling on priorities

  /** Matching, restricted to priorities a scan that starts at `ceiling` can still improve on. */
  function Below<R>(prio: R -> int, hits: R -> bool, ceiling: int): R -> bool {
    (r: R) => hits(r) && prio(r) < ceiling
  }

  /** A scan with a ceiling finds the overall winner if its priority is below the ceiling, and
      nothing otherwise. */
  lemma CeilingKeepsWinner<R>(rules: seq<R>, prio: R -> int, hits: R -> bool, ceiling: int)
    ensures Best(rules, prio, Below(prio, hits, ceiling))
         == match Best(rules, prio, hits)
            case Some(i) => if prio(rules[i]) < ceiling then Some(i) else None
            case None => None
  {
    var low := Below(prio, hits, ceiling);
    BestIsWinner(rules, prio, hits);
    BestIsWinner(rules, prio, low);
    var best := Best(rules, prio, hits);
    if best.Some? && prio(rules[best.value]) < ceiling {
      assert IsWinner(rules, prio, low, best.value);
      WinnerIsBest(rules, prio, low, best.value);
    }
  }

  // ---------------------------------------------------------------- deletion

  function Without<R>(rules: seq<R>, i: nat): seq<R>
    requires i < |rules|
  {
    rules[..i] + rules[i + 1..]
  }

  lemma LoserDeleted<R>(rules: seq<R>, prio: R -> int, hits: R -> bool, i: nat, w: nat)
    requires i < |rules| && w != i && IsWinner(rules, prio, hits, w)
    ensures IsWinner(Without(rules, i), prio, hits, if w < i then w else w - 1)
  {
    var rest := Without(rules, i);
    forall j | 0 <= j < |rest|
      ensures rest[j] == rules[if j < i then j else j + 1]
    {
    }
  }

  lemma {:induction false} LoserDeletedBest<R>(rules: seq<R>, prio: R -> int, hits: R -> bool, i: nat, w: nat)
    requires i < |rules| && w != i && Best(rules, prio, hits) == Some(w)
    ensures Best(Without(rules, i), prio, hits) == Some(if w < i then w else w - 1)
  {
    BestIsWinner(rules, prio, hits);
    LoserDeleted(rules, prio, hits, i, w);
    WinnerIsBest(Without(rules, i), prio, hits, if w < i then w else w - 1);
  }

  lemma NoneLeft<R>(rules: seq<R>, hits: R -> bool, i: nat)
    requires i < |rules| && NoneHits(rules, hits)
    ensures NoneHits(Without(rules, i), hits)
  {
    var rest := Without(rules, i);
    assert forall j :: 0 <= j < |rest| ==> rest[j] == rules[if j < i then j else j + 1];
  }

  lemma {:induction false} NoneLeftBest<R>(rules: seq<R>, prio: R -> int, hits: R -> bool, i: nat)
    requires i < |rules| && Best(rules, prio, hits) == None
    ensures Best(Without(rules, i), prio, hits) == None
  {
    BestIsWinner(rules, prio, hits);
    NoneLeft(rules, hits, i);
    BestIsWinner(Without(rules, i), prio, hits);
  }

  /** Deleting a rule other than the winner leaves the winner in place. */
  lemma {:induction false} DeletingALoserKeepsTheWinner<R>(rules: seq<R>, prio: R -> int, hits: R -> bool, i: nat)
    requires i < |rules| && Best(rules, prio, hits) != Some(i)
    ensures Best(Without(rules, i), prio, hits)
         == match Best(rules, prio, hits)
            case Some(w) => Some(if w < i then w else w - 1)
            case None => None
  {
    match Best(rules, prio, hits)
    case Some(w) => LoserDeletedBest(rules, prio, hits, i, w);
    case None => NoneLeftBest(rules, prio, hits, i);
  }
}

/** Python's `sorted(candidates, key=lambda t: t[0], reverse=True)` on the
    deferred candidates. Python's sort is stable, and `reverse=True` keeps
    equal keys in their original order, so the sort is an insertion sort
    that places each candidate after every earlier one of at least its
    quality. The head of the sorted list is therefore the EARLIEST
    candidate of maximum quality. */
module StableSort {
  import opened Routing

  predicate Descending(s: seq<Candidate>) {
    forall i, j :: 0 <= i < j < |s| ==> s[i].q >= s[j].q
  }

  /** Inserts `c` after every element of quality at least `c.q`. */
  function InsertDesc(c: Candidate, s: seq<Candidate>): (r: seq<Candidate>)
    ensures |r| == |s| + 1
    ensures r[0] == (if s != [] && s[0].q >= c.q then s[0] else c)
  {
    if s == [] then [c]
    else if s[0].q >= c.q then [s[0]] + InsertDesc(c, s[1..])
    else [c] + s
  }

  /** Insertion neither loses nor invents candidates. */
  lemma {:induction false} InsertDescPermutes(c: Candidate, s: seq<Candidate>)
    ensures multiset(InsertDesc(c, s)) == multiset(s) + multiset{c}
  {
    if s != [] && s[0].q >= c.q {
      InsertDescPermutes(c, s[1..]);
      assert s == [s[0]] + s[1..];
    }
  }

  /** Insertion keeps a descending list descending. */
  lemma {:induction false} InsertDescOrdered(c: Candidate, s: seq<Candidate>)
    requires Descending(s)
    ensures Descending(InsertDesc(c, s))
  {
    if s != [] && s[0].q >= c.q {
      InsertDescOrdered(c, s[1..]);
      InsertDescPermutes(c, s[1..]);
      var r := InsertDesc(c, s);
      assert r == [s[0]] + InsertDesc(c, s[1..]);
      forall i, j | 0 <= i < j < |r| ensures r[i].q >= r[j].q {
        if i == 0 {
          assert r[j] in multiset(InsertDesc(c, s[1..]));
          assert r[j] in multiset(s[1..]) + multiset{c};
          assert r[j] in s[1..] || r[j] == c;
        }
      }
    }
  }

  /** `sorted(cs, key=q, reverse=True)`. */
  function SortedDesc(cs: seq<Candidate>): (r: seq<Candidate>)
    ensures |r| == |cs|
  {
    if cs == [] then [] else InsertDesc(cs[|cs| - 1], SortedDesc(cs[..|cs| - 1]))
  }

  /** The sort returns a descending permutation of its input. */
  lemma {:induction false} SortedDescSound(cs: seq<Candidate>)
    ensures multiset(SortedDesc(cs)) == multiset(cs)
    ensures Descending(SortedDesc(cs))
  {
    if cs != [] {
      var p := cs[..|cs| - 1];
      SortedDescSound(p);
      InsertDescPermutes(cs[|cs| - 1], SortedDesc(p));
      InsertDescOrdered(cs[|cs| - 1], SortedDesc(p));
      assert cs == p + [cs[|cs| - 1]];
    }
  }

  /** `sorted(cs, key=q, reverse=True)[0]` is the earliest candidate of
      maximum quality: ties go to the first registered. */
  lemma {:induction false} SortedDescHead(cs: seq<Candidate>)
    requires cs != []
    ensures SortedDesc(cs)[0] == cs[EarliestMax(cs)]
  {
    var n := |cs|;
    var p := cs[..n - 1];
    if n > 1 {
      SortedDescHead(p);
    }
  }
}

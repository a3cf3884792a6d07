/** Ranking of verdicts by vote count, highest first. The source sorts with
    the comparator `b.votes - a.votes`, and the host's sort is stable, so
    verdicts with equal votes keep their relative order. */
module Ranking {
  import opened Types

  /** Vote counts never increase along the sequence. */
  predicate SortedByVotes(s: seq<Verdict>)
  {
    forall i, j :: 0 <= i < j < |s| ==> s[i].votes >= s[j].votes
  }

  /** The verdicts of `s` that carry exactly `k` votes, in their order in `s`. */
  function WithVotes(s: seq<Verdict>, k: int): (r: seq<Verdict>)
    ensures |r| <= |s|
  {
    if |s| == 0 then []
    else (if s[0].votes == k then [s[0]] else []) + WithVotes(s[1..], k)
  }

  lemma {:induction false} WithVotesMembers(s: seq<Verdict>, k: int, v: Verdict)
    requires v in WithVotes(s, k)
    ensures v in s && v.votes == k
    decreases |s|
  {
    if v != s[0] || s[0].votes != k {
      WithVotesMembers(s[1..], k, v);
    }
  }

  /** Two sequences rank ties alike: for every vote count they list the
      verdicts with that count in the same order. */
  ghost predicate SameTies(a: seq<Verdict>, b: seq<Verdict>)
  {
    forall k :: WithVotes(a, k) == WithVotes(b, k)
  }

  /** Puts `x` into the ranked `s`, ahead of every verdict with no more votes
      than `x`. */
  function Insert(x: Verdict, s: seq<Verdict>): (r: seq<Verdict>)
    requires SortedByVotes(s)
    ensures |r| == |s| + 1
    ensures SortedByVotes(r)
    ensures multiset(r) == multiset(s) + multiset{x}
  {
    if |s| == 0 then [x]
    else if s[0].votes <= x.votes then [x] + s
    else
      var rest := Insert(x, s[1..]);
      assert s == [s[0]] + s[1..];
      assert forall j :: 0 <= j < |rest| ==> s[0].votes >= rest[j].votes by {
        forall j | 0 <= j < |rest| ensures s[0].votes >= rest[j].votes {
          assert rest[j] in multiset(rest);
        }
      }
      [s[0]] + rest
  }

  /** The stable ranking of `s` by votes, highest first. */
  function SortByVotes(s: seq<Verdict>): (r: seq<Verdict>)
    ensures SortedByVotes(r)
    ensures multiset(r) == multiset(s)
  {
    if |s| == 0 then []
    else
      assert s == [s[0]] + s[1..];
      Insert(s[0], SortByVotes(s[1..]))
  }

  lemma SwapEmptyHead(hs: seq<Verdict>, hx: seq<Verdict>, w: seq<Verdict>)
    requires hs == [] || hx == []
    ensures hs + (hx + w) == hx + (hs + w)
  {
    if hs == [] {
      assert hs + (hx + w) == hx + w;
      assert hs + w == w;
    } else {
      assert hx + w == w;
      assert hx + (hs + w) == hs + w;
    }
  }

  /** Inserting `x` places it after every verdict with the same count. */
  lemma {:induction false} InsertTies(x: Verdict, s: seq<Verdict>, k: int)
    requires SortedByVotes(s)
    ensures WithVotes(Insert(x, s), k) == (if x.votes == k then [x] else []) + WithVotes(s, k)
    decreases |s|
  {
    var hx: seq<Verdict> := if x.votes == k then [x] else [];
    if |s| == 0 {
      assert [x][1..] == [];
    } else if s[0].votes <= x.votes {
      assert Insert(x, s) == [x] + s;
      assert ([x] + s)[1..] == s;
    } else {
      var rest := Insert(x, s[1..]);
      var hs: seq<Verdict> := if s[0].votes == k then [s[0]] else [];
      var w := WithVotes(s[1..], k);
      assert Insert(x, s) == [s[0]] + rest;
      InsertTies(x, s[1..], k);
      assert WithVotes(rest, k) == hx + w;
      assert ([s[0]] + rest)[1..] == rest;
      assert WithVotes([s[0]] + rest, k) == hs + (hx + w);
      assert WithVotes(s, k) == hs + w;
      SwapEmptyHead(hs, hx, w);
    }
  }

  /** Sorting never reorders verdicts that have the same vote count. */
  lemma {:induction false} SortByVotesStable(s: seq<Verdict>, k: int)
    ensures WithVotes(SortByVotes(s), k) == WithVotes(s, k)
    decreases |s|
  {
    if |s| > 0 {
      SortByVotesStable(s[1..], k);
      InsertTies(s[0], SortByVotes(s[1..]), k);
    }
  }

  lemma SortByVotesSameTies(s: seq<Verdict>)
    ensures SameTies(SortByVotes(s), s)
  {
    forall k ensures WithVotes(SortByVotes(s), k) == WithVotes(s, k) {
      SortByVotesStable(s, k);
    }
  }

  lemma {:induction false} HeadOfTies(s: seq<Verdict>)
    requires |s| > 0
    ensures WithVotes(s, s[0].votes) == [s[0]] + WithVotes(s[1..], s[0].votes)
  {
  }

  /** Agreeing on ties, two ranked sequences start with the same verdict. */
  lemma HeadsAgree(a: seq<Verdict>, b: seq<Verdict>)
    requires |a| > 0 && |b| > 0
    requires SortedByVotes(a) && SortedByVotes(b)
    requires WithVotes(a, a[0].votes) == WithVotes(b, a[0].votes)
    requires WithVotes(a, b[0].votes) == WithVotes(b, b[0].votes)
    ensures a[0] == b[0]
  {
    var m, n := a[0].votes, b[0].votes;
    HeadOfTies(a);
    HeadOfTies(b);
    assert a[0] in WithVotes(b, m);
    WithVotesMembers(b, m, a[0]);
    assert n >= m by {
      var j :| 0 <= j < |b| && b[j] == a[0];
    }
    assert b[0] in WithVotes(a, n);
    WithVotesMembers(a, n, b[0]);
    assert m >= n by {
      var j :| 0 <= j < |a| && a[j] == b[0];
    }
    assert a[0] == WithVotes(a, m)[0] == WithVotes(b, m)[0] == b[0];
  }

  /** Dropping a common head keeps the ties in agreement. */
  lemma TailsAgree(a: seq<Verdict>, b: seq<Verdict>, k: int)
    requires |a| > 0 && |b| > 0 && a[0] == b[0]
    requires WithVotes(a, k) == WithVotes(b, k)
    ensures WithVotes(a[1..], k) == WithVotes(b[1..], k)
  {
    var h := if a[0].votes == k then [a[0]] else [];
    assert WithVotes(a, k) == h + WithVotes(a[1..], k);
    assert WithVotes(b, k) == h + WithVotes(b[1..], k);
    assert WithVotes(a[1..], k) == WithVotes(a, k)[|h|..];
    assert WithVotes(b[1..], k) == WithVotes(b, k)[|h|..];
  }

  /** A ranked sequence is determined by its ties: two sequences sorted by
      votes that list each vote count's verdicts in the same order are equal.
      Hence `SortByVotes` is exactly the result of any stable sort. */
  lemma {:induction false} StableRankingUnique(a: seq<Verdict>, b: seq<Verdict>)
    requires SortedByVotes(a) && SortedByVotes(b)
    requires SameTies(a, b)
    ensures a == b
    decreases |a|
  {
    if |a| == 0 {
      if |b| > 0 {
        HeadOfTies(b);
        assert false;
      }
    } else if |b| == 0 {
      HeadOfTies(a);
      assert false;
    } else {
      HeadsAgree(a, b);
      forall k ensures WithVotes(a[1..], k) == WithVotes(b[1..], k) {
        TailsAgree(a, b, k);
      }
      StableRankingUnique(a[1..], b[1..]);
      assert a == [a[0]] + a[1..];
      assert b == [b[0]] + b[1..];
    }
  }

  /** Characterisation: `t` is the stable ranking of `s` exactly when it is
      sorted by votes and keeps the order of every group of ties. */
  lemma StableRankingCharacterised(s: seq<Verdict>, t: seq<Verdict>)
    ensures t == SortByVotes(s) <==> SortedByVotes(t) && SameTies(t, s)
  {
    SortByVotesSameTies(s);
    if SortedByVotes(t) && SameTies(t, s) {
      StableRankingUnique(t, SortByVotes(s));
    }
  }

  /** Re-ranking an already ranked sequence leaves it as it is. */
  lemma SortByVotesIdempotent(s: seq<Verdict>)
    requires SortedByVotes(s)
    ensures SortByVotes(s) == s
  {
    StableRankingCharacterised(s, s);
  }
}

/** The bounded, score-sorted result list a query fills: each appended item is
    scored against the query; items under the minimum score are refused; the
    others are kept in descending score order, ties in arrival order, and the
    list never holds more than `limit` items (the lowest go first). The fuzzy
    scoring formula itself is a parameter. */
module Ranking {

  datatype Scored<T> = Scored(item: T, score: int)

  /** Scores never increase from front to back. */
  predicate Descending<T>(s: seq<Scored<T>>) {
    forall i, j :: 0 <= i < j < |s| ==> s[i].score >= s[j].score
  }

  /** What a result list may hold: at most `limit` entries, in descending
      order, none under `minScore`. */
  predicate WellFormed<T>(s: seq<Scored<T>>, minScore: int, limit: nat) {
    |s| <= limit && Descending(s) && forall i :: 0 <= i < |s| ==> s[i].score >= minScore
  }

  /** Stable insertion: `x` goes after every entry scoring at least as much. */
  function Insert<T>(s: seq<Scored<T>>, x: Scored<T>): (r: seq<Scored<T>>)
    ensures |r| == |s| + 1
  {
    if s == [] || s[0].score < x.score then [x] + s else [s[0]] + Insert(s[1..], x)
  }

  /** The first `limit` entries. */
  function Truncate<T>(s: seq<Scored<T>>, limit: nat): (r: seq<Scored<T>>)
    ensures |r| == if |s| <= limit then |s| else limit
  {
    if |s| <= limit then s else s[..limit]
  }

  /** One append: refused under the minimum score, otherwise inserted in
      order with the lowest entry dropped when the list overflows. */
  function Offer<T>(s: seq<Scored<T>>, x: Scored<T>, minScore: int, limit: nat): (r: seq<Scored<T>>) {
    if x.score < minScore then s else Truncate(Insert(s, x), limit)
  }

  /** A run of appends, in order. */
  function Feed<T>(s: seq<Scored<T>>, xs: seq<Scored<T>>, minScore: int, limit: nat): (r: seq<Scored<T>>)
    decreases |xs|
  {
    if xs == [] then s else Feed(Offer(s, xs[0], minScore, limit), xs[1..], minScore, limit)
  }

  /** Each item paired with its score against `query`. */
  function ScoreAll<T>(query: string, score: (string, T) -> int, xs: seq<T>): (r: seq<Scored<T>>)
    ensures |r| == |xs|
    ensures forall i :: 0 <= i < |xs| ==> r[i] == Scored(xs[i], score(query, xs[i]))
  {
    seq(|xs|, i requires 0 <= i < |xs| => Scored(xs[i], score(query, xs[i])))
  }

  // ---------------------------------------------------------------------
  // Insertion

  /** Inserting keeps the order. */
  lemma {:induction false} InsertDescending<T>(s: seq<Scored<T>>, x: Scored<T>)
    requires Descending(s)
    ensures Descending(Insert(s, x))
  {
    if s != [] && s[0].score >= x.score {
      InsertDescending(s[1..], x);
      var r := Insert(s, x);
      assert r == [s[0]] + Insert(s[1..], x);
      InsertMembers(s[1..], x);
      forall j | 0 < j < |r| ensures s[0].score >= r[j].score {
        assert r[j] in Insert(s[1..], x);
        if r[j] != x {
          InsertMember(s[1..], x, r[j]);
          var m :| 0 <= m < |s[1..]| && s[1..][m] == r[j];
          assert s[m + 1] == r[j];
        }
      }
    }
  }

  /** Inserting adds exactly `x`: the result is a permutation of `s + [x]`. */
  lemma {:induction false} InsertPermutes<T>(s: seq<Scored<T>>, x: Scored<T>)
    ensures multiset(Insert(s, x)) == multiset(s) + multiset{x}
  {
    if s != [] && s[0].score >= x.score {
      InsertPermutes(s[1..], x);
      assert s == [s[0]] + s[1..];
    }
  }

  /** Inserting adds `x` and nothing else. */
  lemma InsertMembers<T>(s: seq<Scored<T>>, x: Scored<T>)
    ensures forall y :: y in Insert(s, x) <==> y in s || y == x
  {
    forall y ensures y in Insert(s, x) <==> y in s || y == x {
      InsertMember(s, x, y);
    }
  }

  lemma InsertMember<T>(s: seq<Scored<T>>, x: Scored<T>, y: Scored<T>)
    ensures y in Insert(s, x) <==> y in s || y == x
  {
    InsertPermutes(s, x);
    assert y in Insert(s, x) <==> y in multiset(Insert(s, x));
    assert y in s <==> y in multiset(s);
  }

  /** Insertion is stable: `x` lands right after the entries scoring at least
      as much as it does, before the first that scores less. */
  lemma {:induction false} InsertAt<T>(s: seq<Scored<T>>, x: Scored<T>, k: nat)
    requires k <= |s|
    requires forall j :: 0 <= j < k ==> s[j].score >= x.score
    requires k == |s| || s[k].score < x.score
    ensures Insert(s, x) == s[..k] + [x] + s[k..]
  {
    if k > 0 {
      InsertAt(s[1..], x, k - 1);
      assert s[1..][..k - 1] == s[1..k];
      assert s[1..][k - 1..] == s[k..];
      assert s[..k] == [s[0]] + s[1..k];
    }
  }

  /** Where insertion puts `x`: after every entry scoring at least as much,
      before the first that scores less. */
  lemma {:induction false} InsertPosition<T>(s: seq<Scored<T>>, x: Scored<T>) returns (k: nat)
    ensures k <= |s| && Insert(s, x) == s[..k] + [x] + s[k..]
    ensures forall j :: 0 <= j < k ==> s[j].score >= x.score
    ensures k < |s| ==> s[k].score < x.score
  {
    if s == [] || s[0].score < x.score {
      k := 0;
    } else {
      var k' := InsertPosition(s[1..], x);
      k := k' + 1;
      assert s[1..][..k'] == s[1..k];
      assert s[1..][k'..] == s[k..];
      assert s[..k] == [s[0]] + s[1..k];
    }
  }

  // ---------------------------------------------------------------------
  // One append

  /** An append keeps a result list well formed. */
  lemma OfferWellFormed<T>(s: seq<Scored<T>>, x: Scored<T>, minScore: int, limit: nat)
    requires WellFormed(s, minScore, limit)
    ensures WellFormed(Offer(s, x, minScore, limit), minScore, limit)
  {
    if x.score >= minScore {
      InsertDescending(s, x);
      InsertMembers(s, x);
      var r := Insert(s, x);
      forall i | 0 <= i < |r| ensures r[i].score >= minScore {
        assert r[i] in r;
        if r[i] != x {
          InsertMember(s, x, r[i]);
          var m :| 0 <= m < |s| && s[m] == r[i];
        }
      }
    }
  }

  /** An append keeps only what was there and the new entry. */
  lemma OfferSubset<T>(s: seq<Scored<T>>, x: Scored<T>, minScore: int, limit: nat)
    ensures multiset(Offer(s, x, minScore, limit)) <= multiset(s) + multiset{x}
  {
    if x.score >= minScore {
      var r := Insert(s, x);
      InsertPermutes(s, x);
      if |r| > limit {
        assert r == r[..limit] + r[limit..];
      }
    }
  }

  /** An entry at or above the minimum is kept, unless the list is full of
      entries scoring at least as much; and an entry already kept stays unless
      the list is full of entries scoring at least as much. */
  lemma OfferKeepsOrDominates<T>(s: seq<Scored<T>>, x: Scored<T>, minScore: int, limit: nat, y: Scored<T>)
    requires WellFormed(s, minScore, limit)
    requires y in s || (y == x && x.score >= minScore)
    ensures var r := Offer(s, x, minScore, limit);
      y in r || (|r| == limit && forall e :: e in r ==> e.score >= y.score)
  {
    if x.score >= minScore {
      var ins := Insert(s, x);
      InsertDescending(s, x);
      InsertMembers(s, x);
      assert y in ins;
      if |ins| > limit {
        var r := ins[..limit];
        if y !in r {
          var p :| 0 <= p < |ins| && ins[p] == y;
          assert p >= limit;
          forall e | e in r ensures e.score >= y.score {
            var q :| 0 <= q < |r| && r[q] == e;
            assert ins[q] == e;
          }
        }
      }
    }
  }

  /** A full list whose every entry scores at least `bar` stays so after an
      append. */
  lemma OfferKeepsBar<T>(s: seq<Scored<T>>, x: Scored<T>, minScore: int, limit: nat, bar: int)
    requires WellFormed(s, minScore, limit)
    requires |s| == limit && forall e :: e in s ==> e.score >= bar
    ensures var r := Offer(s, x, minScore, limit);
      |r| == limit && forall e :: e in r ==> e.score >= bar
  {
    if x.score >= minScore {
      var k := InsertPosition(s, x);
      var ins := Insert(s, x);
      var r := ins[..limit];
      forall e | e in r ensures e.score >= bar {
        var q :| 0 <= q < limit && r[q] == e;
        if q < k {
          assert e == s[q];
        } else if q == k {
          // x took a place in the list: it outscores the entry it pushed back
          assert e == x && s[k] in s;
        } else {
          assert e == s[q - 1];
        }
      }
    }
  }

  // ---------------------------------------------------------------------
  // A run of appends

  /** Appending in turn keeps a result list well formed. */
  lemma {:induction false} FeedWellFormed<T>(s: seq<Scored<T>>, xs: seq<Scored<T>>, minScore: int, limit: nat)
    requires WellFormed(s, minScore, limit)
    ensures WellFormed(Feed(s, xs, minScore, limit), minScore, limit)
    decreases |xs|
  {
    if xs != [] {
      OfferWellFormed(s, xs[0], minScore, limit);
      FeedWellFormed(Offer(s, xs[0], minScore, limit), xs[1..], minScore, limit);
    }
  }

  /** Appending one more item after a run is one more `Offer`. */
  lemma {:induction false} FeedSnoc<T>(s: seq<Scored<T>>, xs: seq<Scored<T>>, x: Scored<T>, minScore: int, limit: nat)
    ensures Feed(s, xs + [x], minScore, limit) == Offer(Feed(s, xs, minScore, limit), x, minScore, limit)
    decreases |xs|
  {
    if xs == [] {
      assert [x][1..] == [];
    } else {
      assert (xs + [x])[1..] == xs[1..] + [x];
      FeedSnoc(Offer(s, xs[0], minScore, limit), xs[1..], x, minScore, limit);
    }
  }

  /** The result holds nothing but what was there and what was appended. */
  lemma {:induction false} FeedSubset<T>(s: seq<Scored<T>>, xs: seq<Scored<T>>, minScore: int, limit: nat)
    ensures multiset(Feed(s, xs, minScore, limit)) <= multiset(s) + multiset(xs)
    decreases |xs|
  {
    if xs != [] {
      OfferSubset(s, xs[0], minScore, limit);
      FeedSubset(Offer(s, xs[0], minScore, limit), xs[1..], minScore, limit);
      assert xs == [xs[0]] + xs[1..];
    }
  }

  lemma {:induction false} FeedKeepsBar<T>(s: seq<Scored<T>>, xs: seq<Scored<T>>, minScore: int, limit: nat, bar: int)
    requires WellFormed(s, minScore, limit)
    requires |s| == limit && forall e :: e in s ==> e.score >= bar
    ensures var r := Feed(s, xs, minScore, limit);
      |r| == limit && forall e :: e in r ==> e.score >= bar
    decreases |xs|
  {
    if xs != [] {
      OfferKeepsBar(s, xs[0], minScore, limit, bar);
      OfferWellFormed(s, xs[0], minScore, limit);
      FeedKeepsBar(Offer(s, xs[0], minScore, limit), xs[1..], minScore, limit, bar);
    }
  }

  /** The result is the best of what was offered: every entry that reached
      the minimum score is in the result, or else the result is full and
      every entry in it scores at least as much. */
  lemma {:induction false} FeedKeepsBest<T>(s: seq<Scored<T>>, xs: seq<Scored<T>>, minScore: int, limit: nat, y: Scored<T>)
    requires WellFormed(s, minScore, limit)
    requires y in s || (y in xs && y.score >= minScore)
    ensures var r := Feed(s, xs, minScore, limit);
      y in r || (|r| == limit && forall e :: e in r ==> e.score >= y.score)
    decreases |xs|
  {
    if xs != [] {
      var s' := Offer(s, xs[0], minScore, limit);
      OfferWellFormed(s, xs[0], minScore, limit);
      if y in s || y == xs[0] {
        OfferKeepsOrDominates(s, xs[0], minScore, limit, y);
        if y in s' {
          FeedKeepsBest(s', xs[1..], minScore, limit, y);
        } else {
          FeedKeepsBar(s', xs[1..], minScore, limit, y.score);
        }
      } else {
        assert y in xs[1..];
        FeedKeepsBest(s', xs[1..], minScore, limit, y);
      }
    }
  }

  // ---------------------------------------------------------------------
  // The list object

  /** `bisect_right` on a descending list: the first index whose score is
      below `score`, found by halving. */
  method InsertionPoint<T>(s: seq<Scored<T>>, score: int) returns (k: nat)
    requires Descending(s)
    ensures k <= |s|
    ensures forall j :: 0 <= j < k ==> s[j].score >= score
    ensures forall j :: k <= j < |s| ==> s[j].score < score
  {
    var lo, hi := 0, |s|;
    while lo < hi
      invariant 0 <= lo <= hi <= |s|
      invariant forall j :: 0 <= j < lo ==> s[j].score >= score
      invariant forall j :: hi <= j < |s| ==> s[j].score < score
    {
      var mid := (lo + hi) / 2;
      if s[mid].score >= score {
        lo := mid + 1;
      } else {
        hi := mid;
      }
    }
    k := lo;
  }

  class SortedList<T(==)> {
    const query: string
    const minScore: int
    const limit: nat
    /** The fuzzy scorer, given the query and an item. */
    const score: (string, T) -> int
    var items: seq<Scored<T>>

    ghost predicate Valid()
      reads this
    {
      WellFormed(items, minScore, limit)
    }

    constructor (query: string, minScore: int, limit: nat, score: (string, T) -> int)
      ensures Valid()
      ensures this.query == query && this.minScore == minScore && this.limit == limit
      ensures this.score == score && items == []
    {
      this.query, this.minScore, this.limit, this.score := query, minScore, limit, score;
      items := [];
    }

    /** `append(item)`: score the item and, if it reaches the minimum, insert
        it after every entry scoring at least as much, then drop the lowest
        entries beyond the limit. */
    method Append(x: T)
      requires Valid()
      modifies this
      ensures Valid()
      ensures items == Offer(old(items), Scored(x, score(query, x)), minScore, limit)
    {
      var entry := Scored(x, score(query, x));
      if entry.score >= minScore {
        var k := InsertionPoint(items, entry.score);
        InsertAt(items, entry, k);
        var grown := items[..k] + [entry] + items[k..];
        InsertDescending(items, entry);
        OfferWellFormed(items, entry, minScore, limit);
        items := if |grown| <= limit then grown else grown[..limit];
      }
    }
  }
}

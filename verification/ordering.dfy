/** The ordering of the list route (server.js:51): `Array.prototype.sort`
    with a comparator that parses both ISO `createdAt` strings back into
    dates and subtracts them, so the creation instants are compared, newest
    first. `createdAt` is modelled as those instants in milliseconds. The
    built-in sort is stable, so cards created in the same millisecond keep
    their array order. The model sorts by stable insertion. */
module Ordering {
  import opened Cards

  /** Newest first. */
  predicate SortedDesc(cs: seq<Card>) {
    forall i, j :: 0 <= i < j < |cs| ==> cs[i].createdAt >= cs[j].createdAt
  }

  /** The cards of `cs` created at instant `t`, in their order in `cs`. */
  function WithTime(cs: seq<Card>, t: int): (r: seq<Card>)
    ensures forall c :: c in r <==> c in cs && c.createdAt == t
  {
    if |cs| == 0 then [] else Single(cs[0], t) + WithTime(cs[1..], t)
  }

  /** `[c]` when `c` was created at `t`, else nothing. */
  function Single(c: Card, t: int): seq<Card> {
    if c.createdAt == t then [c] else []
  }

  /** Insert `c` before the first card that is not newer than it. */
  function Insert(c: Card, cs: seq<Card>): (r: seq<Card>)
    ensures multiset(r) == multiset(cs) + multiset{c}
  {
    if |cs| == 0 || c.createdAt >= cs[0].createdAt then [c] + cs
    else
      assert cs == [cs[0]] + cs[1..];
      [cs[0]] + Insert(c, cs[1..])
  }

  /** Every card of a newest-first sequence is no newer than its head. */
  lemma HeadIsNewest(cs: seq<Card>, x: Card)
    requires SortedDesc(cs) && |cs| > 0 && x in cs
    ensures x.createdAt <= cs[0].createdAt
  {
  }

  /** Putting a card no older than every card of a newest-first sequence in
      front of it keeps the order. */
  lemma ConsSorted(c: Card, cs: seq<Card>)
    requires SortedDesc(cs)
    requires forall x :: x in cs ==> x.createdAt <= c.createdAt
    ensures SortedDesc([c] + cs)
  {
    var r := [c] + cs;
    forall i, j | 0 <= i < j < |r|
      ensures r[i].createdAt >= r[j].createdAt
    {
      assert r[j] == cs[j - 1] && r[j] in cs;
    }
  }

  /** Insertion keeps a newest-first sequence newest first. */
  lemma {:induction false} InsertSorted(c: Card, cs: seq<Card>)
    requires SortedDesc(cs)
    ensures SortedDesc(Insert(c, cs))
  {
    if |cs| == 0 || c.createdAt >= cs[0].createdAt {
      forall x | x in cs
        ensures x.createdAt <= c.createdAt
      {
        HeadIsNewest(cs, x);
      }
      ConsSorted(c, cs);
    } else {
      var r := Insert(c, cs[1..]);
      InsertSorted(c, cs[1..]);
      forall x | x in r
        ensures x.createdAt <= cs[0].createdAt
      {
        assert x in multiset(r);
        if x != c {
          assert x in cs;
          HeadIsNewest(cs, x);
        }
      }
      ConsSorted(cs[0], r);
    }
  }

  /** The list route's sort. */
  function SortDesc(cs: seq<Card>): (r: seq<Card>)
    ensures multiset(r) == multiset(cs)
    ensures SortedDesc(r)
  {
    if |cs| == 0 then []
    else
      assert cs == [cs[0]] + cs[1..];
      var rest := SortDesc(cs[1..]);
      InsertSorted(cs[0], rest);
      Insert(cs[0], rest)
  }

  /** The time group of a sequence with a known head. */
  lemma WithTimeCons(x: Card, rest: seq<Card>, t: int)
    ensures WithTime([x] + rest, t) == Single(x, t) + WithTime(rest, t)
  {
    assert ([x] + rest)[1..] == rest;
  }

  /** Cards of different instants never share a time group, so their
      singleton groups can be swapped. */
  lemma SinglesCommute(a: Card, b: Card, t: int, rest: seq<Card>)
    requires a.createdAt != b.createdAt
    ensures Single(b, t) + (Single(a, t) + rest) == Single(a, t) + (Single(b, t) + rest)
  {
    if a.createdAt == t {
      assert Single(b, t) == [];
    } else {
      assert Single(a, t) == [];
    }
  }

  /** Inserting `c` puts it at the front of its own time group. */
  lemma {:induction false} InsertStable(c: Card, cs: seq<Card>, t: int)
    ensures WithTime(Insert(c, cs), t) == Single(c, t) + WithTime(cs, t)
  {
    if |cs| == 0 || c.createdAt >= cs[0].createdAt {
      WithTimeCons(c, cs, t);
    } else {
      var tail := cs[1..];
      var r := Insert(c, tail);
      calc {
        WithTime(Insert(c, cs), t);
        WithTime([cs[0]] + r, t);
        { WithTimeCons(cs[0], r, t); }
        Single(cs[0], t) + WithTime(r, t);
        { InsertStable(c, tail, t); }
        Single(cs[0], t) + (Single(c, t) + WithTime(tail, t));
        { SinglesCommute(c, cs[0], t, WithTime(tail, t)); }
        Single(c, t) + (Single(cs[0], t) + WithTime(tail, t));
        { WithTimeCons(cs[0], tail, t); }
        Single(c, t) + WithTime([cs[0]] + tail, t);
        { assert cs == [cs[0]] + tail; }
        Single(c, t) + WithTime(cs, t);
      }
    }
  }

  /** The sort is stable: within every time group the order is unchanged. */
  lemma {:induction false} SortStable(cs: seq<Card>, t: int)
    ensures WithTime(SortDesc(cs), t) == WithTime(cs, t)
  {
    if |cs| > 0 {
      SortStable(cs[1..], t);
      InsertStable(cs[0], SortDesc(cs[1..]), t);
    }
  }

  /** An already sorted sequence is left as it is. */
  lemma {:induction false} SortSorted(cs: seq<Card>)
    requires SortedDesc(cs)
    ensures SortDesc(cs) == cs
  {
    if |cs| > 0 {
      SortSorted(cs[1..]);
    }
  }

  /** A card is in a sequence exactly when it is in its own time group. */
  lemma InOwnGroup(c: Card, cs: seq<Card>)
    ensures c in cs <==> c in WithTime(cs, c.createdAt)
  {
  }

  /** Two newest-first sequences with the same time groups start with the
      same card. */
  lemma SameHead(a: seq<Card>, b: seq<Card>)
    requires SortedDesc(a) && SortedDesc(b) && |a| > 0 && |b| > 0
    requires forall t :: WithTime(a, t) == WithTime(b, t)
    ensures a[0] == b[0]
  {
    var ta, tb := a[0].createdAt, b[0].createdAt;
    InOwnGroup(b[0], b);
    InOwnGroup(b[0], a);
    InOwnGroup(a[0], a);
    InOwnGroup(a[0], b);
    assert ta == tb;
    assert WithTime(a, ta) == [a[0]] + WithTime(a[1..], ta);
    assert WithTime(b, ta) == [b[0]] + WithTime(b[1..], ta);
    assert WithTime(a, ta)[0] == a[0];
  }

  /** Dropping the same first card keeps the time groups equal. */
  lemma SameTailGroups(a: seq<Card>, b: seq<Card>, t: int)
    requires |a| > 0 && |b| > 0 && a[0] == b[0]
    requires WithTime(a, t) == WithTime(b, t)
    ensures WithTime(a[1..], t) == WithTime(b[1..], t)
  {
    var ra, rb := WithTime(a[1..], t), WithTime(b[1..], t);
    assert WithTime(a, t) == Single(a[0], t) + ra;
    assert WithTime(b, t) == Single(b[0], t) + rb;
    if a[0].createdAt == t {
      assert ([a[0]] + ra)[1..] == ra && ([b[0]] + rb)[1..] == rb;
    } else {
      assert [] + ra == ra && [] + rb == rb;
    }
  }

  /** Descending order plus the order inside every time group fix the
      sequence completely. */
  lemma {:induction false} SortedGroupsDetermine(a: seq<Card>, b: seq<Card>)
    requires SortedDesc(a) && SortedDesc(b)
    requires forall t :: WithTime(a, t) == WithTime(b, t)
    ensures a == b
    decreases |a|
  {
    if |a| > 0 {
      InOwnGroup(a[0], a);
      InOwnGroup(a[0], b);
    }
    if |b| > 0 {
      InOwnGroup(b[0], b);
      InOwnGroup(b[0], a);
    }
    if |a| > 0 {
      SameHead(a, b);
      forall t
        ensures WithTime(a[1..], t) == WithTime(b[1..], t)
      {
        SameTailGroups(a, b, t);
      }
      SortedGroupsDetermine(a[1..], b[1..]);
      assert a == [a[0]] + a[1..] && b == [b[0]] + b[1..];
    }
  }

  /** The list order is newest first and keeps same-instant cards in their
      stored order. */
  lemma SortIsStableDesc(cs: seq<Card>)
    ensures IsStableDescOf(SortDesc(cs), cs)
  {
    forall t
      ensures WithTime(SortDesc(cs), t) == WithTime(cs, t)
    {
      SortStable(cs, t);
    }
  }

  /** Reference meaning of the list order: `out` is `cs` newest first, with
      cards created at the same instant in the order they have in `cs`. */
  ghost predicate IsStableDescOf(out: seq<Card>, cs: seq<Card>) {
    SortedDesc(out) && forall t :: WithTime(out, t) == WithTime(cs, t)
  }

  /** The list order is the one and only newest-first order of the cards
      that keeps same-instant cards in their stored order. */
  lemma SortCharacterised(cs: seq<Card>, out: seq<Card>)
    ensures out == SortDesc(cs) <==> IsStableDescOf(out, cs)
  {
    var sorted := SortDesc(cs);
    SortIsStableDesc(cs);
    if IsStableDescOf(out, cs) {
      forall t
        ensures WithTime(out, t) == WithTime(sorted, t)
      {
      }
      SortedGroupsDetermine(out, sorted);
    }
  }

  /** Sorting keeps the numbers distinct. */
  lemma {:induction false} SortKeepsDistinct(cs: seq<Card>)
    requires DistinctNums(cs)
    ensures DistinctNums(SortDesc(cs))
  {
    if |cs| > 0 {
      SortKeepsDistinct(cs[1..]);
      var rest := SortDesc(cs[1..]);
      forall x | x in rest
        ensures x.num != cs[0].num
      {
        assert x in multiset(cs[1..]);
        var k :| 0 <= k < |cs[1..]| && cs[1..][k] == x;
        assert x == cs[k + 1];
      }
      InsertKeepsDistinct(cs[0], rest);
    }
  }

  /** Putting a card with a fresh number in front keeps numbers distinct. */
  lemma ConsDistinct(c: Card, cs: seq<Card>)
    requires DistinctNums(cs)
    requires forall x :: x in cs ==> x.num != c.num
    ensures DistinctNums([c] + cs)
  {
    var r := [c] + cs;
    forall i, j | 0 <= i < j < |r|
      ensures r[i].num != r[j].num
    {
      assert r[j] == cs[j - 1] && r[j] in cs;
    }
  }

  lemma {:induction false} InsertKeepsDistinct(c: Card, cs: seq<Card>)
    requires DistinctNums(cs)
    requires forall x :: x in cs ==> x.num != c.num
    ensures DistinctNums(Insert(c, cs))
  {
    if |cs| == 0 || c.createdAt >= cs[0].createdAt {
      ConsDistinct(c, cs);
    } else {
      var tail := cs[1..];
      assert forall x :: x in tail ==> x in cs;
      InsertKeepsDistinct(c, tail);
      var r := Insert(c, tail);
      forall x | x in r
        ensures x.num != cs[0].num
      {
        assert x in multiset(r);
        if x != c {
          var k :| 0 <= k < |tail| && tail[k] == x;
          assert x == cs[k + 1];
        }
      }
      ConsDistinct(cs[0], r);
    }
  }
}

/**
  The bounded queues of (distance, node) pairs that `get_better_nodes` and `sub_search::run` build
  by insertion, and the ranking they are a prefix of.

  Both insert a pair before the first one that is not nearer, drop it when every pair is nearer, and
  cut the queue at a capacity. The search queue also removes the other copies of the pair (`unique`).
 */
module Ranking {
  import opened Lists
  import opened Messages

  datatype Entry = Entry(dist: nat, node: NodeRecord)

  /** `==` on pairs. */
  predicate SameEntry(e: Entry, f: Entry) {
    e.dist == f.dist && SameNode(e.node, f.node)
  }

  lemma SameEntryExactly(e: Entry, f: Entry)
    ensures SameEntry(e, f) <==> e.(node := e.node.(nodeId := f.node.nodeId)) == f
  {
  }

  // ----- the ideal ranking

  /** The entries no farther than d. */
  function Within(s: seq<Entry>, d: nat): seq<Entry> {
    if s == [] then []
    else if s[0].dist <= d then [s[0]] + Within(s[1..], d)
    else Within(s[1..], d)
  }

  predicate HasCopy(s: seq<Entry>, x: Entry) {
    exists i :: 0 <= i < |s| && SameEntry(s[i], x)
  }

  /** The entries that no later entry is a copy of. */
  function Latest(unique: bool, s: seq<Entry>): seq<Entry> {
    if s == [] then []
    else if unique && HasCopy(s[1..], s[0]) then Latest(unique, s[1..])
    else [s[0]] + Latest(unique, s[1..])
  }

  /** Nearest first; among equally near entries, the last one first. */
  function Rank(s: seq<Entry>): seq<Entry> {
    if s == [] then [] else Place(Rank(s[..|s| - 1]), s[|s| - 1])
  }

  function Place(q: seq<Entry>, x: Entry): seq<Entry> {
    if q == [] then [x]
    else if x.dist <= q[0].dist then [x] + q
    else [q[0]] + Place(q[1..], x)
  }

  /** The ranking of those entries that are no farther than the first one. */
  function Ideal(unique: bool, s: seq<Entry>): seq<Entry> {
    if s == [] then [] else Rank(Latest(unique, Within(s, s[0].dist)))
  }

  // ----- what characterises the ranking

  predicate Sorted(q: seq<Entry>) {
    forall i, j :: 0 <= i < j < |q| ==> q[i].dist <= q[j].dist
  }

  /** The entries at distance d, in order. */
  function AtDistance(s: seq<Entry>, d: nat): seq<Entry> {
    if s == [] then []
    else if s[0].dist == d then [s[0]] + AtDistance(s[1..], d)
    else AtDistance(s[1..], d)
  }

  /** Sorted, and each distance class of s reversed. */
  ghost predicate IsRanking(q: seq<Entry>, s: seq<Entry>) {
    Sorted(q) && forall d :: AtDistance(q, d) == Reverse(AtDistance(s, d))
  }

  lemma {:induction false} PlaceMembers(q: seq<Entry>, x: Entry)
    ensures multiset(Place(q, x)) == multiset(q) + multiset{x}
    ensures forall e :: e in Place(q, x) <==> e in q || e == x
  {
    if q != [] && x.dist > q[0].dist {
      PlaceMembers(q[1..], x);
      assert q == [q[0]] + q[1..];
    }
  }

  lemma {:induction false} PlaceSorted(q: seq<Entry>, x: Entry)
    requires Sorted(q)
    ensures Sorted(Place(q, x))
  {
    if q != [] && x.dist > q[0].dist {
      PlaceSorted(q[1..], x);
      PlaceMembers(q[1..], x);
      var r := Place(q[1..], x);
      forall j | 0 <= j < |r|
        ensures q[0].dist <= r[j].dist
      {
        assert r[j] in r;
      }
    }
  }

  lemma {:induction false} PlaceAtDistance(q: seq<Entry>, x: Entry, d: nat)
    requires Sorted(q)
    ensures AtDistance(Place(q, x), d) == if x.dist == d then [x] + AtDistance(q, d) else AtDistance(q, d)
  {
    if q != [] && x.dist > q[0].dist {
      PlaceAtDistance(q[1..], x, d);
      assert Place(q, x)[1..] == Place(q[1..], x);
    } else {
      assert q != [] ==> ([x] + q)[1..] == q;
    }
  }

  lemma {:induction false} AtDistanceSnoc(s: seq<Entry>, x: Entry, d: nat)
    ensures AtDistance(s + [x], d) == AtDistance(s, d) + if x.dist == d then [x] else []
  {
    if s != [] {
      AtDistanceSnoc(s[1..], x, d);
      assert (s + [x])[1..] == s[1..] + [x];
    }
  }

  lemma RankClass(s: seq<Entry>, x: Entry, d: nat)
    requires IsRanking(Rank(s), s)
    ensures AtDistance(Place(Rank(s), x), d) == Reverse(AtDistance(s + [x], d))
  {
    var r := Rank(s);
    hide Place, Reverse, AtDistance, Rank;
    PlaceAtDistance(r, x, d);
    AtDistanceSnoc(s, x, d);
    ReverseSnoc(AtDistance(s, d), x);
    assert AtDistance(s, d) + [] == AtDistance(s, d);
  }

  lemma {:induction false} RankIsRanking(s: seq<Entry>)
    ensures IsRanking(Rank(s), s)
    ensures multiset(Rank(s)) == multiset(s)
  {
    if s != [] {
      var n := |s| - 1;
      var r, x := Rank(s[..n]), s[n];
      assert s == s[..n] + [x];
      RankIsRanking(s[..n]);
      PlaceSorted(r, x);
      PlaceMembers(r, x);
      forall d: nat
        ensures AtDistance(Rank(s), d) == Reverse(AtDistance(s, d))
      {
        RankClass(s[..n], x, d);
      }
    }
  }

  lemma {:induction false} AtDistanceMember(q: seq<Entry>, d: nat)
    ensures forall e :: e in AtDistance(q, d) <==> e in q && e.dist == d
  {
    if q != [] {
      AtDistanceMember(q[1..], d);
      assert q == [q[0]] + q[1..];
    }
  }

  /** No other list is a ranking of s. */
  lemma {:induction false} RankingUnique(p: seq<Entry>, q: seq<Entry>)
    requires Sorted(p) && Sorted(q)
    requires forall d :: AtDistance(p, d) == AtDistance(q, d)
    ensures p == q
  {
    if p != [] || q != [] {
      forall e
        ensures e in p <==> e in q
      {
        AtDistanceMember(p, e.dist);
        AtDistanceMember(q, e.dist);
      }
      assert p != [] ==> p[0] in q;
      assert q != [] ==> q[0] in p;
      if p != [] && q != [] {
        assert p[0].dist == q[0].dist;
        var d := p[0].dist;
        assert AtDistance(p, d)[0] == p[0] && AtDistance(q, d)[0] == q[0];
        forall d: nat
          ensures AtDistance(p[1..], d) == AtDistance(q[1..], d)
        {
          assert AtDistance(p, d) == AtDistance(q, d);
          assert p[0].dist == d ==> AtDistance(p, d)[1..] == AtDistance(p[1..], d);
          assert q[0].dist == d ==> AtDistance(q, d)[1..] == AtDistance(q[1..], d);
        }
        RankingUnique(p[1..], q[1..]);
        assert p == [p[0]] + p[1..] && q == [q[0]] + q[1..];
      }
    }
  }

  // ----- insertion into a bounded queue

  /** `list::remove` of the copies of x, when copies are removed at all. */
  function Without(unique: bool, s: seq<Entry>, x: Entry): seq<Entry> {
    if s == [] then []
    else if unique && SameEntry(s[0], x) then Without(unique, s[1..], x)
    else [s[0]] + Without(unique, s[1..], x)
  }

  /** x before the first entry that is not nearer, and the copies of x after it removed. */
  function Insert(unique: bool, q: seq<Entry>, x: Entry): seq<Entry> {
    if q == [] then [x]
    else if x.dist <= q[0].dist then [x] + Without(unique, q, x)
    else [q[0]] + Insert(unique, q[1..], x)
  }

  predicate AllNearer(q: seq<Entry>, x: Entry) {
    forall i :: 0 <= i < |q| ==> q[i].dist < x.dist
  }

  /** What both queues do with one more entry. */
  function Offer(unique: bool, q: seq<Entry>, x: Entry, cap: nat): seq<Entry> {
    if q == [] then [x]
    else if AllNearer(q, x) then q
    else Take(Insert(unique, q, x), cap)
  }

  /** The queue after a run of offers to an empty one. */
  function Offered(unique: bool, s: seq<Entry>, cap: nat): seq<Entry> {
    if s == [] then [] else Offer(unique, Offered(unique, s[..|s| - 1], cap), s[|s| - 1], cap)
  }

  // ----- what Without does

  lemma {:induction false} WithoutMembers(unique: bool, s: seq<Entry>, x: Entry)
    ensures forall e :: e in Without(unique, s, x) <==> e in s && !(unique && SameEntry(e, x))
  {
    if s != [] {
      WithoutMembers(unique, s[1..], x);
      assert s == [s[0]] + s[1..];
    }
  }

  lemma {:induction false} WithoutSnoc(unique: bool, s: seq<Entry>, y: Entry, x: Entry)
    ensures Without(unique, s + [y], x)
      == Without(unique, s, x) + if unique && SameEntry(y, x) then [] else [y]
  {
    if s != [] {
      WithoutSnoc(unique, s[1..], y, x);
      assert (s + [y])[1..] == s[1..] + [y];
    }
  }

  lemma {:induction false} WithoutNone(unique: bool, s: seq<Entry>, x: Entry)
    requires unique ==> !HasCopy(s, x)
    ensures Without(unique, s, x) == s
  {
    if s != [] {
      assert unique ==> !SameEntry(s[0], x);
      assert unique ==> forall i :: 0 <= i < |s[1..]| ==> s[1..][i] == s[i + 1];
      WithoutNone(unique, s[1..], x);
    }
  }

  lemma {:induction false} WithoutPlace(unique: bool, q: seq<Entry>, y: Entry, x: Entry)
    requires Sorted(q)
    ensures Without(unique, Place(q, y), x)
      == if unique && SameEntry(y, x) then Without(unique, q, x) else Place(Without(unique, q, x), y)
  {
    if q != [] {
      if y.dist > q[0].dist {
        WithoutPlace(unique, q[1..], y, x);
        assert Place(q, y)[1..] == Place(q[1..], y);
      } else {
        assert ([y] + q)[1..] == q;
        WithoutNearest(unique, q, y, x);
      }
    }
  }

  /** Removing entries does not bring nearer ones to the front. */
  lemma WithoutNearest(unique: bool, q: seq<Entry>, y: Entry, x: Entry)
    requires Sorted(q) && q != [] && y.dist <= q[0].dist
    ensures Place(Without(unique, q, x), y) == [y] + Without(unique, q, x)
  {
    var w := Without(unique, q, x);
    WithoutMembers(unique, q, x);
    if w != [] {
      assert w[0] in w;
    }
  }

  lemma {:induction false} RankWithout(unique: bool, s: seq<Entry>, x: Entry)
    ensures Rank(Without(unique, s, x)) == Without(unique, Rank(s), x)
  {
    if s != [] {
      var t, y := s[..|s| - 1], s[|s| - 1];
      assert s == t + [y];
      RankWithout(unique, t, x);
      WithoutSnoc(unique, t, y, x);
      RankIsRanking(t);
      WithoutPlace(unique, Rank(t), y, x);
      RankSnoc(t, y);
      RankSnoc(Without(unique, t, x), y);
      hide Rank, Place, Without;
      assert Without(unique, t, x) + [] == Without(unique, t, x);
    }
  }

  lemma RankSnoc(s: seq<Entry>, x: Entry)
    ensures Rank(s + [x]) == Place(Rank(s), x)
  {
    assert (s + [x])[..|s|] == s;
  }

  lemma {:induction false} InsertIsPlace(unique: bool, q: seq<Entry>, x: Entry)
    requires Sorted(q)
    ensures Insert(unique, q, x) == Place(Without(unique, q, x), x)
  {
    if q != [] {
      if x.dist <= q[0].dist {
        WithoutNearest(unique, q, x, x);
      } else {
        InsertIsPlace(unique, q[1..], x);
      }
    }
  }

  lemma {:induction false} InsertAt(unique: bool, q: seq<Entry>, x: Entry, k: nat)
    requires k < |q| && x.dist <= q[k].dist
    requires forall i :: 0 <= i < k ==> q[i].dist < x.dist
    ensures Insert(unique, q, x) == q[..k] + [x] + Without(unique, q[k..], x)
  {
    if k > 0 {
      var t := q[1..];
      assert forall i :: 0 <= i < |t| ==> t[i] == q[i + 1];
      InsertAt(unique, t, x, k - 1);
      assert t[k - 1..] == q[k..] && q[..k] == [q[0]] + t[..k - 1];
    } else {
      assert q[0..] == q;
    }
  }

  // ----- the ideal ranking grows by insertion

  lemma {:induction false} WithinSnoc(s: seq<Entry>, x: Entry, d: nat)
    ensures Within(s + [x], d) == Within(s, d) + if x.dist <= d then [x] else []
  {
    if s != [] {
      WithinSnoc(s[1..], x, d);
      assert (s + [x])[1..] == s[1..] + [x];
    }
  }

  lemma HasCopySnoc(s: seq<Entry>, x: Entry, y: Entry)
    ensures HasCopy(s + [x], y) <==> HasCopy(s, y) || SameEntry(x, y)
  {
    var t := s + [x];
    assert t[|s|] == x;
    assert forall i :: 0 <= i < |s| ==> t[i] == s[i];
  }

  lemma {:induction false} LatestSnoc(unique: bool, s: seq<Entry>, x: Entry)
    ensures Latest(unique, s + [x]) == Without(unique, Latest(unique, s), x) + [x]
  {
    if s != [] {
      LatestSnoc(unique, s[1..], x);
      assert (s + [x])[1..] == s[1..] + [x];
      HasCopySnoc(s[1..], x, s[0]);
    }
  }

  lemma IdealSnoc(unique: bool, s: seq<Entry>, x: Entry)
    requires s != []
    ensures Ideal(unique, s + [x])
      == if x.dist <= s[0].dist then Insert(unique, Ideal(unique, s), x) else Ideal(unique, s)
  {
    var w := Within(s, s[0].dist);
    WithinSnoc(s, x, s[0].dist);
    if x.dist <= s[0].dist {
      var l := Latest(unique, w);
      LatestSnoc(unique, w, x);
      RankWithout(unique, l, x);
      RankIsRanking(l);
      InsertIsPlace(unique, Rank(l), x);
      RankSnoc(Without(unique, l, x), x);
    } else {
      assert w + [] == w;
    }
  }

  // ----- the bounded queue is a prefix of the ideal ranking

  /** No two entries are copies of one another. */
  predicate NoCopies(q: seq<Entry>) {
    forall i, j :: 0 <= i < j < |q| ==> !SameEntry(q[i], q[j])
  }

  lemma {:induction false} TakeWithout(unique: bool, q: seq<Entry>, x: Entry, n: nat)
    requires unique ==> NoCopies(q)
    ensures Take(Without(unique, Take(q, n + 1), x), n) == Take(Without(unique, q, x), n)
  {
    if q != [] {
      var t := Take(q, n + 1);
      assert t[0] == q[0] && t[1..] == Take(q[1..], n);
      if unique && SameEntry(q[0], x) {
        OnlyCopy(q, x);
        WithoutNone(unique, q[1..], x);
        WithoutNone(unique, t[1..], x);
      } else if n > 0 {
        TakeWithout(unique, q[1..], x, n - 1);
        TakeCons(q[0], Without(unique, t[1..], x), n);
        TakeCons(q[0], Without(unique, q[1..], x), n);
      }
    }
  }

  lemma OnlyCopy(q: seq<Entry>, x: Entry)
    requires NoCopies(q) && q != [] && SameEntry(q[0], x)
    ensures !HasCopy(q[1..], x)
    ensures forall n: nat :: !HasCopy(Take(q[1..], n), x)
  {
    assert forall i :: 0 <= i < |q[1..]| ==> q[1..][i] == q[i + 1];
  }

  /** What lies beyond the capacity does not matter. */
  lemma {:induction false} TakeInsert(unique: bool, q: seq<Entry>, x: Entry, n: nat)
    requires unique ==> NoCopies(q)
    ensures Take(Insert(unique, Take(q, n), x), n) == Take(Insert(unique, q, x), n)
  {
    hide Without;
    if q != [] && n > 0 {
      var t := Take(q, n);
      assert t[0] == q[0] && t[1..] == Take(q[1..], n - 1);
      if x.dist <= q[0].dist {
        TakeWithout(unique, q, x, n - 1);
        TakeCons(x, Without(unique, t, x), n);
        TakeCons(x, Without(unique, q, x), n);
      } else {
        TakeInsert(unique, q[1..], x, n - 1);
        TakeCons(q[0], Insert(unique, t[1..], x), n);
        TakeCons(q[0], Insert(unique, q[1..], x), n);
      }
    }
  }

  lemma TakeCons(x: Entry, q: seq<Entry>, n: nat)
    requires n > 0
    ensures Take([x] + q, n) == [x] + Take(q, n - 1)
  {
  }

  lemma {:induction false} LatestMembers(unique: bool, s: seq<Entry>)
    ensures forall e :: e in Latest(unique, s) ==> e in s
    ensures unique ==> NoCopies(Latest(unique, s))
  {
    if s != [] {
      LatestMembers(unique, s[1..]);
      assert forall e :: e in s[1..] ==> e in s;
      var l := Latest(unique, s[1..]);
      if unique && !HasCopy(s[1..], s[0]) {
        forall j | 0 <= j < |l|
          ensures !SameEntry(s[0], l[j])
        {
          assert l[j] in s[1..];
        }
      }
    }
  }

  lemma {:induction false} LatestKeepsOne(unique: bool, s: seq<Entry>, e: Entry)
    requires e in s
    ensures HasCopy(Latest(unique, s), e)
  {
    var l := Latest(unique, s[1..]);
    if unique && HasCopy(s[1..], s[0]) {
      var i :| 0 <= i < |s[1..]| && SameEntry(s[1..][i], s[0]);
      LatestKeepsOne(unique, s[1..], if e == s[0] then s[1..][i] else e);
    } else if e == s[0] {
      assert SameEntry(Latest(unique, s)[0], e);
    } else {
      LatestKeepsOne(unique, s[1..], e);
      var i :| 0 <= i < |l| && SameEntry(l[i], e);
      assert Latest(unique, s)[i + 1] == l[i];
    }
  }

  lemma {:induction false} WithinMembers(s: seq<Entry>, d: nat)
    ensures forall e :: e in Within(s, d) <==> e in s && e.dist <= d
  {
    if s != [] {
      WithinMembers(s[1..], d);
      assert s == [s[0]] + s[1..];
    }
  }

  lemma {:induction false} PlaceNoCopies(q: seq<Entry>, x: Entry)
    requires NoCopies(q) && !HasCopy(q, x)
    ensures NoCopies(Place(q, x))
  {
    if q != [] && x.dist > q[0].dist {
      var t := q[1..];
      assert forall i :: 0 <= i < |t| ==> t[i] == q[i + 1];
      PlaceNoCopies(t, x);
      PlaceMembers(t, x);
      var r := Place(t, x);
      forall j | 0 <= j < |r|
        ensures !SameEntry(q[0], r[j])
      {
        assert r[j] in t || r[j] == x;
      }
    }
  }

  lemma {:induction false} RankNoCopies(s: seq<Entry>)
    requires NoCopies(s)
    ensures NoCopies(Rank(s))
  {
    if s != [] {
      var t, x := s[..|s| - 1], s[|s| - 1];
      RankNoCopies(t);
      RankIsRanking(t);
      var r := Rank(t);
      forall i | 0 <= i < |r|
        ensures !SameEntry(r[i], x)
      {
        assert r[i] in multiset(r);
        assert r[i] in t;
      }
      PlaceNoCopies(Rank(t), x);
    }
  }

  /** The ideal ranking keeps an entry as far as the first one, and no two copies. */
  lemma IdealFacts(unique: bool, s: seq<Entry>)
    ensures Sorted(Ideal(unique, s))
    ensures unique ==> NoCopies(Ideal(unique, s))
    ensures s != [] ==> exists e :: e in Ideal(unique, s) && e.dist == s[0].dist
    ensures forall e :: e in Ideal(unique, s) ==> e in s && e.dist <= s[0].dist
  {
    if s != [] {
      var w := Within(s, s[0].dist);
      var l := Latest(unique, w);
      WithinMembers(s, s[0].dist);
      RankIsRanking(l);
      LatestMembers(unique, w);
      if unique {
        RankNoCopies(l);
      }
      LatestKeepsOne(unique, w, s[0]);
      hide Rank, Latest, Within;
      assert forall e :: e in Rank(l) <==> e in multiset(l);
    }
  }

  lemma {:induction false} InsertLast(unique: bool, q: seq<Entry>, x: Entry)
    requires AllNearer(q, x)
    ensures Insert(unique, q, x) == q + [x]
  {
    if q != [] {
      assert forall i :: 0 <= i < |q[1..]| ==> q[1..][i] == q[i + 1];
      InsertLast(unique, q[1..], x);
    }
  }

  lemma OfferKeepsPrefix(unique: bool, r: seq<Entry>, x: Entry, cap: nat, bound: nat)
    requires unique ==> NoCopies(r)
    requires cap >= 1 && r != []
    requires exists e :: e in r && e.dist == bound
    requires forall e :: e in r ==> e.dist <= bound
    ensures Offer(unique, Take(r, cap), x, cap) == Take(if x.dist <= bound then Insert(unique, r, x) else r, cap)
  {
    var q := Take(r, cap);
    TakeInsert(unique, r, x, cap);
    if AllNearer(q, x) {
      InsertLast(unique, q, x);
      if x.dist <= bound {
        assert |r| > cap;
        assert Take(q + [x], cap) == q;
      }
    } else {
      var i :| 0 <= i < |q| && q[i].dist >= x.dist;
      assert q[i] == r[i];
    }
  }

  lemma FirstOffers(unique: bool, cap: nat)
    requires cap >= 1
    ensures Offered(unique, [], cap) == Take(Ideal(unique, []), cap) == []
    ensures forall x :: Offer(unique, [], x, cap) == Take(Ideal(unique, [x]), cap)
  {
    forall x
      ensures Ideal(unique, [x]) == [x]
    {
      assert Within([x], x.dist) == [x];
      assert Latest(unique, [x]) == [x];
      RankSnoc([], x);
    }
  }

  lemma OfferedSnoc(unique: bool, s: seq<Entry>, x: Entry, cap: nat)
    ensures Offered(unique, s + [x], cap) == Offer(unique, Offered(unique, s, cap), x, cap)
  {
    assert (s + [x])[..|s|] == s;
  }

  /** After any run of offers the queue is exactly the first cap entries of the ideal ranking. */
  lemma {:induction false} OfferedIsIdeal(unique: bool, s: seq<Entry>, cap: nat)
    requires cap >= 1
    ensures Offered(unique, s, cap) == Take(Ideal(unique, s), cap)
  {
    FirstOffers(unique, cap);
    hide Ideal, Offered, Insert, Offer, Take;
    if s != [] {
      var t, x := s[..|s| - 1], s[|s| - 1];
      assert s == t + [x];
      OfferedIsIdeal(unique, t, cap);
      OfferedSnoc(unique, t, x, cap);
      if t != [] {
        IdealSnoc(unique, t, x);
        IdealFacts(unique, t);
        OfferKeepsPrefix(unique, Ideal(unique, t), x, cap, t[0].dist);
      }
    }
  }

  /** What that gives a reader of the queue: sorted, no two == entries, and within its capacity. */
  lemma OfferedFacts(unique: bool, s: seq<Entry>, cap: nat)
    requires cap >= 1
    ensures var q := Offered(unique, s, cap);
      && |q| <= cap
      && Sorted(q)
      && (unique ==> NoCopies(q))
      && (forall e :: e in q ==> e in s)
  {
    OfferedIsIdeal(unique, s, cap);
    IdealFacts(unique, s);
    hide Ideal, Offered;
  }

  // ----- when the queue holds the nearest of all offers

  /** The entries farther than d. */
  function Beyond(s: seq<Entry>, d: nat): seq<Entry> {
    if s == [] then []
    else if s[0].dist > d then [s[0]] + Beyond(s[1..], d)
    else Beyond(s[1..], d)
  }

  lemma {:induction false} BeyondSnoc(s: seq<Entry>, x: Entry, d: nat)
    ensures Beyond(s + [x], d) == Beyond(s, d) + if x.dist > d then [x] else []
  {
    if s != [] {
      BeyondSnoc(s[1..], x, d);
      assert (s + [x])[1..] == s[1..] + [x];
    }
  }

  lemma {:induction false} BeyondMembers(s: seq<Entry>, d: nat)
    ensures forall e :: e in Beyond(s, d) <==> e in s && e.dist > d
  {
    if s != [] {
      BeyondMembers(s[1..], d);
      assert s == [s[0]] + s[1..];
    }
  }

  /** Where an entry is placed in two lists of which one is nearer. */
  lemma {:induction false} PlaceInParts(p: seq<Entry>, q: seq<Entry>, x: Entry, d: nat)
    requires forall i :: 0 <= i < |p| ==> p[i].dist <= d
    requires forall i :: 0 <= i < |q| ==> q[i].dist > d
    ensures Place(p + q, x) == if x.dist <= d then Place(p, x) + q else p + Place(q, x)
  {
    hide Place;
    if p == [] {
      assert p + q == q;
      PlaceFirst(q, x, d);
    } else {
      var a, t := [p[0]], p[1..];
      PlaceInParts(t, q, x, d);
      assert p == a + t;
      Reassociate(a, t, q);
      PlaceCons(p[0], t + q, x);
      PlaceCons(p[0], t, x);
      if x.dist <= p[0].dist {
        Reassociate([x], p, q);
      } else if x.dist <= d {
        Reassociate(a, Place(t, x), q);
      } else {
        Reassociate(a, t, Place(q, x));
      }
    }
  }

  lemma PlaceFirst(q: seq<Entry>, x: Entry, d: nat)
    requires forall i :: 0 <= i < |q| ==> q[i].dist > d
    ensures [] + Place(q, x) == Place(q, x)
    ensures x.dist <= d ==> Place(q, x) == Place([], x) + q
  {
  }

  lemma PlaceCons(a: Entry, t: seq<Entry>, x: Entry)
    ensures Place([a] + t, x) == if x.dist <= a.dist then [x] + ([a] + t) else [a] + Place(t, x)
  {
    assert ([a] + t)[1..] == t;
  }

  lemma {:induction false} RankInParts(s: seq<Entry>, d: nat)
    ensures Rank(s) == Rank(Within(s, d)) + Rank(Beyond(s, d))
  {
    if s != [] {
      var t, x := s[..|s| - 1], s[|s| - 1];
      assert s == t + [x];
      RankInParts(t, d);
      RankSnoc(t, x);
      WithinSnoc(t, x, d);
      BeyondSnoc(t, x, d);
      PartsBounds(t, d);
      PlaceInParts(Rank(Within(t, d)), Rank(Beyond(t, d)), x, d);
      PartSnoc(Within(t, d), x);
      PartSnoc(Beyond(t, d), x);
      hide Rank, Within, Beyond, Place;
    }
  }

  lemma PartSnoc(p: seq<Entry>, x: Entry)
    ensures Rank(p + [x]) == Place(Rank(p), x) && p + [] == p
  {
    RankSnoc(p, x);
  }

  lemma PartsBounds(s: seq<Entry>, d: nat)
    ensures var p, q := Rank(Within(s, d)), Rank(Beyond(s, d));
      && (forall i :: 0 <= i < |p| ==> p[i].dist <= d)
      && (forall i :: 0 <= i < |q| ==> q[i].dist > d)
  {
    RankMembers(Within(s, d));
    RankMembers(Beyond(s, d));
    WithinMembers(s, d);
    BeyondMembers(s, d);
    hide Rank, Within, Beyond;
  }

  lemma RankMembers(s: seq<Entry>)
    ensures forall e :: e in Rank(s) <==> e in s
    ensures |Rank(s)| == |s|
  {
    RankIsRanking(s);
    assert forall e :: e in Rank(s) <==> e in multiset(Rank(s));
    assert |Rank(s)| == |multiset(Rank(s))| == |multiset(s)| == |s|;
  }

  /** Copies are equally far, so dropping them and splitting by distance commute. */
  lemma {:induction false} LatestInParts(unique: bool, s: seq<Entry>, d: nat)
    ensures Within(Latest(unique, s), d) == Latest(unique, Within(s, d))
    ensures Beyond(Latest(unique, s), d) == Latest(unique, Beyond(s, d))
  {
    if s != [] {
      LatestInParts(unique, s[1..], d);
      CopyInPart(s[1..], s[0], d);
    }
  }

  lemma CopyInPart(s: seq<Entry>, x: Entry, d: nat)
    ensures HasCopy(s, x) <==> HasCopy(if x.dist <= d then Within(s, d) else Beyond(s, d), x)
  {
    WithinMembers(s, d);
    BeyondMembers(s, d);
    hide Within, Beyond;
    var p := if x.dist <= d then Within(s, d) else Beyond(s, d);
    if HasCopy(s, x) {
      var i :| 0 <= i < |s| && SameEntry(s[i], x);
      assert s[i] in p;
    }
    if HasCopy(p, x) {
      var i :| 0 <= i < |p| && SameEntry(p[i], x);
      assert p[i] in s;
    }
  }

  /** What a queue of capacity cap ought to hold: the nearest of all offers. */
  function Nearest(unique: bool, s: seq<Entry>, cap: nat): seq<Entry> {
    Take(Rank(Latest(unique, s)), cap)
  }

  /** The first offer does not cut anything off: as near offers fill the queue, or none is farther. */
  predicate FirstIsFarEnough(unique: bool, s: seq<Entry>, cap: nat) {
    s == [] || |Latest(unique, Within(s, s[0].dist))| >= cap || Beyond(s, s[0].dist) == []
  }

  /** The queue holds the nearest of all offers exactly if the first offer is far enough; otherwise it
      is shorter, although there is room. */
  lemma NearestExactly(unique: bool, s: seq<Entry>, cap: nat)
    requires cap >= 1
    ensures Offered(unique, s, cap) == Nearest(unique, s, cap) <==> FirstIsFarEnough(unique, s, cap)
    ensures !FirstIsFarEnough(unique, s, cap) ==> |Offered(unique, s, cap)| < |Nearest(unique, s, cap)|
  {
    OfferedIsIdeal(unique, s, cap);
    if s != [] {
      var d := s[0].dist;
      var near, far := Latest(unique, Within(s, d)), Latest(unique, Beyond(s, d));
      RankInParts(Latest(unique, s), d);
      LatestInParts(unique, s, d);
      RankMembers(near);
      RankMembers(far);
      LatestNotEmpty(unique, Beyond(s, d));
      hide Rank, Latest, Within, Beyond, Offered, Take;
      TakeOfParts(Rank(near), Rank(far), cap);
    }
  }

  lemma TakeOfParts(p: seq<Entry>, q: seq<Entry>, cap: nat)
    ensures Take(p, cap) == Take(p + q, cap) <==> |p| >= cap || q == []
    ensures |p| < cap && q != [] ==> |Take(p, cap)| < |Take(p + q, cap)|
  {
    assert q == [] ==> p + q == p;
  }

  lemma LatestNotEmpty(unique: bool, s: seq<Entry>)
    ensures Latest(unique, s) == [] <==> s == []
  {
    if s != [] {
      LatestKeepsOne(unique, s, s[0]);
    }
  }

  /** A farther second offer is dropped, however much room there is. */
  lemma DropWithRoom(unique: bool, a: Entry, b: Entry, cap: nat)
    requires a.dist < b.dist && cap >= 2
    ensures Offered(unique, [a, b], cap) == [a]
    ensures Nearest(unique, [a, b], cap) == [a, b]
  {
    FirstOffers(unique, cap);
    OfferedSnoc(unique, [], a, cap);
    OfferedSnoc(unique, [a], b, cap);
    assert [] + [a] == [a] && [a] + [b] == [a, b];
    assert [a, b][1..] == [b] && [b][1..] == [];
    assert Latest(unique, [b]) == [b];
    assert Latest(unique, [a, b]) == [a, b];
    RankSnoc([], a);
    RankSnoc([a], b);
    assert Place([a], b) == [a, b];
  }
}

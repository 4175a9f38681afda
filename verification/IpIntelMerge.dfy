/**
 The sweep line of scripts/gen-ipintel.py: overlapping country, hosting and Tor ranges of one
 address family become one sorted table of disjoint segments carrying combined attributes.

 The meaning of the input is pointwise (`Meaning`): which attributes hold at an address, with
 no mention of events, counters or order. `MergeFamily` is proved to preserve it and to return
 the only normalized table that does.
 */
module IpIntelMerge {
  import opened Common

  datatype Range = Range(lo: int, hi: int)
  datatype CountryRange = CountryRange(lo: int, hi: int, cc: string)
  datatype Buckets = Buckets(country: seq<CountryRange>, hosting: seq<Range>, tor: seq<Range>)

  datatype Kind = Country(cc: string) | Hosting | Tor
  datatype Interval = Interval(lo: int, hi: int, kind: Kind)

  const FLAG_HOSTING := 1
  const FLAG_TOR := 2

  /** A table row: [lo, hi] inclusive, country code ("" for none) and flag bits. */
  datatype Segment = Segment(lo: int, hi: int, cc: string, flags: int)
  datatype Attr = Attr(cc: string, flags: int)

  /** The bucket contents in the order the generator visits them. */
  function Intervals(b: Buckets): seq<Interval> {
    seq(|b.country|, i requires 0 <= i < |b.country| =>
      Interval(b.country[i].lo, b.country[i].hi, Country(b.country[i].cc)))
    + seq(|b.hosting|, i requires 0 <= i < |b.hosting| => Interval(b.hosting[i].lo, b.hosting[i].hi, Hosting))
    + seq(|b.tor|, i requires 0 <= i < |b.tor| => Interval(b.tor[i].lo, b.tor[i].hi, Tor))
  }

  /** Every parser establishes lo <= hi before it files a range. */
  ghost predicate WellFormed(ivs: seq<Interval>) {
    forall i :: 0 <= i < |ivs| ==> ivs[i].lo <= ivs[i].hi
  }

  // ------------------------------------------------------------------ code-point string order

  predicate StrLess(a: string, b: string) {
    b != "" && (a == "" || a[0] < b[0] || (a[0] == b[0] && StrLess(a[1..], b[1..])))
  }

  lemma {:induction false} StrTrichotomy(a: string, b: string)
    ensures StrLess(a, b) || a == b || StrLess(b, a)
  {
    if a != "" && b != "" && a[0] == b[0] {
      StrTrichotomy(a[1..], b[1..]);
      assert a == [a[0]] + a[1..] && b == [b[0]] + b[1..];
    }
  }

  lemma {:induction false} StrTransitive(a: string, b: string, c: string)
    requires StrLess(a, b) && StrLess(b, c)
    ensures StrLess(a, c)
  {
    if a != "" && a[0] == b[0] && b[0] == c[0] {
      StrTransitive(a[1..], b[1..], c[1..]);
    }
  }

  /** Code-point order, by the first place at which two strings differ. */
  ghost predicate Before(a: string, b: string) {
    exists n :: 0 <= n <= |a| && n < |b| && a[..n] == b[..n] && (n == |a| || a[n] < b[n])
  }

  lemma {:induction false} StrLessIsBefore(a: string, b: string)
    ensures StrLess(a, b) <==> Before(a, b)
  {
    if a != "" && b != "" && a[0] == b[0] {
      StrLessIsBefore(a[1..], b[1..]);
      if Before(a[1..], b[1..]) {
        var n :|
          && 0 <= n <= |a| - 1 && n < |b| - 1 && a[1..][..n] == b[1..][..n]
          && (n == |a| - 1 || a[1..][n] < b[1..][n]);
        assert a[..n + 1] == [a[0]] + a[1..][..n] && b[..n + 1] == [b[0]] + b[1..][..n];
      }
      if Before(a, b) {
        var n :| 0 <= n <= |a| && n < |b| && a[..n] == b[..n] && (n == |a| || a[n] < b[n]);
        assert a[1..][..n - 1] == a[..n][1..] && b[1..][..n - 1] == b[..n][1..];
      }
    } else if StrLess(a, b) {
      assert a[..0] == b[..0];
    }
  }

  // ------------------------------------------------------------------ pointwise meaning

  ghost predicate Covers(iv: Interval, a: int) {
    iv.lo <= a <= iv.hi
  }

  ghost predicate Covered(ivs: seq<Interval>, a: int) {
    exists i :: 0 <= i < |ivs| && Covers(ivs[i], a)
  }

  /** Some input interval of kind k covers address a. */
  ghost predicate Active(ivs: seq<Interval>, k: Kind, a: int) {
    exists i :: 0 <= i < |ivs| && ivs[i].kind == k && Covers(ivs[i], a)
  }

  /** best is the least country code active at a, or None when no country interval covers a. */
  ghost predicate IsLeastCountry(ivs: seq<Interval>, a: int, best: Option<string>) {
    match best
    case None => forall c :: !Active(ivs, Country(c), a)
    case Some(b) => Active(ivs, Country(b), a) && forall c :: Active(ivs, Country(c), a) ==> !StrLess(c, b)
  }

  lemma LeastCountryUnique(ivs: seq<Interval>, a: int, x: Option<string>, y: Option<string>)
    requires IsLeastCountry(ivs, a, x) && IsLeastCountry(ivs, a, y)
    ensures x == y
  {
    if x.Some? && y.Some? {
      StrTrichotomy(x.value, y.value);
    }
  }

  lemma {:induction false} LeastCountryExists(ivs: seq<Interval>, a: int)
    ensures exists best :: IsLeastCountry(ivs, a, best)
  {
    if ivs == [] {
      assert IsLeastCountry(ivs, a, None);
    } else {
      var n := |ivs| - 1;
      var front, last := ivs[..n], ivs[n];
      LeastCountryExists(front, a);
      var best :| IsLeastCountry(front, a, best);
      forall k
        ensures Active(ivs, k, a) <==> Active(front, k, a) || (last.kind == k && Covers(last, a))
      {
        if Active(front, k, a) {
          var i :| 0 <= i < |front| && front[i].kind == k && Covers(front[i], a);
          assert ivs[i].kind == k && Covers(ivs[i], a);
        }
      }
      if last.kind.Country? && Covers(last, a) && (best.None? || StrLess(last.kind.cc, best.value)) {
        forall c | Active(ivs, Country(c), a) ensures !StrLess(c, last.kind.cc) {
          if StrLess(c, last.kind.cc) {
            NotBelowItself(c);
            StrTransitive(c, last.kind.cc, best.value);
          }
        }
        assert IsLeastCountry(ivs, a, Some(last.kind.cc));
      } else {
        assert IsLeastCountry(ivs, a, best);
      }
    }
  }

  lemma {:induction false} NotBelowItself(a: string)
    ensures !StrLess(a, a)
  {
    if a != "" {
      NotBelowItself(a[1..]);
    }
  }

  ghost function LeastCountry(ivs: seq<Interval>, a: int): (best: Option<string>)
    ensures IsLeastCountry(ivs, a, best)
  {
    LeastCountryExists(ivs, a);
    var best :| IsLeastCountry(ivs, a, best);
    best
  }

  function Flags(hosting: bool, tor: bool): int {
    (if hosting then FLAG_HOSTING else 0) + (if tor then FLAG_TOR else 0)
  }

  /** What the input says about address a: nothing, or its combined attributes. */
  ghost function Meaning(ivs: seq<Interval>, a: int): Option<Attr> {
    if !Covered(ivs, a) then None
    else Some(Attr(match LeastCountry(ivs, a) case None => "" case Some(c) => c,
                   Flags(Active(ivs, Hosting, a), Active(ivs, Tor, a))))
  }

  /** Meaning depends on nothing but which kinds are active. */
  lemma SameActiveSameMeaning(xs: seq<Interval>, a: int, ys: seq<Interval>, b: int)
    requires forall k :: Active(xs, k, a) <==> Active(ys, k, b)
    ensures Meaning(xs, a) == Meaning(ys, b)
  {
    CoveredIffActive(xs, a);
    CoveredIffActive(ys, b);
    assert IsLeastCountry(xs, a, LeastCountry(ys, b));
    LeastCountryUnique(xs, a, LeastCountry(xs, a), LeastCountry(ys, b));
  }

  lemma CoveredIffActive(ivs: seq<Interval>, a: int)
    ensures Covered(ivs, a) <==> exists k :: Active(ivs, k, a)
  {
    if Covered(ivs, a) {
      var i :| 0 <= i < |ivs| && Covers(ivs[i], a);
      assert Active(ivs, ivs[i].kind, a);
    }
  }

  // ------------------------------------------------------------------ tables

  ghost predicate Holds(s: Segment, a: int) {
    s.lo <= a <= s.hi
  }

  /** What a table says about address a. */
  ghost function At(table: seq<Segment>, a: int): Option<Attr> {
    if table == [] then None
    else
      var last := table[|table| - 1];
      if Holds(last, a) then Some(Attr(last.cc, last.flags)) else At(table[..|table| - 1], a)
  }

  /** Sorted, disjoint and non-empty segments. */
  ghost predicate Ordered(table: seq<Segment>) {
    && (forall i :: 0 <= i < |table| ==> table[i].lo <= table[i].hi)
    && (forall i, j :: 0 <= i < j < |table| ==> table[i].hi < table[j].lo)
  }

  predicate Mergeable(s: Segment, t: Segment) {
    s.hi + 1 == t.lo && s.cc == t.cc && s.flags == t.flags
  }

  ghost predicate Normal(table: seq<Segment>) {
    && Ordered(table)
    && forall i :: 0 < i < |table| ==> !Mergeable(table[i - 1], table[i])
  }

  ghost predicate Agree(s: seq<Segment>, t: seq<Segment>) {
    forall a :: At(s, a) == At(t, a)
  }

  ghost predicate Represents(table: seq<Segment>, ivs: seq<Interval>) {
    Normal(table) && forall a :: At(table, a) == Meaning(ivs, a)
  }

  lemma {:induction false} AtNoneOutside(table: seq<Segment>, a: int)
    requires forall i :: 0 <= i < |table| ==> !Holds(table[i], a)
    ensures At(table, a) == None
  {
    if table != [] {
      AtNoneOutside(table[..|table| - 1], a);
    }
  }

  lemma {:induction false} AtFinds(table: seq<Segment>, i: nat, a: int)
    requires Ordered(table) && i < |table| && Holds(table[i], a)
    ensures At(table, a) == Some(Attr(table[i].cc, table[i].flags))
  {
    if i < |table| - 1 {
      AtFinds(table[..|table| - 1], i, a);
    }
  }

  lemma {:induction false} AtSomeIsHeld(table: seq<Segment>, a: int) returns (i: nat)
    requires At(table, a).Some?
    ensures i < |table| && Holds(table[i], a) && At(table, a) == Some(Attr(table[i].cc, table[i].flags))
  {
    i := |table| - 1;
    if !Holds(table[i], a) {
      i := AtSomeIsHeld(table[..i], a);
    }
  }

  /** Two normalized tables that say the same about every address are the same table. */
  lemma {:induction false} NormalFormUnique(s: seq<Segment>, t: seq<Segment>)
    requires Normal(s) && Normal(t)
    requires Agree(s, t)
    ensures s == t
  {
    assert s != [] ==> At(s, s[|s| - 1].hi).Some?;
    assert t != [] ==> At(t, t[|t| - 1].hi).Some?;
    if s != [] && t != [] {
      var m, n := |s| - 1, |t| - 1;
      SameLast(s, t);
      FrontsAgree(s, t);
      NormalFormUnique(s[..m], t[..n]);
      assert s == s[..m] + [s[m]] && t == t[..n] + [t[n]];
    }
  }

  lemma FrontsAgree(s: seq<Segment>, t: seq<Segment>)
    requires Ordered(s) && Ordered(t) && s != [] && t != [] && s[|s| - 1] == t[|t| - 1]
    requires Agree(s, t)
    ensures Agree(s[..|s| - 1], t[..|t| - 1])
  {
    var x, y := s[..|s| - 1], t[..|t| - 1];
    forall a ensures At(x, a) == At(y, a) {
      assert At(s, a) == At(t, a);
      if Holds(s[|s| - 1], a) {
        AtNoneOutside(x, a);
        AtNoneOutside(y, a);
      }
    }
  }

  lemma SameLast(s: seq<Segment>, t: seq<Segment>)
    requires Normal(s) && Normal(t) && s != [] && t != []
    requires Agree(s, t)
    ensures s[|s| - 1] == t[|t| - 1]
  {
    var x, y := s[|s| - 1], t[|t| - 1];
    ReachesAtLeastAsFar(s, t);
    ReachesAtLeastAsFar(t, s);
    assert At(s, x.hi) == At(t, x.hi);
    StartsNoLater(s, t);
    StartsNoLater(t, s);
  }

  lemma ReachesAtLeastAsFar(s: seq<Segment>, t: seq<Segment>)
    requires Ordered(s) && Ordered(t) && s != [] && t != []
    requires Agree(s, t)
    ensures s[|s| - 1].hi <= t[|t| - 1].hi
  {
    var hi := s[|s| - 1].hi;
    assert At(t, hi).Some?;
    var i := AtSomeIsHeld(t, hi);
    assert i < |t| - 1 ==> t[i].hi < t[|t| - 1].lo;
  }

  /** Equal attributes just below the last segment mean the last two segments touch and agree. */
  lemma TouchingBelow(s: seq<Segment>)
    requires Ordered(s) && s != []
    requires var x := s[|s| - 1]; At(s, x.lo - 1) == Some(Attr(x.cc, x.flags))
    ensures |s| >= 2 && Mergeable(s[|s| - 2], s[|s| - 1])
  {
    var x := s[|s| - 1];
    var i := AtSomeIsHeld(s, x.lo - 1);
  }

  lemma StartsNoLater(s: seq<Segment>, t: seq<Segment>)
    requires Normal(s) && Normal(t) && s != [] && t != []
    requires Agree(s, t)
    requires s[|s| - 1].hi == t[|t| - 1].hi && s[|s| - 1].cc == t[|t| - 1].cc && s[|s| - 1].flags == t[|t| - 1].flags
    ensures s[|s| - 1].lo <= t[|t| - 1].lo
  {
    var x, y := s[|s| - 1], t[|t| - 1];
    if y.lo < x.lo {
      // t holds the address just below x with y's attributes, which are x's; so must s.
      assert Holds(y, x.lo - 1) && At(s, x.lo - 1) == At(t, x.lo - 1);
      TouchingBelow(s);
    }
  }

  /** The table depends on the pointwise meaning alone, not on how the sources spelled it. */
  lemma EqualMeaningEqualTable(s: seq<Segment>, xs: seq<Interval>, t: seq<Segment>, ys: seq<Interval>)
    requires Represents(s, xs) && Represents(t, ys)
    requires forall a :: Meaning(xs, a) == Meaning(ys, a)
    ensures s == t
  {
    forall a ensures At(s, a) == At(t, a) {
      assert At(s, a) == Meaning(xs, a) && At(t, a) == Meaning(ys, a);
    }
    NormalFormUnique(s, t);
  }

  /** Reading the sources in another order, or the same range twice, changes nothing. */
  lemma ReorderingKeepsMeaning(xs: seq<Interval>, ys: seq<Interval>, a: int)
    requires forall iv :: iv in xs <==> iv in ys
    ensures Meaning(xs, a) == Meaning(ys, a)
  {
    forall k ensures Active(xs, k, a) <==> Active(ys, k, a) {
      ActiveTransfers(xs, ys, k, a);
      ActiveTransfers(ys, xs, k, a);
    }
    SameActiveSameMeaning(xs, a, ys, a);
  }

  lemma ActiveTransfers(xs: seq<Interval>, ys: seq<Interval>, k: Kind, a: int)
    requires forall iv :: iv in xs ==> iv in ys
    ensures Active(xs, k, a) ==> Active(ys, k, a)
  {
    if Active(xs, k, a) {
      var i :| 0 <= i < |xs| && xs[i].kind == k && Covers(xs[i], a);
      assert xs[i] in ys;
    }
  }

  /** Splitting one source range in two at any interior address changes nothing. */
  lemma SplittingKeepsMeaning(xs: seq<Interval>, i: nat, m: int, a: int)
    requires i < |xs| && xs[i].lo <= m < xs[i].hi
    ensures Meaning(xs[i := xs[i].(hi := m)] + [xs[i].(lo := m + 1)], a) == Meaning(xs, a)
  {
    var ys := xs[i := xs[i].(hi := m)] + [xs[i].(lo := m + 1)];
    forall k ensures Active(xs, k, a) <==> Active(ys, k, a) {
      if Active(xs, k, a) {
        var j :| 0 <= j < |xs| && xs[j].kind == k && Covers(xs[j], a);
        assert Covers(ys[j], a) || Covers(ys[|xs|], a);
      }
      if Active(ys, k, a) {
        var j :| 0 <= j < |ys| && ys[j].kind == k && Covers(ys[j], a);
        assert Covers(xs[if j == |xs| then i else j], a);
      }
    }
    SameActiveSameMeaning(xs, a, ys, a);
  }

  // ------------------------------------------------------------------ counting events

  /** How many intervals of kind k cover a. */
  ghost function Count(ivs: seq<Interval>, k: Kind, a: int): nat {
    if ivs == [] then 0
    else
      var last := ivs[|ivs| - 1];
      Count(ivs[..|ivs| - 1], k, a) + if last.kind == k && Covers(last, a) then 1 else 0
  }

  /** The kinds whose intervals start at x, in input order. */
  ghost function StartsAt(ivs: seq<Interval>, x: int): seq<Kind> {
    if ivs == [] then []
    else StartsAt(ivs[..|ivs| - 1], x) + if ivs[|ivs| - 1].lo == x then [ivs[|ivs| - 1].kind] else []
  }

  /** The kinds whose intervals have just ended at x (hi + 1 == x), in input order. */
  ghost function EndsAt(ivs: seq<Interval>, x: int): seq<Kind> {
    if ivs == [] then []
    else EndsAt(ivs[..|ivs| - 1], x) + if ivs[|ivs| - 1].hi + 1 == x then [ivs[|ivs| - 1].kind] else []
  }

  ghost function Tally(ks: seq<Kind>, k: Kind): nat {
    if ks == [] then 0 else Tally(ks[..|ks| - 1], k) + if ks[|ks| - 1] == k then 1 else 0
  }

  ghost predicate IsBoundary(ivs: seq<Interval>, x: int) {
    exists i :: 0 <= i < |ivs| && (ivs[i].lo == x || ivs[i].hi + 1 == x)
  }

  ghost predicate NoBoundaryWithin(ivs: seq<Interval>, p: int, x: int) {
    p < x && forall y :: p < y < x ==> !IsBoundary(ivs, y)
  }

  lemma {:induction false} CountPositiveIffActive(ivs: seq<Interval>, k: Kind, a: int)
    ensures Count(ivs, k, a) > 0 <==> Active(ivs, k, a)
  {
    if ivs != [] {
      var front, n := ivs[..|ivs| - 1], |ivs| - 1;
      CountPositiveIffActive(front, k, a);
      if Active(front, k, a) {
        var i :| 0 <= i < |front| && front[i].kind == k && Covers(front[i], a);
        assert ivs[i].kind == k && Covers(ivs[i], a);
      }
      if Active(ivs, k, a) {
        var i :| 0 <= i < |ivs| && ivs[i].kind == k && Covers(ivs[i], a);
        assert i < n ==> front[i].kind == k && Covers(front[i], a);
      }
    }
  }

  /** From p to the next boundary x the count changes by exactly the events filed at x. */
  lemma {:induction false} CountStep(ivs: seq<Interval>, k: Kind, p: int, x: int)
    requires WellFormed(ivs) && NoBoundaryWithin(ivs, p, x)
    ensures Count(ivs, k, x) == Count(ivs, k, p) - Tally(EndsAt(ivs, x), k) + Tally(StartsAt(ivs, x), k)
  {
    if ivs != [] {
      var front, n := ivs[..|ivs| - 1], |ivs| - 1;
      forall y | p < y < x ensures !IsBoundary(front, y) {
        BoundaryOfFront(ivs, y);
      }
      CountStep(front, k, p, x);
      assert !(p < ivs[n].lo < x) by { if p < ivs[n].lo < x { assert IsBoundary(ivs, ivs[n].lo); } }
      assert !(p < ivs[n].hi + 1 < x) by { if p < ivs[n].hi + 1 < x { assert IsBoundary(ivs, ivs[n].hi + 1); } }
      TallyAppend(EndsAt(front, x), ivs[n].kind, k);
      TallyAppend(StartsAt(front, x), ivs[n].kind, k);
      assert EndsAt(front, x) + [] == EndsAt(front, x);
      assert StartsAt(front, x) + [] == StartsAt(front, x);
    }
  }

  lemma BoundaryOfFront(ivs: seq<Interval>, y: int)
    requires ivs != []
    ensures IsBoundary(ivs[..|ivs| - 1], y) ==> IsBoundary(ivs, y)
  {
    var front := ivs[..|ivs| - 1];
    if IsBoundary(front, y) {
      var i :| 0 <= i < |front| && (front[i].lo == y || front[i].hi + 1 == y);
      assert ivs[i] == front[i];
    }
  }

  lemma TallyAppend(ks: seq<Kind>, e: Kind, k: Kind)
    ensures Tally(ks + [e], k) == Tally(ks, k) + if e == k then 1 else 0
  {
    assert (ks + [e])[..|ks|] == ks;
  }

  /** Nothing changes between boundaries. */
  lemma MeaningConstant(ivs: seq<Interval>, p: int, a: int)
    requires p <= a
    requires forall y :: p < y <= a ==> !IsBoundary(ivs, y)
    ensures Meaning(ivs, a) == Meaning(ivs, p)
  {
    forall i | 0 <= i < |ivs| ensures Covers(ivs[i], p) <==> Covers(ivs[i], a) {
      assert p < ivs[i].lo <= a ==> IsBoundary(ivs, ivs[i].lo);
      assert p < ivs[i].hi + 1 <= a ==> IsBoundary(ivs, ivs[i].hi + 1);
    }
    SameActiveSameMeaning(ivs, a, ivs, p);
  }

  // ------------------------------------------------------------------ the sweep

  /** The sweep's running counters. */
  datatype Counters = Counters(hosting: int, tor: int, cc: map<string, int>)

  ghost function Tracked(c: Counters, k: Kind): int {
    match k
    case Hosting => c.hosting
    case Tor => c.tor
    case Country(code) => GetOr(c.cc, code, 0)
  }

  ghost predicate Increasing(xs: seq<int>) {
    forall i, j :: 0 <= i < j < |xs| ==> xs[i] < xs[j]
  }

  /** The coordinate set, kept as sorted(coords) from the start. */
  function AddCoord(xs: seq<int>, x: int): (r: seq<int>)
    requires Increasing(xs)
    ensures Increasing(r)
    ensures forall y :: y in r <==> y == x || y in xs
  {
    if xs == [] || xs[|xs| - 1] < x then xs + [x]
    else if xs[|xs| - 1] == x then xs
    else
      var last := xs[|xs| - 1];
      var front := AddCoord(xs[..|xs| - 1], x);
      assert xs == xs[..|xs| - 1] + [last];
      assert forall i :: 0 <= i < |front| ==> front[i] in front && front[i] < last;
      front + [last]
  }

  /** setdefault(x, []).append(k). */
  function File(ev: map<int, seq<Kind>>, x: int, k: Kind): map<int, seq<Kind>> {
    ev[x := GetOr(ev, x, []) + [k]]
  }

  lemma IndexOneMore(ivs: seq<Interval>, i: nat, x: int)
    requires i < |ivs|
    ensures StartsAt(ivs[..i + 1], x) == StartsAt(ivs[..i], x) + if ivs[i].lo == x then [ivs[i].kind] else []
    ensures EndsAt(ivs[..i + 1], x) == EndsAt(ivs[..i], x) + if ivs[i].hi + 1 == x then [ivs[i].kind] else []
    ensures IsBoundary(ivs[..i + 1], x) <==> IsBoundary(ivs[..i], x) || ivs[i].lo == x || ivs[i].hi + 1 == x
  {
    var more := ivs[..i + 1];
    assert more[..i] == ivs[..i];
    BoundaryOfFront(more, x);
    assert more[i].lo == x || more[i].hi + 1 == x ==> IsBoundary(more, x);
    if IsBoundary(more, x) {
      var j :| 0 <= j < |more| && (more[j].lo == x || more[j].hi + 1 == x);
      assert j < i ==> ivs[..i][j] == more[j];
    }
  }

  ghost predicate StartsFiled(ivs: seq<Interval>, ev: map<int, seq<Kind>>) {
    forall x :: GetOr(ev, x, []) == StartsAt(ivs, x)
  }

  ghost predicate EndsFiled(ivs: seq<Interval>, ev: map<int, seq<Kind>>) {
    forall x :: GetOr(ev, x, []) == EndsAt(ivs, x)
  }

  ghost predicate AreCoords(ivs: seq<Interval>, coords: seq<int>) {
    Increasing(coords) && forall x :: x in coords <==> IsBoundary(ivs, x)
  }

  lemma FileStart(ivs: seq<Interval>, i: nat, ev: map<int, seq<Kind>>)
    requires i < |ivs| && StartsFiled(ivs[..i], ev)
    ensures StartsFiled(ivs[..i + 1], File(ev, ivs[i].lo, ivs[i].kind))
  {
    var more, filed := ivs[..i + 1], File(ev, ivs[i].lo, ivs[i].kind);
    forall x ensures GetOr(filed, x, []) == StartsAt(more, x) {
      IndexOneMore(ivs, i, x);
      assert GetOr(ev, x, []) == StartsAt(ivs[..i], x);
    }
  }

  lemma FileEnd(ivs: seq<Interval>, i: nat, ev: map<int, seq<Kind>>)
    requires i < |ivs| && EndsFiled(ivs[..i], ev)
    ensures EndsFiled(ivs[..i + 1], File(ev, ivs[i].hi + 1, ivs[i].kind))
  {
    var more, filed := ivs[..i + 1], File(ev, ivs[i].hi + 1, ivs[i].kind);
    forall x ensures GetOr(filed, x, []) == EndsAt(more, x) {
      IndexOneMore(ivs, i, x);
      assert GetOr(ev, x, []) == EndsAt(ivs[..i], x);
    }
  }

  lemma CollectCoords(ivs: seq<Interval>, i: nat, coords: seq<int>)
    requires i < |ivs| && AreCoords(ivs[..i], coords)
    ensures AreCoords(ivs[..i + 1], AddCoord(AddCoord(coords, ivs[i].lo), ivs[i].hi + 1))
  {
    var more, cs := ivs[..i + 1], AddCoord(AddCoord(coords, ivs[i].lo), ivs[i].hi + 1);
    forall x ensures x in cs <==> IsBoundary(more, x) {
      IndexOneMore(ivs, i, x);
    }
  }

  /** Files every interval's start at lo and its end at hi + 1, and collects the sorted coordinates. */
  method IndexEvents(ivs: seq<Interval>)
    returns (startEv: map<int, seq<Kind>>, endEv: map<int, seq<Kind>>, coords: seq<int>)
    ensures StartsFiled(ivs, startEv) && EndsFiled(ivs, endEv) && AreCoords(ivs, coords)
  {
    startEv, endEv, coords := map[], map[], [];
    for i := 0 to |ivs|
      invariant StartsFiled(ivs[..i], startEv)
      invariant EndsFiled(ivs[..i], endEv)
      invariant AreCoords(ivs[..i], coords)
    {
      FileStart(ivs, i, startEv);
      FileEnd(ivs, i, endEv);
      CollectCoords(ivs, i, coords);
      startEv := File(startEv, ivs[i].lo, ivs[i].kind);
      endEv := File(endEv, ivs[i].hi + 1, ivs[i].kind);
      coords := AddCoord(AddCoord(coords, ivs[i].lo), ivs[i].hi + 1);
    }
    assert ivs[..|ivs|] == ivs;
  }

  method EndIntervals(c: Counters, events: seq<Kind>) returns (r: Counters)
    requires forall i :: 0 <= i < |events| && events[i].Country? ==> events[i].cc in c.cc
    ensures forall k :: Tracked(r, k) == Tracked(c, k) - Tally(events, k)
    ensures r.cc.Keys == c.cc.Keys
  {
    r := c;
    for i := 0 to |events|
      invariant forall k :: Tracked(r, k) == Tracked(c, k) - Tally(events[..i], k)
      invariant r.cc.Keys == c.cc.Keys
    {
      assert events[..i + 1][..i] == events[..i];
      match events[i]
      case Hosting => r := r.(hosting := r.hosting - 1);
      case Tor => r := r.(tor := r.tor - 1);
      case Country(code) => r := r.(cc := r.cc[code := r.cc[code] - 1]);
    }
    assert events[..|events|] == events;
  }

  method StartIntervals(c: Counters, events: seq<Kind>) returns (r: Counters)
    ensures forall k :: Tracked(r, k) == Tracked(c, k) + Tally(events, k)
    ensures r.cc.Keys == c.cc.Keys + (set k | k in events && k.Country? :: k.cc)
  {
    r := c;
    for i := 0 to |events|
      invariant forall k :: Tracked(r, k) == Tracked(c, k) + Tally(events[..i], k)
      invariant r.cc.Keys == c.cc.Keys + (set k | k in events[..i] && k.Country? :: k.cc)
    {
      assert events[..i + 1] == events[..i] + [events[i]];
      assert events[..i + 1][..i] == events[..i];
      match events[i]
      case Hosting => r := r.(hosting := r.hosting + 1);
      case Tor => r := r.(tor := r.tor + 1);
      case Country(code) => r := r.(cc := r.cc[code := GetOr(r.cc, code, 0) + 1]);
    }
    assert events[..|events|] == events;
  }

  /** active_cc: the least code with a positive count. */
  method ActiveCC(counts: map<string, int>) returns (best: Option<string>)
    ensures best.None? ==> forall c :: GetOr(counts, c, 0) <= 0
    ensures best.Some? ==>
      GetOr(counts, best.value, 0) > 0 && forall c :: GetOr(counts, c, 0) > 0 ==> !StrLess(c, best.value)
  {
    best := None;
    var rest := counts.Keys;
    while rest != {}
      invariant rest <= counts.Keys
      invariant best.None? ==> forall c :: c in counts.Keys - rest ==> counts[c] <= 0
      invariant best.Some? ==> best.value in counts && counts[best.value] > 0
      invariant best.Some? ==> forall c :: c in counts.Keys - rest && counts[c] > 0 ==> !StrLess(c, best.value)
      decreases rest
    {
      var cc :| cc in rest;
      if counts[cc] > 0 && (best.None? || StrLess(cc, best.value)) {
        NotBelowItself(cc);
        forall c | c in counts.Keys - rest && counts[c] > 0 && best.Some? ensures !StrLess(c, cc) {
          if StrLess(c, cc) { StrTransitive(c, cc, best.value); }
        }
        best := Some(cc);
      }
      rest := rest - {cc};
    }
  }

  /** The attributes read off exact counters are the meaning at that address. */
  lemma CountersGiveMeaning(ivs: seq<Interval>, x: int, c: Counters, best: Option<string>)
    requires forall k :: Tracked(c, k) == Count(ivs, k, x)
    requires best.None? ==> forall code :: GetOr(c.cc, code, 0) <= 0
    requires best.Some? ==>
      GetOr(c.cc, best.value, 0) > 0 && forall code :: GetOr(c.cc, code, 0) > 0 ==> !StrLess(code, best.value)
    ensures Meaning(ivs, x) ==
      if best.None? && c.hosting <= 0 && c.tor <= 0 then None
      else Some(Attr(if best.None? then "" else best.value, Flags(c.hosting > 0, c.tor > 0)))
  {
    forall k ensures Tracked(c, k) > 0 <==> Active(ivs, k, x) {
      CountPositiveIffActive(ivs, k, x);
    }
    assert c.hosting == Tracked(c, Hosting) && c.tor == Tracked(c, Tor);
    assert forall code :: GetOr(c.cc, code, 0) == Tracked(c, Country(code));
    assert IsLeastCountry(ivs, x, best);
    LeastCountryUnique(ivs, x, best, LeastCountry(ivs, x));
    CoveredIffActive(ivs, x);
    assert forall k :: Active(ivs, k, x) ==> k.Country? || k == Hosting || k == Tor;
  }

  /** A country named by an event at or before x has a counter, so the sweep never misses a key. */
  ghost predicate KeysFiled(ivs: seq<Interval>, x: int, cc: map<string, int>) {
    forall i :: 0 <= i < |ivs| && ivs[i].lo <= x && ivs[i].kind.Country? ==> ivs[i].kind.cc in cc
  }

  lemma {:induction false} EndedWasStarted(ivs: seq<Interval>, x: int, i: nat)
    requires WellFormed(ivs) && i < |EndsAt(ivs, x)|
    ensures exists j :: 0 <= j < |ivs| && ivs[j].kind == EndsAt(ivs, x)[i] && ivs[j].lo < x
  {
    var front, n := ivs[..|ivs| - 1], |ivs| - 1;
    if i < |EndsAt(front, x)| {
      EndedWasStarted(front, x, i);
      var j :| 0 <= j < |front| && front[j].kind == EndsAt(front, x)[i] && front[j].lo < x;
      assert ivs[j] == front[j];
    } else {
      assert ivs[n].lo < x;
    }
  }

  lemma {:induction false} StartIsFiled(ivs: seq<Interval>, i: nat)
    requires i < |ivs|
    ensures ivs[i].kind in StartsAt(ivs, ivs[i].lo)
  {
    if i < |ivs| - 1 {
      StartIsFiled(ivs[..|ivs| - 1], i);
    }
  }

  /** Processing one coordinate moves the counters from the previous coordinate to this one. */
  method Advance(ghost ivs: seq<Interval>, ghost p: int, x: int, ends: seq<Kind>, starts: seq<Kind>, c: Counters)
    returns (r: Counters)
    requires WellFormed(ivs) && NoBoundaryWithin(ivs, p, x)
    requires ends == EndsAt(ivs, x) && starts == StartsAt(ivs, x)
    requires KeysFiled(ivs, p, c.cc) && forall k :: Tracked(c, k) == Count(ivs, k, p)
    ensures KeysFiled(ivs, x, r.cc) && forall k :: Tracked(r, k) == Count(ivs, k, x)
  {
    forall i | 0 <= i < |ends| && ends[i].Country? ensures ends[i].cc in c.cc {
      EndedWasStarted(ivs, x, i);
      var j :| 0 <= j < |ivs| && ivs[j].kind == ends[i] && ivs[j].lo < x;
      assert p < ivs[j].lo < x ==> IsBoundary(ivs, ivs[j].lo);
    }
    r := EndIntervals(c, ends);
    r := StartIntervals(r, starts);
    forall i | 0 <= i < |ivs| && ivs[i].lo <= x && ivs[i].kind.Country? ensures ivs[i].kind.cc in r.cc {
      assert p < ivs[i].lo < x ==> IsBoundary(ivs, ivs[i].lo);
      StartIsFiled(ivs, i);
    }
    forall k ensures Tracked(r, k) == Count(ivs, k, x) {
      CountStep(ivs, k, p, x);
    }
  }

  lemma {:induction false} CountNothing(ivs: seq<Interval>, k: Kind, a: int)
    requires forall i :: 0 <= i < |ivs| ==> !Covers(ivs[i], a)
    ensures Count(ivs, k, a) == 0
  {
    if ivs != [] {
      CountNothing(ivs[..|ivs| - 1], k, a);
    }
  }

  /** The table built so far says exactly what the input says, for every address below x. */
  ghost predicate ExactBelow(ivs: seq<Interval>, x: int, table: seq<Segment>) {
    && Ordered(table)
    && (table != [] ==> table[|table| - 1].hi < x)
    && forall a :: a < x ==> At(table, a) == Meaning(ivs, a)
  }

  /** Extending an exact table over [x, next) with the meaning at x keeps it exact. */
  lemma ExtendExact(ivs: seq<Interval>, x: int, next: int, table: seq<Segment>, grown: seq<Segment>)
    requires ExactBelow(ivs, x, table) && NoBoundaryWithin(ivs, x, next)
    requires match Meaning(ivs, x)
             case None => grown == table
             case Some(at) => grown == table + [Segment(x, next - 1, at.cc, at.flags)]
    ensures ExactBelow(ivs, next, grown)
  {
    assert forall i :: 0 <= i < |table| ==> table[i].hi < x;
    forall a | a < next ensures At(grown, a) == Meaning(ivs, a) {
      assert grown != table ==> grown[..|grown| - 1] == table;
      if x <= a {
        MeaningConstant(ivs, x, a);
        AtNoneOutside(table, a);
      }
    }
  }

  /** The counters are exact at p and the table is exact below the coordinate x that follows p. */
  ghost predicate SweepInv(ivs: seq<Interval>, p: int, x: int, c: Counters, table: seq<Segment>) {
    && NoBoundaryWithin(ivs, p, x)
    && KeysFiled(ivs, p, c.cc)
    && (forall k :: Tracked(c, k) == Count(ivs, k, p))
    && ExactBelow(ivs, x, table)
  }

  /** Emits the segment [x, next), if anything is active there. */
  method Emit(ghost ivs: seq<Interval>, x: int, next: int, c: Counters, table: seq<Segment>) returns (r: seq<Segment>)
    requires forall k :: Tracked(c, k) == Count(ivs, k, x)
    requires ExactBelow(ivs, x, table) && NoBoundaryWithin(ivs, x, next)
    ensures ExactBelow(ivs, next, r)
  {
    var cc := ActiveCC(c.cc);
    var h, t := c.hosting > 0, c.tor > 0;
    CountersGiveMeaning(ivs, x, c, cc);
    r := table;
    if !(cc.None? && !h && !t) {
      r := table + [Segment(x, next - 1, if cc.None? then "" else cc.value, Flags(h, t))];
    }
    ExtendExact(ivs, x, next, table, r);
  }

  method Sweep(ghost ivs: seq<Interval>, startEv: map<int, seq<Kind>>, endEv: map<int, seq<Kind>>, coords: seq<int>)
    returns (segments: seq<Segment>)
    requires WellFormed(ivs) && coords != []
    requires StartsFiled(ivs, startEv) && EndsFiled(ivs, endEv) && AreCoords(ivs, coords)
    ensures Ordered(segments) && forall a :: At(segments, a) == Meaning(ivs, a)
  {
    var counters := Counters(0, 0, map[]);
    segments := [];
    var idx := 0;
    ghost var p := coords[0] - 1;
    BeforeFirst(ivs, coords, p);
    while true
      invariant 0 <= idx < |coords| && SweepInv(ivs, p, coords[idx], counters, segments)
      decreases |coords| - idx
    {
      var x := coords[idx];
      counters := Advance(ivs, p, x, GetOr(endEv, x, []), GetOr(startEv, x, []), counters);
      if idx + 1 >= |coords| {
        break;
      }
      NoBoundaryBetween(ivs, coords, idx);
      segments := Emit(ivs, x, coords[idx + 1], counters, segments);
      idx, p := idx + 1, x;
    }
    AfterLast(ivs, coords, segments);
  }

  lemma NoBoundaryBetween(ivs: seq<Interval>, coords: seq<int>, idx: nat)
    requires AreCoords(ivs, coords) && idx + 1 < |coords|
    ensures NoBoundaryWithin(ivs, coords[idx], coords[idx + 1])
  {
    forall j | 0 <= j < |coords| ensures coords[j] <= coords[idx] || coords[idx + 1] <= coords[j] {
      assert j <= idx || idx + 1 <= j;
    }
  }

  lemma BeforeFirst(ivs: seq<Interval>, coords: seq<int>, p: int)
    requires WellFormed(ivs) && coords != [] && AreCoords(ivs, coords) && p == coords[0] - 1
    ensures SweepInv(ivs, p, coords[0], Counters(0, 0, map[]), [])
  {
    forall i | 0 <= i < |ivs| ensures coords[0] <= ivs[i].lo {
      assert IsBoundary(ivs, ivs[i].lo);
      var j :| 0 <= j < |coords| && coords[j] == ivs[i].lo;
    }
    forall k ensures Count(ivs, k, p) == 0 {
      CountNothing(ivs, k, p);
    }
    assert forall j :: 0 <= j < |coords| ==> coords[0] <= coords[j];
  }

  lemma AfterLast(ivs: seq<Interval>, coords: seq<int>, table: seq<Segment>)
    requires coords != [] && AreCoords(ivs, coords)
    requires ExactBelow(ivs, coords[|coords| - 1], table)
    ensures forall a :: At(table, a) == Meaning(ivs, a)
  {
    var x := coords[|coords| - 1];
    forall i | 0 <= i < |ivs| ensures ivs[i].hi < x {
      assert IsBoundary(ivs, ivs[i].hi + 1);
      var j :| 0 <= j < |coords| && coords[j] == ivs[i].hi + 1;
    }
    assert forall i :: 0 <= i < |table| ==> table[i].hi < x;
    forall a | x <= a ensures At(table, a) == Meaning(ivs, a) {
      AtNoneOutside(table, a);
    }
  }

  /** Appends s, or extends the last segment in place when s touches it with the same attributes. */
  function Push(merged: seq<Segment>, s: Segment): seq<Segment> {
    if merged != [] && Mergeable(merged[|merged| - 1], s)
    then merged[|merged| - 1 := merged[|merged| - 1].(hi := s.hi)]
    else merged + [s]
  }

  lemma PushKeepsNormal(merged: seq<Segment>, s: Segment)
    requires Normal(merged) && s.lo <= s.hi
    requires merged != [] ==> merged[|merged| - 1].hi < s.lo
    ensures Normal(Push(merged, s)) && Push(merged, s)[|Push(merged, s)| - 1].hi == s.hi
    ensures forall a :: At(Push(merged, s), a) == if Holds(s, a) then Some(Attr(s.cc, s.flags)) else At(merged, a)
  {
    PushIsNormal(merged, s);
    PushMeans(merged, s);
  }

  lemma PushIsNormal(merged: seq<Segment>, s: Segment)
    requires Normal(merged) && s.lo <= s.hi && (merged != [] ==> merged[|merged| - 1].hi < s.lo)
    ensures Normal(Push(merged, s))
  {
    AllBefore(merged, s);
  }

  lemma AllBefore(merged: seq<Segment>, s: Segment)
    requires Ordered(merged) && (merged != [] ==> merged[|merged| - 1].hi < s.lo)
    ensures forall j :: 0 <= j < |merged| ==> merged[j].hi < s.lo
  {
    forall j | 0 <= j < |merged| ensures merged[j].hi < s.lo {
      assert j < |merged| - 1 ==> merged[j].hi < merged[|merged| - 1].lo;
    }
  }

  lemma PushMeans(merged: seq<Segment>, s: Segment)
    requires Normal(merged) && s.lo <= s.hi && (merged != [] ==> merged[|merged| - 1].hi < s.lo)
    ensures forall a :: At(Push(merged, s), a) == if Holds(s, a) then Some(Attr(s.cc, s.flags)) else At(merged, a)
  {
    var r := Push(merged, s);
    assert r[..|r| - 1] == if |r| == |merged| then merged[..|r| - 1] else merged;
    AllBefore(merged, s);
  }

  /** Merges touching segments that carry the same attributes. */
  method Coalesce(segments: seq<Segment>) returns (merged: seq<Segment>)
    requires Ordered(segments)
    ensures Normal(merged) && forall a :: At(merged, a) == At(segments, a)
  {
    merged := [];
    for i := 0 to |segments|
      invariant Normal(merged)
      invariant if i == 0 then merged == [] else merged != [] && merged[|merged| - 1].hi == segments[i - 1].hi
      invariant forall a :: At(merged, a) == At(segments[..i], a)
    {
      PushKeepsNormal(merged, segments[i]);
      assert segments[..i + 1][..i] == segments[..i];
      merged := Push(merged, segments[i]);
    }
    assert segments[..|segments|] == segments;
  }

  lemma SomeBoundary(ivs: seq<Interval>)
    ensures ivs == [] || exists x :: IsBoundary(ivs, x)
  {
    if ivs != [] {
      assert IsBoundary(ivs, ivs[0].lo);
    }
  }

  method MergeIntervals(ivs: seq<Interval>) returns (merged: seq<Segment>)
    requires WellFormed(ivs)
    ensures Represents(merged, ivs)
  {
    var startEv, endEv, coords := IndexEvents(ivs);
    SomeBoundary(ivs);
    if coords == [] {
      return [];
    }
    var segments := Sweep(ivs, startEv, endEv, coords);
    merged := Coalesce(segments);
    forall a ensures At(merged, a) == Meaning(ivs, a) {
      assert At(merged, a) == At(segments, a);
    }
  }

  // ------------------------------------------------------------------ the same, over the buckets themselves

  ghost predicate InRanges(rs: seq<Range>, a: int) {
    exists i :: 0 <= i < |rs| && rs[i].lo <= a <= rs[i].hi
  }

  ghost predicate InCountry(rs: seq<CountryRange>, cc: string, a: int) {
    exists i :: 0 <= i < |rs| && rs[i].lo <= a <= rs[i].hi && rs[i].cc == cc
  }

  /** cc is the least code of the country ranges that cover a, or "" when none does. */
  ghost predicate LeastCode(rs: seq<CountryRange>, a: int, cc: string) {
    if exists c :: InCountry(rs, c, a)
    then InCountry(rs, cc, a) && forall c :: InCountry(rs, c, a) ==> !Before(c, cc)
    else cc == ""
  }

  /** The three answers the buckets give for an address. */
  ghost predicate Tells(b: Buckets, a: int, cc: string, hosting: bool, tor: bool) {
    hosting == InRanges(b.hosting, a) && tor == InRanges(b.tor, a) && LeastCode(b.country, a, cc)
  }

  ghost predicate Uncovered(b: Buckets, a: int) {
    !InRanges(b.hosting, a) && !InRanges(b.tor, a) && forall c :: !InCountry(b.country, c, a)
  }

  ghost predicate WellFormedBuckets(b: Buckets) {
    && (forall i :: 0 <= i < |b.country| ==> b.country[i].lo <= b.country[i].hi)
    && (forall i :: 0 <= i < |b.hosting| ==> b.hosting[i].lo <= b.hosting[i].hi)
    && (forall i :: 0 <= i < |b.tor| ==> b.tor[i].lo <= b.tor[i].hi)
  }

  lemma FiledCountry(b: Buckets, cc: string, a: int)
    ensures Active(Intervals(b), Country(cc), a) <==> InCountry(b.country, cc, a)
  {
    if InCountry(b.country, cc, a) {
      var i :| 0 <= i < |b.country| && b.country[i].lo <= a <= b.country[i].hi && b.country[i].cc == cc;
      assert Intervals(b)[i].kind == Country(cc) && Covers(Intervals(b)[i], a);
    }
  }

  lemma FiledHosting(b: Buckets, a: int)
    ensures Active(Intervals(b), Hosting, a) <==> InRanges(b.hosting, a)
  {
    if InRanges(b.hosting, a) {
      var i :| 0 <= i < |b.hosting| && b.hosting[i].lo <= a <= b.hosting[i].hi;
      var j := |b.country| + i;
      assert Intervals(b)[j].kind == Hosting && Covers(Intervals(b)[j], a);
    }
  }

  lemma FiledTor(b: Buckets, a: int)
    ensures Active(Intervals(b), Tor, a) <==> InRanges(b.tor, a)
  {
    if InRanges(b.tor, a) {
      var i :| 0 <= i < |b.tor| && b.tor[i].lo <= a <= b.tor[i].hi;
      var j := |b.country| + |b.hosting| + i;
      assert Intervals(b)[j].kind == Tor && Covers(Intervals(b)[j], a);
    }
  }

  lemma FiledLeast(b: Buckets, a: int, cc: string)
    requires cc == match LeastCountry(Intervals(b), a) case None => "" case Some(c) => c
    ensures LeastCode(b.country, a, cc)
  {
    forall c ensures Active(Intervals(b), Country(c), a) <==> InCountry(b.country, c, a) {
      FiledCountry(b, c, a);
    }
    forall c ensures StrLess(c, cc) <==> Before(c, cc) {
      StrLessIsBefore(c, cc);
    }
    assert IsLeastCountry(Intervals(b), a, LeastCountry(Intervals(b), a));
  }

  /** The intervals' meaning is what the buckets tell. */
  lemma MeaningTells(b: Buckets, a: int)
    ensures var m := Meaning(Intervals(b), a);
      match m
      case None => Uncovered(b, a)
      case Some(x) => 0 <= x.flags < 4 && Tells(b, a, x.cc, x.flags % 2 == 1, x.flags / 2 == 1)
  {
    FiledHosting(b, a);
    FiledTor(b, a);
    CoveredIffActive(Intervals(b), a);
    if Meaning(Intervals(b), a).None? {
      forall c ensures !InCountry(b.country, c, a) {
        FiledCountry(b, c, a);
      }
    } else {
      FiledLeast(b, a, Meaning(Intervals(b), a).value.cc);
    }
  }

  lemma WellFormedIntervals(b: Buckets)
    requires WellFormedBuckets(b)
    ensures WellFormed(Intervals(b))
  {
  }

  /** merge_family: the one normalized table with the input's meaning at every address. On every row each address has
      exactly the hosting, Tor and country the buckets give it, and off the rows no bucket covers anything. */
  method MergeFamily(b: Buckets) returns (merged: seq<Segment>)
    requires WellFormedBuckets(b)
    ensures Represents(merged, Intervals(b))
    ensures forall i, a :: 0 <= i < |merged| && Holds(merged[i], a) ==>
      && 0 <= merged[i].flags < 4
      && Tells(b, a, merged[i].cc, merged[i].flags % 2 == 1, merged[i].flags / 2 == 1)
    ensures forall a :: (forall i :: 0 <= i < |merged| ==> !Holds(merged[i], a)) ==> Uncovered(b, a)
  {
    WellFormedIntervals(b);
    merged := MergeIntervals(Intervals(b));
    forall i, a | 0 <= i < |merged| && Holds(merged[i], a)
      ensures 0 <= merged[i].flags < 4 && Tells(b, a, merged[i].cc, merged[i].flags % 2 == 1, merged[i].flags / 2 == 1)
    {
      AtFinds(merged, i, a);
      MeaningTells(b, a);
    }
    forall a | forall i :: 0 <= i < |merged| ==> !Holds(merged[i], a) ensures Uncovered(b, a) {
      AtNoneOutside(merged, a);
      MeaningTells(b, a);
    }
  }
}

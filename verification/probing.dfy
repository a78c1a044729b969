// Open addressing with linear probing: tables, what their probes reach, and how one entry
// is placed and removed. Indices of a table are cyclic.
module Probing {
  import opened Bits
  import opened Pool

  datatype Entry = Entry(id: nat, value: nat, used: bool)

  const VACANT := Entry(0, 0, false)

  // The id shifted right by that many bits.
  function HighBits(id: nat, bits: nat): nat {
    if bits == 0 then id else HighBits(id / 2, bits - 1)
  }

  function Masked(x: nat, bits: nat): (h: nat)
    ensures h < Pow2(bits)
  {
    MaskIsSpot(x, bits);
    And(x, Pow2(bits) - 1)
  }

  // The slot where a key's probe starts, in a table of 2^bits entries.
  function Home(id: nat, bits: nat): (h: nat)
    ensures h < Pow2(bits)
  {
    Masked(Xor(id, HighBits(id, bits)), bits)
  }

  // The high bits are the quotient by the table size.
  lemma {:induction false} ShiftIsQuotient(id: nat, bits: nat)
    ensures Pow2(bits) > 0 && id == Pow2(bits) * HighBits(id, bits) + Spot(id, Pow2(bits))
  {
    hide Spot, Pow2;
    PowPositive(bits);
    if bits == 0 {
      PowNone();
      SpotIs(1, id, 0);
    } else {
      SpotStep(id, bits - 1);
      PowStep(bits - 1);
      ShiftIsQuotient(id / 2, bits - 1);
      QuotientStep(id, Pow2(bits - 1), HighBits(id / 2, bits - 1), Spot(id / 2, Pow2(bits - 1)));
    }
  }

  lemma QuotientStep(x: nat, m: nat, q: nat, r: nat)
    requires x / 2 == m * q + r
    ensures x == 2 * m * q + (x % 2 + 2 * r)
  {
    assert 2 * (m * q) == 2 * m * q;
  }

  lemma HomeFolds(id: nat, bits: nat)
    ensures Pow2(bits) > 0
    ensures Home(id, bits) == Xor(Spot(id, Pow2(bits)), Spot(HighBits(id, bits), Pow2(bits)))
  {
    hide Spot, Xor, And;
    MaskIsSpot(Xor(id, HighBits(id, bits)), bits);
    XorLow(id, HighBits(id, bits), bits);
  }

  // Of two ids with one home, the low bits agree exactly when the high bits do.
  lemma SharedHome(a: nat, b: nat, bits: nat)
    requires Home(a, bits) == Home(b, bits)
    ensures var m := Pow2(bits);
            && m > 0
            && (Spot(a, m) == Spot(b, m) <==> Spot(HighBits(a, bits), m) == Spot(HighBits(b, bits), m))
  {
    hide Spot, Xor, Home, HighBits;
    HomeFolds(a, bits);
    HomeFolds(b, bits);
    var m := Pow2(bits);
    var x, y, u, v := Spot(a, m), Spot(b, m), Spot(HighBits(a, bits), m), Spot(HighBits(b, bits), m);
    XorUndoes(x, u);
    XorUndoes(y, v);
    XorCommutes(x, u);
    XorCommutes(y, v);
    XorUndoes(u, x);
    XorUndoes(v, y);
  }

  // Sequential ids do not collide: different ids in one stretch of table size have different
  // homes...
  lemma SequentialHomesDiffer(a: nat, b: nat, bits: nat)
    requires a != b && HighBits(a, bits) == HighBits(b, bits)
    ensures Home(a, bits) != Home(b, bits)
  {
    hide Spot, Home, HighBits;
    ShiftIsQuotient(a, bits);
    ShiftIsQuotient(b, bits);
    if Home(a, bits) == Home(b, bits) {
      SharedHome(a, b, bits);
    }
  }

  // ...and nor do ids exactly a table apart.
  lemma TableApartHomesDiffer(id: nat, bits: nat)
    requires bits > 0
    ensures Home(id, bits) != Home(id + Pow2(bits), bits)
  {
    hide Spot, Home, HighBits;
    var m := Pow2(bits);
    ShiftIsQuotient(id, bits);
    ShiftIsQuotient(id + m, bits);
    var q, r := HighBits(id, bits), Spot(id, m);
    assert m * (q + 1) == m * q + m;
    SpotIs(m, q + 1, r);
    RemainderUnique(m, q + 1, r, HighBits(id + m, bits), r);
    NextSpotDiffers(q, bits);
    if Home(id, bits) == Home(id + m, bits) {
      SharedHome(id, id + m, bits);
    }
  }

  lemma NextSpotDiffers(q: nat, bits: nat)
    requires bits > 0
    ensures Pow2(bits) > 0 && Spot(q, Pow2(bits)) != Spot(q + 1, Pow2(bits))
  {
    hide Spot;
    PowPositive(bits - 1);
    PlacesDiffer(q, 0, 1, Pow2(bits));
  }

  // The index after i, in a table of cap entries.
  function After(i: nat, cap: nat): nat {
    if i + 1 == cap then 0 else i + 1
  }

  // i is on the way from h to p, both included.
  predicate Between(h: nat, i: nat, p: nat) {
    if h <= p then h <= i <= p else h <= i || i <= p
  }

  // How far i comes after e, counting from the index after e, which makes e itself last.
  function Rank(e: nat, i: nat, cap: nat): int {
    if i > e then i - e - 1 else i + cap - e - 1
  }

  lemma RankNext(e: nat, i: nat, cap: nat)
    requires e < cap && i < cap && i != e
    ensures After(i, cap) < cap && Rank(e, After(i, cap), cap) == Rank(e, i, cap) + 1
  {
  }

  lemma RankBetween(e: nat, h: nat, i: nat, p: nat, cap: nat)
    requires e < cap && h < cap && i < cap && p < cap && Rank(e, h, cap) <= Rank(e, p, cap)
    ensures Between(h, i, p) <==> Rank(e, h, cap) <= Rank(e, i, cap) <= Rank(e, p, cap)
  {
  }

  lemma RankWraps(e: nat, h: nat, p: nat, cap: nat)
    requires e < cap && h < cap && p < cap && Rank(e, h, cap) > Rank(e, p, cap)
    ensures Between(h, e, p)
  {
  }

  // Tables -----------------------------------------------------------------------------

  function Used(t: seq<Entry>): set<nat> {
    set p: nat | p < |t| && t[p].used
  }

  // A probe for the entry at p meets no vacant slot on the way from its home.
  ghost predicate ReachedAt(t: seq<Entry>, bits: nat, p: nat)
    requires p < |t|
  {
    t[p].used ==> forall i: nat :: i < |t| && Between(Home(t[p].id, bits), i, p) ==> t[i].used
  }

  ghost predicate Reachable(t: seq<Entry>, bits: nat) {
    forall p: nat :: p < |t| ==> ReachedAt(t, bits, p)
  }

  ghost predicate Unique(t: seq<Entry>) {
    forall p: nat, q: nat :: p < |t| && q < |t| && t[p].used && t[q].used && t[p].id == t[q].id ==> p == q
  }

  ghost predicate Holds(t: seq<Entry>, p: nat, id: nat) {
    p < |t| && t[p].used && t[p].id == id
  }

  // The used entries are exactly the bindings of m.
  ghost predicate Binds(t: seq<Entry>, m: map<nat, nat>) {
    && (forall p: nat :: p < |t| && t[p].used ==> t[p].id in m && m[t[p].id] == t[p].value)
    && (forall id :: id in m ==> exists p: nat :: Holds(t, p, id))
  }

  ghost predicate Stores(t: seq<Entry>, bits: nat, m: map<nat, nat>) {
    && |t| == Pow2(bits) && Reachable(t, bits) && Unique(t) && Binds(t, m) && |Used(t)| == |m|
  }

  lemma VacantExists(t: seq<Entry>) returns (e: nat)
    requires |Used(t)| < |t|
    ensures e < |t| && !t[e].used
  {
    var free := Below(|t|) - Used(t);
    SubsetSize(Used(t), Below(|t|));
    e :| e in free;
  }

  // The same, around a vacant slot e: nothing wraps past it.
  ghost predicate RankedAt(t: seq<Entry>, bits: nat, e: nat, p: nat)
    requires p < |t|
  {
    t[p].used ==>
      && Rank(e, Home(t[p].id, bits), |t|) <= Rank(e, p, |t|)
      && forall i: nat :: i < |t| && Rank(e, Home(t[p].id, bits), |t|) <= Rank(e, i, |t|) <= Rank(e, p, |t|) ==>
           t[i].used
  }

  lemma ReachedRanked(t: seq<Entry>, bits: nat, e: nat, p: nat)
    requires |t| == Pow2(bits) && e < |t| && !t[e].used && p < |t|
    ensures ReachedAt(t, bits, p) <==> RankedAt(t, bits, e, p)
  {
    hide Pow2, Home;
    if t[p].used {
      var h := Home(t[p].id, bits);
      if Rank(e, h, |t|) > Rank(e, p, |t|) {
        RankWraps(e, h, p, |t|);
      } else {
        forall i: nat | i < |t|
          ensures Between(h, i, p) <==> Rank(e, h, |t|) <= Rank(e, i, |t|) <= Rank(e, p, |t|)
        {
          RankBetween(e, h, i, p, |t|);
        }
      }
    }
  }

  // Looking up -----------------------------------------------------------------------------

  // A probe for id has passed every index from its home up to i.
  ghost predicate Passed(t: seq<Entry>, e: nat, h: nat, i: nat, id: nat) {
    && e < |t| && h < |t| && i < |t|
    && Rank(e, h, |t|) <= Rank(e, i, |t|)
    && forall q: nat :: q < |t| && Rank(e, h, |t|) <= Rank(e, q, |t|) < Rank(e, i, |t|) ==> t[q].used && t[q].id != id
  }

  lemma ProbeNext(t: seq<Entry>, e: nat, h: nat, i: nat, id: nat)
    requires Passed(t, e, h, i, id) && !t[e].used && t[i].used && t[i].id != id
    ensures Passed(t, e, h, After(i, |t|), id)
    ensures Rank(e, After(i, |t|), |t|) == Rank(e, i, |t|) + 1 <= |t| - 1
  {
    RankNext(e, i, |t|);
    forall q: nat | q < |t| && Rank(e, q, |t|) == Rank(e, i, |t|) ensures q == i {
    }
  }

  lemma ProbeMisses(t: seq<Entry>, bits: nat, m: map<nat, nat>, e: nat, i: nat, id: nat)
    requires Stores(t, bits, m) && Passed(t, e, Home(id, bits), i, id) && !t[e].used && !t[i].used
    ensures id !in m
  {
    hide Pow2, Home;
    if id in m {
      var p: nat :| Holds(t, p, id);
      assert ReachedAt(t, bits, p);
      ReachedRanked(t, bits, e, p);
    }
  }

  lemma ProbeHits(t: seq<Entry>, bits: nat, m: map<nat, nat>, i: nat, id: nat)
    requires Stores(t, bits, m) && i < |t| && t[i].used && t[i].id == id
    ensures id in m && m[id] == t[i].value
  {
  }

  // Placing ---------------------------------------------------------------------------------

  lemma PlacedReaches(t: seq<Entry>, bits: nat, e: nat, i: nat, id: nat, value: nat)
    requires |t| == Pow2(bits) && Reachable(t, bits)
    requires Passed(t, e, Home(id, bits), i, id) && !t[e].used && !t[i].used
    ensures Reachable(t[i := Entry(id, value, true)], bits)
  {
    hide Pow2, Home;
    var t' := t[i := Entry(id, value, true)];
    forall p: nat | p < |t'| ensures ReachedAt(t', bits, p) {
      assert ReachedAt(t, bits, p);
      if p == i {
        forall q: nat | q < |t| && Between(Home(id, bits), q, i) ensures t'[q].used {
          RankBetween(e, Home(id, bits), q, i, |t|);
          if Rank(e, q, |t|) == Rank(e, i, |t|) {
            SameRank(e, q, i, |t|);
          }
        }
      }
    }
  }

  lemma UsedAfterPlacing(t: seq<Entry>, i: nat, id: nat, value: nat)
    requires i < |t| && !t[i].used
    ensures |Used(t[i := Entry(id, value, true)])| == |Used(t)| + 1
  {
    assert Used(t[i := Entry(id, value, true)]) == Used(t) + {i};
  }

  lemma BoundAt(t: seq<Entry>, m: map<nat, nat>, i: nat, id: nat, value: nat)
    requires Unique(t) && Binds(t, m) && |Used(t)| == |m| && i < |t| && !t[i].used && id !in m
    ensures var t' := t[i := Entry(id, value, true)];
            Unique(t') && Binds(t', m[id := value]) && |Used(t')| == |m[id := value]| == |m| + 1
  {
    hide Used;
    var t' := t[i := Entry(id, value, true)];
    UsedAfterPlacing(t, i, id, value);
    forall k | k in m ensures exists p: nat :: Holds(t', p, k) {
      var p: nat :| Holds(t, p, k);
      assert Holds(t', p, k);
    }
    assert Holds(t', i, id);
  }

  lemma Placed(t: seq<Entry>, bits: nat, m: map<nat, nat>, e: nat, i: nat, id: nat, value: nat)
    requires Stores(t, bits, m) && id !in m
    requires Passed(t, e, Home(id, bits), i, id) && !t[e].used && !t[i].used
    ensures Stores(t[i := Entry(id, value, true)], bits, m[id := value])
  {
    hide Pow2, Home, Reachable, Unique, Binds;
    PlacedReaches(t, bits, e, i, id, value);
    BoundAt(t, m, i, id, value);
  }

  lemma SameRank(e: nat, i: nat, j: nat, cap: nat)
    requires e < cap && i < cap && j < cap && Rank(e, i, cap) == Rank(e, j, cap)
    ensures i == j
  {
  }

  // Closing a gap -----------------------------------------------------------------------------

  // An entry may still be cut off from its home by the hole, if the scan has not passed it.
  ghost predicate MendedAt(u: seq<Entry>, bits: nat, e: nat, hole: nat, j: nat, p: nat)
    requires p < |u|
  {
    u[p].used ==>
      && Rank(e, Home(u[p].id, bits), |u|) <= Rank(e, p, |u|)
      && forall i: nat :: i < |u| && Rank(e, Home(u[p].id, bits), |u|) <= Rank(e, i, |u|) <= Rank(e, p, |u|) ==>
           u[i].used || (i == hole && Rank(e, j, |u|) <= Rank(e, p, |u|))
  }

  // The scan of a backward shift, with the hole at one index and the next entry to look at
  // at j. u is the table with the hole taken as vacant.
  ghost predicate Mending(u: seq<Entry>, bits: nat, e: nat, hole: nat, j: nat) {
    && |u| == Pow2(bits)
    && e < |u| && hole < |u| && j < |u|
    && !u[e].used && !u[hole].used && e != hole
    && Rank(e, hole, |u|) < Rank(e, j, |u|)
    && (forall q: nat :: q < |u| && Rank(e, hole, |u|) < Rank(e, q, |u|) < Rank(e, j, |u|) ==> u[q].used)
    && (forall p: nat :: p < |u| ==> MendedAt(u, bits, e, hole, j, p))
  }

  lemma MendStarts(t: seq<Entry>, bits: nat, e: nat, hole: nat)
    requires |t| == Pow2(bits) && Reachable(t, bits) && e < |t| && hole < |t| && !t[e].used && t[hole].used
    ensures Mending(t[hole := t[hole].(used := false)], bits, e, hole, After(hole, |t|))
  {
    hide Pow2, Home;
    var u := t[hole := t[hole].(used := false)];
    RankNext(e, hole, |t|);
    forall p: nat | p < |u| ensures MendedAt(u, bits, e, hole, After(hole, |t|), p) {
      assert ReachedAt(t, bits, p);
      ReachedRanked(t, bits, e, p);
      if u[p].used && Rank(e, p, |t|) == Rank(e, hole, |t|) {
        SameRank(e, p, hole, |t|);
      }
    }
  }

  // The source's test for an entry that must stay where it is, in terms of ranks.
  lemma StaysMeans(e: nat, hole: nat, j: nat, h: nat, cap: nat)
    requires e < cap && hole < cap && j < cap && h < cap && Rank(e, hole, cap) < Rank(e, j, cap)
    ensures (if hole <= j then hole < h && h <= j else hole < h || h <= j)
       <==> Rank(e, hole, cap) < Rank(e, h, cap) <= Rank(e, j, cap)
  {
  }

  lemma MendPasses(u: seq<Entry>, bits: nat, e: nat, hole: nat, j: nat)
    requires Mending(u, bits, e, hole, j) && u[j].used
    requires Rank(e, hole, |u|) < Rank(e, Home(u[j].id, bits), |u|)
    ensures Mending(u, bits, e, hole, After(j, |u|))
    ensures Rank(e, After(j, |u|), |u|) == Rank(e, j, |u|) + 1
  {
    hide Pow2, Home;
    RankNext(e, j, |u|);
    forall q: nat | q < |u| && Rank(e, q, |u|) == Rank(e, j, |u|) ensures q == j {
      SameRank(e, q, j, |u|);
    }
    forall p: nat | p < |u| ensures MendedAt(u, bits, e, hole, After(j, |u|), p) {
      assert MendedAt(u, bits, e, hole, j, p);
    }
  }

  lemma MendMoves(u: seq<Entry>, bits: nat, e: nat, hole: nat, j: nat)
    requires Mending(u, bits, e, hole, j) && u[j].used
    requires Rank(e, Home(u[j].id, bits), |u|) <= Rank(e, hole, |u|)
    ensures var u' := u[hole := u[j]][j := u[j].(used := false)];
            Mending(u', bits, e, j, After(j, |u|))
    ensures Rank(e, After(j, |u|), |u|) == Rank(e, j, |u|) + 1
  {
    hide Pow2, Home;
    var u' := u[hole := u[j]][j := u[j].(used := false)];
    RankNext(e, j, |u|);
    assert MendedAt(u, bits, e, hole, j, j);
    forall q: nat | q < |u| && Rank(e, q, |u|) == Rank(e, j, |u|) ensures q == j {
      SameRank(e, q, j, |u|);
    }
    forall p: nat | p < |u'| ensures MendedAt(u', bits, e, j, After(j, |u|), p) {
      assert MendedAt(u, bits, e, hole, j, p);
    }
  }

  lemma MendEnds(u: seq<Entry>, bits: nat, e: nat, hole: nat, j: nat)
    requires Mending(u, bits, e, hole, j) && !u[j].used
    ensures Reachable(u, bits)
  {
    hide Pow2, Home;
    forall p: nat | p < |u| ensures ReachedAt(u, bits, p) {
      assert MendedAt(u, bits, e, hole, j, p);
      ReachedRanked(u, bits, e, p);
    }
  }

  // Removing one binding, or moving one entry, keeps the others.
  lemma UnboundAt(t: seq<Entry>, m: map<nat, nat>, i: nat)
    requires Unique(t) && Binds(t, m) && |Used(t)| == |m| && i < |t| && t[i].used
    ensures var u := t[i := t[i].(used := false)];
            Unique(u) && Binds(u, m - {t[i].id}) && |Used(u)| == |m - {t[i].id}| == |m| - 1
  {
    var u := t[i := t[i].(used := false)];
    forall k | k in m - {t[i].id} ensures exists p: nat :: Holds(u, p, k) {
      var p: nat :| Holds(t, p, k);
      assert Holds(u, p, k);
    }
    assert Used(u) == Used(t) - {i};
    assert (m - {t[i].id}).Keys == m.Keys - {t[i].id};
    assert |m.Keys - {t[i].id}| == |m.Keys| - 1;
  }

  lemma MovedEntry(u: seq<Entry>, m: map<nat, nat>, hole: nat, j: nat)
    requires Unique(u) && Binds(u, m) && |Used(u)| == |m| && hole < |u| && j < |u| && !u[hole].used && u[j].used
    ensures var u' := u[hole := u[j]][j := u[j].(used := false)];
            Unique(u') && Binds(u', m) && |Used(u')| == |m|
  {
    hide Unique, Binds, Used;
    var id, value := u[j].id, u[j].value;
    BoundEntry(u, m, j);
    UnboundAt(u, m, j);
    var v := u[j := u[j].(used := false)];
    BoundAt(v, m - {id}, hole, id, value);
    assert v[hole := Entry(id, value, true)] == u[hole := u[j]][j := u[j].(used := false)];
    assert (m - {id})[id := value] == m;
  }

  lemma BoundEntry(t: seq<Entry>, m: map<nat, nat>, i: nat)
    requires Binds(t, m) && i < |t| && t[i].used
    ensures t[i].id in m && m[t[i].id] == t[i].value
  {
  }
}

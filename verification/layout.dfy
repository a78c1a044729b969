// Why the index never degrades: which slots are used, and the total displacement of entries
// from their homes, depend on the ids in the table and not on how they came to be there.
module Layout {
  import opened Bits
  import opened Pool
  import opened Probing
  import opened Index

  // How far the entry at p lies after its home.
  function Displacement(t: seq<Entry>, bits: nat, p: nat): int
    requires p < |t|
  {
    var h := Home(t[p].id, bits);
    if h <= p then p - h else p - h + |t|
  }

  function TotalDisplacement(t: seq<Entry>, bits: nat, n: nat): int
    requires n <= |t|
  {
    if n == 0 then 0
    else TotalDisplacement(t, bits, n - 1) + if t[n - 1].used then Displacement(t, bits, n - 1) else 0
  }

  // Which slots are used -------------------------------------------------------------------

  // The slots whose ranks lie in a range.
  function Span(e: nat, from: int, to: int, cap: nat): set<nat> {
    set q: nat | q < cap && from <= Rank(e, q, cap) <= to
  }

  // A run of used slots that ends at p starts after a vacant slot, or after e.
  ghost predicate RunFrom(t: seq<Entry>, e: nat, from: int, p: nat) {
    && 0 <= from <= Rank(e, p, |t|)
    && (forall q: nat :: q < |t| && from <= Rank(e, q, |t|) <= Rank(e, p, |t|) ==> t[q].used)
    && (forall q: nat :: q < |t| && Rank(e, q, |t|) == from - 1 ==> !t[q].used)
  }

  lemma {:induction false} RunStart(t: seq<Entry>, e: nat, from: int, p: nat) returns (start: int)
    requires e < |t| && !t[e].used && p < |t|
    requires 0 <= from <= Rank(e, p, |t|)
    requires forall q: nat :: q < |t| && from <= Rank(e, q, |t|) <= Rank(e, p, |t|) ==> t[q].used
    ensures RunFrom(t, e, start, p)
    decreases from
  {
    var before := if e + from < |t| then e + from else e + from - |t|;
    if from == 0 || !t[before].used {
      start := from;
      forall q: nat | q < |t| && Rank(e, q, |t|) == from - 1 ensures !t[q].used {
        assert from > 0;
        SameRank(e, q, before, |t|);
      }
    } else {
      forall q: nat | q < |t| && Rank(e, q, |t|) == from - 1 ensures t[q].used {
        SameRank(e, q, before, |t|);
      }
      start := RunStart(t, e, from - 1, p);
    }
  }

  function IdsAt(t: seq<Entry>, s: set<nat>): set<nat> {
    set q | q in s && q < |t| :: t[q].id
  }

  lemma {:induction false} IdsAtSize(t: seq<Entry>, s: set<nat>)
    requires Unique(t) && forall q :: q in s ==> q < |t| && t[q].used
    ensures |IdsAt(t, s)| == |s|
    decreases s
  {
    if s != {} {
      var q :| q in s;
      IdsAtSize(t, s - {q});
      assert IdsAt(t, s) == IdsAt(t, s - {q}) + {t[q].id};
      assert t[q].id !in IdsAt(t, s - {q});
    }
  }

  // Ids that are all held in some set of slots are no more than the slots.
  lemma {:induction false} HeldWithin(t: seq<Entry>, ids: set<nat>, s: set<nat>)
    requires forall id :: id in ids ==> exists p: nat :: p in s && Holds(t, p, id)
    ensures |ids| <= |s|
    decreases ids
  {
    if ids != {} {
      var id :| id in ids;
      var p: nat :| p in s && Holds(t, p, id);
      forall other | other in ids - {id} ensures exists q: nat :: q in s - {p} && Holds(t, q, other) {
        var q: nat :| q in s && Holds(t, q, other);
        assert q in s - {p} && Holds(t, q, other);
      }
      HeldWithin(t, ids - {id}, s - {p});
    }
  }

  // In a run, every home is inside the run.
  lemma RunHomes(t: seq<Entry>, bits: nat, e: nat, from: int, p: nat, q: nat)
    requires |t| == Pow2(bits) && Reachable(t, bits) && e < |t| && !t[e].used && p < |t|
    requires RunFrom(t, e, from, p) && q in Span(e, from, Rank(e, p, |t|), |t|)
    ensures t[q].used && Home(t[q].id, bits) in Span(e, from, Rank(e, p, |t|), |t|)
  {
    hide Pow2, Home;
    assert ReachedAt(t, bits, q);
    ReachedRanked(t, bits, e, q);
    var h := Home(t[q].id, bits);
    var before := if e + from < |t| then e + from else e + from - |t|;
    assert from > 0 ==> before < |t| && Rank(e, before, |t|) == from - 1;
  }

  // A table in which p is vacant holds an id whose home is not past p before p.
  lemma HeldBefore(t: seq<Entry>, bits: nat, e: nat, p: nat, from: int, id: nat, pos: nat)
    requires |t| == Pow2(bits) && Reachable(t, bits) && e < |t| && p < |t| && !t[p].used
    requires Holds(t, pos, id) && Home(id, bits) in Span(e, from, Rank(e, p, |t|), |t|)
    ensures pos in Span(e, from, Rank(e, p, |t|), |t|) - {p}
  {
    hide Pow2, Home;
    var h := Home(id, bits);
    assert ReachedAt(t, bits, pos);
    assert !Between(h, p, pos);
    if Rank(e, h, |t|) <= Rank(e, pos, |t|) {
      RankBetween(e, h, p, pos, |t|);
    } else {
      WrapCovers(e, h, p, pos, |t|);
    }
  }

  lemma WrapCovers(e: nat, h: nat, p: nat, pos: nat, cap: nat)
    requires e < cap && h < cap && p < cap && pos < cap
    requires Rank(e, pos, cap) < Rank(e, h, cap) <= Rank(e, p, cap)
    ensures Between(h, p, pos)
  {
  }

  lemma UsedInBoth(t1: seq<Entry>, t2: seq<Entry>, bits: nat, m1: map<nat, nat>, m2: map<nat, nat>, p: nat)
    requires Stores(t1, bits, m1) && Stores(t2, bits, m2) && m1.Keys == m2.Keys && |m1| < |t1|
    requires p < |t1| && t1[p].used
    ensures t2[p].used
  {
    if !t2[p].used {
      hide Pow2, Home;
      var e := VacantExists(t1);
      forall q: nat | q < |t1| && Rank(e, q, |t1|) == Rank(e, p, |t1|) ensures q == p {
        SameRank(e, q, p, |t1|);
      }
      var from := RunStart(t1, e, Rank(e, p, |t1|), p);
      var run := Span(e, from, Rank(e, p, |t1|), |t1|);
      assert p in run;
      IdsAtSize(t1, run);
      forall id | id in IdsAt(t1, run) ensures exists pos: nat :: pos in run - {p} && Holds(t2, pos, id) {
        var q :| q in run && t1[q].id == id;
        RunHomes(t1, bits, e, from, p, q);
        assert id in m2.Keys;
        var pos: nat :| Holds(t2, pos, id);
        HeldBefore(t2, bits, e, p, from, id, pos);
      }
      HeldWithin(t2, IdsAt(t1, run), run - {p});
    }
  }

  lemma SameUsed(t1: seq<Entry>, t2: seq<Entry>, bits: nat, m1: map<nat, nat>, m2: map<nat, nat>)
    requires Stores(t1, bits, m1) && Stores(t2, bits, m2) && m1.Keys == m2.Keys && |m1| < |t1|
    ensures |t1| == |t2| && forall p :: 0 <= p < |t1| ==> t1[p].used == t2[p].used
  {
    assert |m1| == |m1.Keys| && |m2| == |m2.Keys|;
    forall p | 0 <= p < |t1| ensures t1[p].used == t2[p].used {
      if t1[p].used {
        UsedInBoth(t1, t2, bits, m1, m2, p);
      }
      if t2[p].used {
        UsedInBoth(t2, t1, bits, m2, m1, p);
      }
    }
  }

  // Total displacement ---------------------------------------------------------------------

  // Around a vacant slot, an entry is displaced by the difference of two ranks.
  lemma DisplacementIsRanks(t: seq<Entry>, bits: nat, e: nat, p: nat)
    requires |t| == Pow2(bits) && Reachable(t, bits) && e < |t| && !t[e].used && p < |t| && t[p].used
    ensures Displacement(t, bits, p) == Rank(e, p, |t|) - Rank(e, Home(t[p].id, bits), |t|)
  {
    hide Pow2, Home;
    assert ReachedAt(t, bits, p);
    ReachedRanked(t, bits, e, p);
  }

  function RankSum(t: seq<Entry>, e: nat, n: nat): int
    requires n <= |t|
  {
    if n == 0 then 0 else RankSum(t, e, n - 1) + if t[n - 1].used then Rank(e, n - 1, |t|) else 0
  }

  // The ranks of the homes of a set of ids, added in any order.
  ghost function HomeSum(ids: set<nat>, bits: nat, e: nat, cap: nat): int {
    if ids == {} then 0
    else
      var id :| id in ids;
      Rank(e, Home(id, bits), cap) + HomeSum(ids - {id}, bits, e, cap)
  }

  lemma {:induction false} HomeSumRemove(ids: set<nat>, bits: nat, e: nat, cap: nat, id: nat)
    requires id in ids
    ensures HomeSum(ids, bits, e, cap) == Rank(e, Home(id, bits), cap) + HomeSum(ids - {id}, bits, e, cap)
    decreases ids
  {
    hide Home, Rank;
    var first :| first in ids &&
      HomeSum(ids, bits, e, cap) == Rank(e, Home(first, bits), cap) + HomeSum(ids - {first}, bits, e, cap);
    if first != id {
      HomeSumRemove(ids - {first}, bits, e, cap, id);
      HomeSumRemove(ids - {id}, bits, e, cap, first);
      assert ids - {first} - {id} == ids - {id} - {first};
    }
  }

  function IdsBelow(t: seq<Entry>, n: nat): set<nat> {
    IdsAt(t, UsedBelow(t, n))
  }

  lemma {:induction false} DisplacementSplits(t: seq<Entry>, bits: nat, e: nat, n: nat)
    requires |t| == Pow2(bits) && Reachable(t, bits) && Unique(t) && e < |t| && !t[e].used && n <= |t|
    ensures TotalDisplacement(t, bits, n) == RankSum(t, e, n) - HomeSum(IdsBelow(t, n), bits, e, |t|)
  {
    hide Pow2, Home, Rank, Displacement;
    if n == 0 {
      assert IdsBelow(t, 0) == {};
    } else {
      DisplacementSplits(t, bits, e, n - 1);
      if t[n - 1].used {
        DisplacementIsRanks(t, bits, e, n - 1);
        assert UsedBelow(t, n) == UsedBelow(t, n - 1) + {n - 1};
        var id := t[n - 1].id;
        assert id !in IdsBelow(t, n - 1);
        assert IdsBelow(t, n) == IdsBelow(t, n - 1) + {id};
        HomeSumRemove(IdsBelow(t, n), bits, e, |t|, id);
        assert IdsBelow(t, n) - {id} == IdsBelow(t, n - 1);
      } else {
        assert UsedBelow(t, n) == UsedBelow(t, n - 1);
      }
    }
  }

  lemma {:induction false} SameRankSum(t1: seq<Entry>, t2: seq<Entry>, e: nat, n: nat)
    requires |t1| == |t2| && n <= |t1| && forall p :: 0 <= p < |t1| ==> t1[p].used == t2[p].used
    ensures RankSum(t1, e, n) == RankSum(t2, e, n)
  {
    if n > 0 {
      SameRankSum(t1, t2, e, n - 1);
    }
  }

  lemma AllIds(t: seq<Entry>, bits: nat, m: map<nat, nat>)
    requires Stores(t, bits, m)
    ensures IdsBelow(t, |t|) == m.Keys
  {
    UsedBelowAll(t);
    forall id | id in m ensures id in IdsBelow(t, |t|) {
      var p: nat :| Holds(t, p, id);
      assert p in Used(t);
    }
  }

  lemma StoredDisplacement(t: seq<Entry>, bits: nat, m: map<nat, nat>, e: nat)
    requires Stores(t, bits, m) && e < |t| && !t[e].used
    ensures TotalDisplacement(t, bits, |t|) == RankSum(t, e, |t|) - HomeSum(m.Keys, bits, e, |t|)
  {
    hide Pow2, Home, Rank, Displacement, TotalDisplacement;
    DisplacementSplits(t, bits, e, |t|);
    AllIds(t, bits, m);
  }

  lemma SameUsedSet(t1: seq<Entry>, t2: seq<Entry>)
    requires |t1| == |t2| && forall p :: 0 <= p < |t1| ==> t1[p].used == t2[p].used
    ensures Used(t1) == Used(t2)
  {
  }

  // Two tables of one size that hold the same ids use the same slots and are displaced
  // equally in total, whatever run of insertions, removals and growth made each.
  lemma SameLayout(t1: seq<Entry>, t2: seq<Entry>, bits: nat, m1: map<nat, nat>, m2: map<nat, nat>)
    requires Stores(t1, bits, m1) && Stores(t2, bits, m2) && m1.Keys == m2.Keys && |m1| < |t1|
    ensures Used(t1) == Used(t2)
    ensures |t1| == |t2| && TotalDisplacement(t1, bits, |t1|) == TotalDisplacement(t2, bits, |t2|)
  {
    hide *;
    SameUsed(t1, t2, bits, m1, m2);
    SameUsedSet(t1, t2);
    var e := StoredVacant(t1, bits, m1);
    StoredDisplacement(t1, bits, m1, e);
    StoredDisplacement(t2, bits, m2, e);
    SameRankSum(t1, t2, e, |t1|);
  }

  // A fresh table filled by placing ids one after the other, each in the first vacant slot
  // its probe meets.
  ghost predicate FilledWith(t: seq<Entry>, bits: nat, ids: seq<nat>)
    decreases |ids|, 1
  {
    |t| == Pow2(bits) &&
    if ids == [] then forall p: nat :: p < |t| ==> !t[p].used
    else exists t0: seq<Entry>, e: nat, i: nat :: PlacedIn(t, t0, bits, ids, e, i)
  }

  ghost predicate PlacedIn(t: seq<Entry>, t0: seq<Entry>, bits: nat, ids: seq<nat>, e: nat, i: nat)
    requires ids != []
    decreases |ids|, 0
  {
    var id := ids[|ids| - 1];
    && FilledWith(t0, bits, ids[..|ids| - 1])
    && Passed(t0, e, Home(id, bits), i, id) && !t0[e].used && !t0[i].used
    && t == t0[i := Entry(id, 0, true)]
  }

  lemma {:induction false} FilledStores(t: seq<Entry>, bits: nat, ids: seq<nat>) returns (m: map<nat, nat>)
    requires FilledWith(t, bits, ids) && Distinct(ids)
    ensures Stores(t, bits, m) && forall id :: id in m <==> id in ids
    decreases |ids|
  {
    hide Pow2, Home, Stores, Passed;
    if ids == [] {
      m := map[];
      EmptyTable(t, bits);
    } else {
      var t0: seq<Entry>, e: nat, i: nat :| PlacedIn(t, t0, bits, ids, e, i);
      var n := |ids| - 1;
      var m0 := FilledStores(t0, bits, ids[..n]);
      assert ids == ids[..n] + [ids[n]];
      Placed(t0, bits, m0, e, i, ids[n], 0);
      m := m0[ids[n] := 0];
    }
  }

  // The index never degrades: its table uses the slots, and has the total displacement, of
  // a fresh table of the same size filled with the live ids in any order.
  lemma NeverDegrades(t: seq<Entry>, bits: nat, m: map<nat, nat>, clean: seq<Entry>, ids: seq<nat>)
    requires Stores(t, bits, m) && |m| < |t|
    requires FilledWith(clean, bits, ids) && Distinct(ids) && forall id :: id in m <==> id in ids
    ensures Used(t) == Used(clean)
    ensures |t| == |clean| && TotalDisplacement(t, bits, |t|) == TotalDisplacement(clean, bits, |clean|)
  {
    hide Stores, FilledWith, Used, TotalDisplacement;
    var m' := FilledStores(clean, bits, ids);
    assert m.Keys == m'.Keys;
    SameLayout(t, clean, bits, m, m');
  }
}

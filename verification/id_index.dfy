// Order id to packed slot, as an open-addressed table with backward-shift deletion.
module Index {
  import opened Types
  import opened Bits
  import opened Pool
  import opened Probing

  // (i + 1) & mask is the next index, round the end of the table.
  lemma MaskedNext(i: nat, bits: nat)
    requires i < Pow2(bits)
    ensures And(i + 1, Pow2(bits) - 1) == After(i, Pow2(bits))
  {
    hide Spot;
    var cap := Pow2(bits);
    MaskIsSpot(i + 1, bits);
    if i + 1 == cap {
      assert i + 1 == cap * 1 + 0;
      SpotIs(cap, 1, 0);
    } else {
      assert i + 1 == cap * 0 + (i + 1);
      SpotIs(cap, 0, i + 1);
    }
  }

  lemma EmptyTable(t: seq<Entry>, bits: nat)
    requires |t| == Pow2(bits) && forall p: nat :: p < |t| ==> !t[p].used
    ensures Stores(t, bits, map[])
  {
    assert Used(t) == {};
  }

  lemma StoredVacant(t: seq<Entry>, bits: nat, m: map<nat, nat>) returns (e: nat)
    requires Stores(t, bits, m) && |m| < |t|
    ensures |t| == Pow2(bits) && e < |t| && !t[e].used
  {
    e := VacantExists(t);
  }

  lemma ProbeStarts(t: seq<Entry>, e: nat, h: nat, id: nat)
    requires e < |t| && h < |t|
    ensures Passed(t, e, h, h, id)
  {
  }

  lemma ProbeBounds(t: seq<Entry>, e: nat, h: nat, i: nat, id: nat)
    requires Passed(t, e, h, i, id)
    ensures i < |t| && Rank(e, i, |t|) < |t|
  {
  }

  class IdIndex {
    var table: array<Entry>
    var mask: nat
    var bits: nat
    var count: nat
    var growths: nat

    // What the table stands for.
    ghost var bound: map<nat, nat>

    // The table stores the bindings, every entry reachable, and is at most half full.
    ghost predicate Valid()
      reads this, table
    {
      && Stores(table[..], bits, bound)
      && mask == Pow2(bits) - 1
      && count == |bound|
      && count * 2 <= table.Length && 0 < table.Length
    }

    // Room for `expected` ids without growing.
    constructor (expected: nat)
      requires expected <= 0x4000_0000_0000_0000
      ensures Valid() && fresh(table) && bound == map[] && growths == 0
      ensures 16 <= table.Length && 2 * expected <= table.Length
    {
      hide Pow2, Home, And, Reachable, Unique, Binds, Used;
      var cap, b := 16, 4;
      PowSixteen();
      PowTop();
      while cap / 2 < expected
        invariant cap == Pow2(b) && 16 <= cap && 4 <= b <= 63
        decreases 63 - b
      {
        PowStep(b);
        cap, b := cap * 2, b + 1;
      }
      table := new Entry[cap](_ => VACANT);
      mask, bits, count, growths := cap - 1, b, 0, 0;
      bound := map[];
      new;
      EmptyTable(table[..], bits);
    }

    // Where the probe for id ends: at its entry, or at the vacant slot that shows it absent.
    method Probe(id: nat) returns (i: nat)
      requires Valid()
      ensures i < table.Length
      ensures id in bound <==> table[i].used
      ensures table[i].used ==> table[i].id == id && table[i].value == bound[id]
      ensures !table[i].used ==> exists e: nat :: e < table.Length && !table[e].used &&
                                                  Passed(table[..], e, Home(id, bits), i, id)
    {
      hide Pow2, Home, And, Stores, Passed, Used;
      ghost var t := table[..];
      ghost var e := StoredVacant(t, bits, bound);
      i := Home(id, bits);
      ProbeStarts(t, e, i, id);
      while table[i].used && table[i].id != id
        invariant Passed(t, e, Home(id, bits), i, id) && i < |t|
        decreases |t| - Rank(e, i, |t|)
      {
        ProbeNext(t, e, Home(id, bits), i, id);
        ProbeBounds(t, e, Home(id, bits), After(i, |t|), id);
        MaskedNext(i, bits);
        i := And(i + 1, mask);
      }
      if table[i].used {
        ProbeHits(t, bits, bound, i, id);
      } else {
        ProbeMisses(t, bits, bound, e, i, id);
      }
    }

    method Find(id: nat) returns (value: Option<nat>)
      requires Valid()
      ensures value == if id in bound then Some(bound[id]) else None
    {
      var i := Probe(id);
      return if table[i].used then Some(table[i].value) else None;
    }

    // Adds an id the caller knows is absent. The table grows exactly when it would pass half full.
    method Insert(id: nat, value: nat)
      requires Valid() && id !in bound
      modifies this, table
      ensures Valid() && bound == old(bound)[id := value]
      ensures table == old(table) || fresh(table)
      ensures growths == old(growths) + if (|old(bound)| + 1) * 2 > old(table.Length) then 1 else 0
      ensures table.Length == old(table.Length) * if (|old(bound)| + 1) * 2 > old(table.Length) then 2 else 1
    {
      if (count + 1) * 2 > table.Length {
        Grow();
      }
      Place(id, value, bound);
      count := count + 1;
      bound := bound[id := value];
    }

    // Puts a binding in the first vacant slot from its home.
    method Place(id: nat, value: nat, ghost m: map<nat, nat>)
      requires Stores(table[..], bits, m) && |m| < table.Length && id !in m && mask == Pow2(bits) - 1
      modifies table
      ensures Stores(table[..], bits, m[id := value])
    {
      hide Pow2, Home, And, Stores, Passed, Used;
      ghost var t := table[..];
      ghost var e := StoredVacant(t, bits, m);
      var i: nat := Home(id, bits);
      ProbeStarts(t, e, i, id);
      while table[i].used
        invariant Passed(t, e, Home(id, bits), i, id) && i < |t|
        invariant table[..] == t
        decreases |t| - Rank(e, i, |t|)
      {
        Absent(t, bits, m, i, id);
        ProbeNext(t, e, Home(id, bits), i, id);
        ProbeBounds(t, e, Home(id, bits), After(i, |t|), id);
        MaskedNext(i, bits);
        i := And(i + 1, mask);
      }
      Placed(t, bits, m, e, i, id, value);
      table[i] := Entry(id, value, true);
      assert table[..] == t[i := Entry(id, value, true)];
    }

    // Removes id, giving back its value, or leaves the table alone if it is absent.
    method Take(id: nat) returns (value: Option<nat>)
      requires Valid()
      modifies this`count, this`bound, table
      ensures Valid() && bound == old(bound) - {id}
      ensures value == if id in old(bound) then Some(old(bound)[id]) else None
    {
      hide Pow2, Home, And, Stores, Passed, Used;
      var i := Probe(id);
      if !table[i].used {
        assert bound - {id} == bound;
        return None;
      }
      value := Some(table[i].value);
      assert |bound - {id}| == |bound| - 1 by {
        assert (bound - {id}).Keys == bound.Keys - {id};
        assert |bound.Keys - {id}| == |bound.Keys| - 1;
      }
      CloseGap(i, bound);
      count := count - 1;
      bound := bound - {id};
    }

    // Backward-shift deletion: pull each following entry back into the hole, unless that
    // would move it before its home.
    method CloseGap(at: nat, ghost m: map<nat, nat>)
      requires Stores(table[..], bits, m) && |m| < table.Length && mask == Pow2(bits) - 1
      requires at < table.Length && table[at].used
      modifies table
      ensures Stores(table[..], bits, m - {old(table[at].id)})
    {
      hide *;
      ghost var m' := m - {table[at].id};
      ghost var e := StoredVacant(table[..], bits, m);
      GapOpens(table[..], bits, m, e, at);
      HollowFacts(table[..], bits, m', e, at, After(at, table.Length));
      MaskedNext(at, bits);
      var hole: nat := at;
      var j: nat := And(hole + 1, mask);
      while table[j].used
        invariant hole < table.Length && j < table.Length
        invariant Hollow(table[..], bits, m', e, hole, j)
        decreases table.Length - Rank(e, j, table.Length)
      {
        var h := Home(table[j].id, bits);
        HollowFacts(table[..], bits, m', e, hole, j);
        StaysMeans(e, hole, j, h, table.Length);
        MaskedNext(j, bits);
        var stays := if hole <= j then hole < h && h <= j else hole < h || h <= j;
        if stays {
          GapPasses(table[..], bits, m', e, hole, j);
        } else {
          GapMoves(table[..], bits, m', e, hole, j);
          ghost var before := table[..];
          table[hole] := table[j];
          assert table[..] == before[hole := before[j]];
          hole := j;
        }
        j := And(j + 1, mask);
      }
      GapCloses(table[..], bits, m', e, hole, j);
      ghost var before := table[..];
      table[hole] := table[hole].(used := false);
      assert table[..] == before[hole := before[hole].(used := false)];
    }

    // Doubles the table and places every entry again.
    method Grow()
      requires Valid()
      modifies this`table, this`mask, this`bits, this`growths
      ensures Stores(table[..], bits, bound) && mask == Pow2(bits) - 1
      ensures fresh(table) && table.Length == 2 * old(table.Length) && growths == old(growths) + 1
    {
      hide Home, And, Stores, Used, Unique, Binds, Reachable;
      StoredLength(table[..], bits, bound);
      var before := table;
      ghost var t, bits0 := table[..], bits;
      bits := bits + 1;
      table := new Entry[before.Length * 2](_ => VACANT);
      mask := before.Length * 2 - 1;
      EmptyTable(table[..], bits);
      NoneMoved(t);
      var k := 0;
      while k < before.Length
        invariant 0 <= k <= before.Length && before[..] == t && growths == old(growths)
        invariant fresh(table) && table.Length == 2 * |t| && bits == bits0 + 1 && mask == 2 * |t| - 1
        invariant Stores(table[..], bits, Moved(t, k))
      {
        MoveNext(t, bits0, bound, k);
        if before[k].used {
          Place(before[k].id, before[k].value, Moved(t, k));
        }
        k := k + 1;
      }
      AllMoved(t, bits0, bound);
      growths := growths + 1;
    }

    // Every entry is reachable from its home, and the count matches: decided for a table in
    // any state.
    method Consistent() returns (ok: bool)
      requires table.Length == Pow2(bits) && mask == Pow2(bits) - 1
      ensures ok <==> Reachable(table[..], bits) && |Used(table[..])| == count
    {
      hide Pow2, Home, And;
      ghost var t := table[..];
      var seen, p := 0, 0;
      UsedBelowNone(t);
      while p < table.Length
        invariant 0 <= p <= table.Length
        invariant forall q: nat :: q < p ==> ReachedAt(t, bits, q)
        invariant seen == |UsedBelow(t, p)|
      {
        UsedBelowNext(t, p);
        if table[p].used {
          seen := seen + 1;
          var h := Home(table[p].id, bits);
          var i: nat := h;
          while i != p
            invariant i < table.Length && Between(h, i, p)
            invariant forall q: nat :: q < |t| && Between(h, q, p) && !Between(i, q, p) ==> t[q].used
            decreases if i <= p then p - i else p - i + table.Length
          {
            if !table[i].used {
              assert !ReachedAt(t, bits, p);
              return false;
            }
            MaskedNext(i, bits);
            BetweenNext(h, i, p, table.Length);
            i := And(i + 1, mask);
          }
        }
        assert ReachedAt(t, bits, p);
        p := p + 1;
      }
      UsedBelowAll(t);
      ok := seen == count;
    }
  }

  lemma Absent(t: seq<Entry>, bits: nat, m: map<nat, nat>, i: nat, id: nat)
    requires Stores(t, bits, m) && i < |t| && t[i].used && id !in m
    ensures t[i].id != id
  {
  }

  lemma StoredLength(t: seq<Entry>, bits: nat, m: map<nat, nat>)
    requires Stores(t, bits, m)
    ensures |t| == Pow2(bits)
  {
  }

  // Closing a gap -----------------------------------------------------------------------

  // The table with the hole taken as vacant, whatever stale entry it still holds.
  ghost function Vacated(t: seq<Entry>, hole: nat): seq<Entry>
    requires hole < |t|
  {
    t[hole := t[hole].(used := false)]
  }

  ghost predicate BindsAll(u: seq<Entry>, m: map<nat, nat>) {
    Unique(u) && Binds(u, m) && |Used(u)| == |m|
  }

  // The scan of a backward shift has come to j, and with the hole vacant the table binds m.
  ghost predicate Hollow(t: seq<Entry>, bits: nat, m: map<nat, nat>, e: nat, hole: nat, j: nat) {
    hole < |t| && Mending(Vacated(t, hole), bits, e, hole, j) && BindsAll(Vacated(t, hole), m)
  }

  lemma GapOpens(t: seq<Entry>, bits: nat, m: map<nat, nat>, e: nat, hole: nat)
    requires Stores(t, bits, m) && e < |t| && hole < |t| && !t[e].used && t[hole].used
    ensures Hollow(t, bits, m - {t[hole].id}, e, hole, After(hole, |t|))
  {
    MendStarts(t, bits, e, hole);
    UnboundAt(t, m, hole);
  }

  lemma HollowFacts(t: seq<Entry>, bits: nat, m: map<nat, nat>, e: nat, hole: nat, j: nat)
    requires Hollow(t, bits, m, e, hole, j)
    ensures |t| == Pow2(bits) && e < |t| && hole < |t| && j < |t| && hole != j
    ensures Rank(e, hole, |t|) < Rank(e, j, |t|) < |t|
    ensures t[j].used ==> Rank(e, Home(t[j].id, bits), |t|) <= Rank(e, j, |t|)
  {
    assert MendedAt(Vacated(t, hole), bits, e, hole, j, j);
  }

  lemma GapPasses(t: seq<Entry>, bits: nat, m: map<nat, nat>, e: nat, hole: nat, j: nat)
    requires Hollow(t, bits, m, e, hole, j) && j < |t| && t[j].used
    requires Rank(e, hole, |t|) < Rank(e, Home(t[j].id, bits), |t|)
    ensures After(j, |t|) < |t| && Hollow(t, bits, m, e, hole, After(j, |t|))
    ensures Rank(e, After(j, |t|), |t|) == Rank(e, j, |t|) + 1 <= |t|
  {
    hide Mending, BindsAll, Rank, Home, Pow2;
    HollowFacts(t, bits, m, e, hole, j);
    MendPasses(Vacated(t, hole), bits, e, hole, j);
    HollowFacts(t, bits, m, e, hole, After(j, |t|));
  }

  lemma GapMoves(t: seq<Entry>, bits: nat, m: map<nat, nat>, e: nat, hole: nat, j: nat)
    requires Hollow(t, bits, m, e, hole, j) && j < |t| && t[j].used
    requires Rank(e, Home(t[j].id, bits), |t|) <= Rank(e, hole, |t|)
    ensures hole < |t| && After(j, |t|) < |t|
    ensures Hollow(t[hole := t[j]], bits, m, e, j, After(j, |t|))
    ensures Rank(e, After(j, |t|), |t|) == Rank(e, j, |t|) + 1 <= |t|
  {
    hide Mending, Unique, Binds, Used, Rank, Home, Pow2;
    HollowFacts(t, bits, m, e, hole, j);
    var u := Vacated(t, hole);
    MendMoves(u, bits, e, hole, j);
    MovedEntry(u, m, hole, j);
    var t' := t[hole := t[j]];
    assert Vacated(t', j) == u[hole := u[j]][j := u[j].(used := false)];
    HollowFacts(t', bits, m, e, j, After(j, |t|));
  }

  lemma GapCloses(t: seq<Entry>, bits: nat, m: map<nat, nat>, e: nat, hole: nat, j: nat)
    requires Hollow(t, bits, m, e, hole, j) && j < |t| && !t[j].used
    ensures hole < |t| && Stores(t[hole := t[hole].(used := false)], bits, m)
  {
    HollowFacts(t, bits, m, e, hole, j);
    MendEnds(Vacated(t, hole), bits, e, hole, j);
  }

  // The bindings of the first k entries.
  ghost function Moved(t: seq<Entry>, k: nat): map<nat, nat>
    requires k <= |t|
  {
    if k == 0 then map[]
    else if t[k - 1].used then Moved(t, k - 1)[t[k - 1].id := t[k - 1].value]
    else Moved(t, k - 1)
  }

  lemma NoneMoved(t: seq<Entry>)
    ensures Moved(t, 0) == map[]
  {
  }

  lemma {:induction false} MovedHolds(t: seq<Entry>, k: nat)
    requires k <= |t|
    ensures forall p: nat :: p < k && t[p].used ==> t[p].id in Moved(t, k)
    ensures forall id :: id in Moved(t, k) ==> exists p: nat :: p < k && Holds(t, p, id)
    ensures |Moved(t, k)| <= k
  {
    if k > 0 {
      MovedHolds(t, k - 1);
      if t[k - 1].used {
        assert Holds(t, k - 1, t[k - 1].id);
      }
    }
  }

  lemma {:induction false} MovedBinds(t: seq<Entry>, m: map<nat, nat>, k: nat)
    requires Binds(t, m) && k <= |t|
    ensures forall id :: id in Moved(t, k) ==> id in m && Moved(t, k)[id] == m[id]
  {
    if k > 0 {
      MovedBinds(t, m, k - 1);
    }
  }

  lemma MoveNext(t: seq<Entry>, bits: nat, m: map<nat, nat>, k: nat)
    requires Stores(t, bits, m) && k < |t|
    ensures Moved(t, k + 1) == if t[k].used then Moved(t, k)[t[k].id := t[k].value] else Moved(t, k)
    ensures t[k].used ==> t[k].id !in Moved(t, k)
    ensures |Moved(t, k)| <= k
  {
    MovedHolds(t, k);
  }

  lemma AllMoved(t: seq<Entry>, bits: nat, m: map<nat, nat>)
    requires Stores(t, bits, m)
    ensures Moved(t, |t|) == m
  {
    MovedHolds(t, |t|);
    MovedBinds(t, m, |t|);
    forall id | id in m ensures id in Moved(t, |t|) {
      var p: nat :| Holds(t, p, id);
    }
  }

  // Counting ---------------------------------------------------------------------------

  function UsedBelow(t: seq<Entry>, n: nat): set<nat> {
    set p: nat | p < |t| && p < n && t[p].used
  }

  lemma UsedBelowNone(t: seq<Entry>)
    ensures UsedBelow(t, 0) == {}
  {
  }

  lemma UsedBelowNext(t: seq<Entry>, n: nat)
    requires n < |t|
    ensures |UsedBelow(t, n + 1)| == |UsedBelow(t, n)| + if t[n].used then 1 else 0
  {
    assert UsedBelow(t, n + 1) == UsedBelow(t, n) + if t[n].used then {n} else {};
  }

  lemma UsedBelowAll(t: seq<Entry>)
    ensures UsedBelow(t, |t|) == Used(t)
  {
  }

  lemma BetweenNext(h: nat, i: nat, p: nat, cap: nat)
    requires h < cap && i < cap && p < cap && Between(h, i, p) && i != p
    ensures After(i, cap) < cap && Between(h, After(i, cap), p)
    ensures forall q: nat :: q < cap && Between(h, q, p) && !Between(After(i, cap), q, p) ==>
            q == i || !Between(i, q, p)
  {
  }
}

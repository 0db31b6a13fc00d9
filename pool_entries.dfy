/** The table of a growing memory pool, as a value: a sequence of entries, each
    a flag saying whether the vector is handed out and the vector itself
    (`entry_type`, a pair of a bool and an owning pointer). The functions here
    give the abstract view of the table (which vectors it owns, which of them
    are handed out, which are free for reuse) and the reference definition of
    the sweep done by `release_unused_memory`. */
module PoolEntries {
  import opened Vectors

  datatype Entry = Entry(inUse: bool, vector: VectorId)

  /** No vector is owned by two entries of the table. */
  ghost predicate Distinct(s: seq<Entry>)
  {
    forall i, j :: 0 <= i < j < |s| ==> s[i].vector != s[j].vector
  }

  /** Every vector the table owns. */
  function Pooled(s: seq<Entry>): set<VectorId>
  {
    set e | e in s :: e.vector
  }

  /** The vectors currently handed out. */
  function InUse(s: seq<Entry>): set<VectorId>
  {
    set e | e in s && e.inUse :: e.vector
  }

  /** The vectors kept for reuse. */
  function Unused(s: seq<Entry>): set<VectorId>
  {
    set e | e in s && !e.inUse :: e.vector
  }

  /** The table after the sweep of `release_unused_memory`: the entries in use,
      in their order. */
  function KeepInUse(s: seq<Entry>): seq<Entry>
  {
    if s == [] then []
    else KeepInUse(s[..|s| - 1]) + (if s[|s| - 1].inUse then [s[|s| - 1]] else [])
  }

  /** The table with the flag of entry `i` set to `used`, its vector kept. */
  function Mark(s: seq<Entry>, i: nat, used: bool): seq<Entry>
    requires i < |s|
  {
    s[i := Entry(used, s[i].vector)]
  }

  /** Adding one entry at the end of the table adds its vector to exactly one
      of the two views. */
  lemma Snoc(s: seq<Entry>, e: Entry)
    ensures Pooled(s + [e]) == Pooled(s) + {e.vector}
    ensures InUse(s + [e]) == InUse(s) + (if e.inUse then {e.vector} else {})
    ensures Unused(s + [e]) == Unused(s) + (if e.inUse then {} else {e.vector})
  {
  }

  /** One step of a front-to-back scan of the table: what entry `i` adds to
      the sweep and to the views of the prefix before it. */
  lemma ScanStep(s: seq<Entry>, i: nat)
    requires Distinct(s) && i < |s|
    ensures s[i].vector !in Pooled(s[..i])
    ensures Pooled(s[..i + 1]) == Pooled(s[..i]) + {s[i].vector}
    ensures Unused(s[..i + 1]) == Unused(s[..i]) + (if s[i].inUse then {} else {s[i].vector})
    ensures KeepInUse(s[..i + 1]) == KeepInUse(s[..i]) + (if s[i].inUse then [s[i]] else [])
  {
    forall m | 0 <= m < i ensures s[..i][m].vector != s[i].vector {
      assert s[..i][m] == s[m];
    }
    assert s[..i + 1] == s[..i] + [s[i]];
    Snoc(s[..i], s[i]);
    assert s[..i + 1][..i] == s[..i];
  }

  /** The vectors the sweep keeps are all owned by the table and none of them
      is one the sweep destroys. */
  lemma KeepInUseSurvives(s: seq<Entry>, live: set<VectorId>)
    requires Distinct(s)
    requires forall i :: 0 <= i < |s| ==> s[i].vector in live
    ensures forall k :: 0 <= k < |KeepInUse(s)| ==> KeepInUse(s)[k].vector in live - Unused(s)
  {
    KeepInUseMembers(s);
    UseDisjoint(s);
    forall k | 0 <= k < |KeepInUse(s)| ensures KeepInUse(s)[k].vector in live - Unused(s) {
      var e := KeepInUse(s)[k];
      assert e in s && e.inUse;
      assert e.vector in InUse(s);
    }
  }

  /** In a table without duplicates a vector is either handed out or free,
      never both, and every owned vector is one of the two. */
  lemma UseDisjoint(s: seq<Entry>)
    requires Distinct(s)
    ensures InUse(s) !! Unused(s)
    ensures Pooled(s) == InUse(s) + Unused(s)
  {
  }

  /** Handing out entry `i` (or taking it back) moves its vector from one view
      to the other and keeps the table's identities and their uniqueness. */
  lemma MarkMoves(s: seq<Entry>, i: nat, used: bool)
    requires Distinct(s) && i < |s|
    ensures Distinct(Mark(s, i, used))
    ensures |Mark(s, i, used)| == |s|
    ensures Pooled(Mark(s, i, used)) == Pooled(s)
    ensures used ==> InUse(Mark(s, i, used)) == InUse(s) + {s[i].vector}
    ensures used ==> Unused(Mark(s, i, used)) == Unused(s) - {s[i].vector}
    ensures !used ==> InUse(Mark(s, i, used)) == InUse(s) - {s[i].vector}
    ensures !used ==> Unused(Mark(s, i, used)) == Unused(s) + {s[i].vector}
  {
    var t := Mark(s, i, used);
    var v := s[i].vector;
    assert forall k :: 0 <= k < |s| ==> t[k].vector == s[k].vector;
    assert t[i] == Entry(used, v);
    // Every entry of one table other than entry i is an entry of the other.
    forall e | e in s && e.vector != v ensures e in t {
      var k :| 0 <= k < |s| && s[k] == e;
      assert t[k] == e;
    }
    forall e | e in t && e.vector != v ensures e in s {
      var k :| 0 <= k < |t| && t[k] == e;
      assert s[k] == e;
    }
    // Entry i is the only one that carries v.
    forall e | e in s && e.vector == v ensures e == s[i] {
      var k :| 0 <= k < |s| && s[k] == e;
    }
    forall e | e in t && e.vector == v ensures e == t[i] {
      var k :| 0 <= k < |t| && t[k] == e;
    }
    assert s[i] in s && t[i] in t;
  }

  /** An entry survives the sweep exactly when it was in the table and in use. */
  lemma {:induction false} KeepInUseMembers(s: seq<Entry>)
    ensures forall e :: e in KeepInUse(s) <==> e in s && e.inUse
  {
    if s != [] {
      var p := s[..|s| - 1];
      KeepInUseMembers(p);
      assert s == p + [s[|s| - 1]];
    }
  }

  /** The sweep distributes over concatenation, so it keeps the relative order
      of the entries it keeps. */
  lemma {:induction false} KeepInUseAppend(s: seq<Entry>, t: seq<Entry>)
    ensures KeepInUse(s + t) == KeepInUse(s) + KeepInUse(t)
  {
    if t == [] {
      assert s + t == s;
    } else {
      var p := t[..|t| - 1];
      KeepInUseAppend(s, p);
      assert (s + t)[..|s + t| - 1] == s + p;
      assert (s + t)[|s + t| - 1] == t[|t| - 1];
    }
  }

  /** After the sweep every vector handed out is still there, flagged in use,
      and no free vector is left. */
  lemma KeepInUseViews(s: seq<Entry>)
    ensures InUse(KeepInUse(s)) == InUse(s)
    ensures Pooled(KeepInUse(s)) == InUse(s)
    ensures Unused(KeepInUse(s)) == {}
  {
    KeepInUseMembers(s);
  }

  /** The sweep does not create duplicates. */
  lemma {:induction false} KeepInUseDistinct(s: seq<Entry>)
    requires Distinct(s)
    ensures Distinct(KeepInUse(s))
  {
    if s != [] {
      var p := s[..|s| - 1];
      var last := s[|s| - 1];
      assert Distinct(p);
      KeepInUseDistinct(p);
      KeepInUseMembers(p);
      var k := KeepInUse(p);
      if last.inUse {
        forall j | 0 <= j < |k| ensures k[j].vector != last.vector {
          assert k[j] in p;
          var m :| 0 <= m < |p| && p[m] == k[j];
          assert s[m] == k[j];
        }
        assert KeepInUse(s) == k + [last];
      }
    }
  }

  /** A table without duplicates owns exactly as many vectors as it has
      entries. */
  lemma {:induction false} DistinctSize(s: seq<Entry>)
    requires Distinct(s)
    ensures |Pooled(s)| == |s|
  {
    if s != [] {
      var p := s[..|s| - 1];
      var last := s[|s| - 1];
      assert Distinct(p);
      DistinctSize(p);
      forall m | 0 <= m < |p| ensures p[m].vector != last.vector {
        assert s[m] == p[m];
      }
      assert last.vector !in Pooled(p);
      assert s == p + [last];
      Snoc(p, last);
    }
  }

  /** After the sweep the table has one entry per vector handed out. */
  lemma KeepInUseSize(s: seq<Entry>)
    requires Distinct(s)
    ensures |KeepInUse(s)| == |InUse(s)|
  {
    KeepInUseDistinct(s);
    DistinctSize(KeepInUse(s));
    KeepInUseViews(s);
  }

  /** A table owns at least as many vectors as any duplicate-free sequence of
      vectors it has handed out. */
  lemma {:induction false} HandedOutBound(vs: seq<VectorId>, s: seq<Entry>)
    requires Distinct(s)
    requires forall i, j :: 0 <= i < j < |vs| ==> vs[i] != vs[j]
    requires forall i :: 0 <= i < |vs| ==> vs[i] in InUse(s)
    ensures |s| >= |vs|
  {
    UseDisjoint(s);
    DistinctSize(s);
    DistinctWithin(vs, InUse(s));
    SubsetSize(InUse(s), Pooled(s));
  }

  /** A duplicate-free sequence whose elements all lie in `S` is no longer than
      `S` is large. */
  lemma {:induction false} DistinctWithin(vs: seq<VectorId>, S: set<VectorId>)
    requires forall i, j :: 0 <= i < j < |vs| ==> vs[i] != vs[j]
    requires forall i :: 0 <= i < |vs| ==> vs[i] in S
    ensures |S| >= |vs|
  {
    if vs != [] {
      var x := vs[|vs| - 1];
      DistinctWithin(vs[..|vs| - 1], S - {x});
    }
  }

  /** A subset is no larger than its superset. */
  lemma {:induction false} SubsetSize(A: set<VectorId>, B: set<VectorId>)
    requires A <= B
    ensures |A| <= |B|
  {
    if A != {} {
      var x :| x in A;
      SubsetSize(A - {x}, B - {x});
    }
  }
}

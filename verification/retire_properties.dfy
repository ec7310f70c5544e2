/** Properties of the retirement queue across calls: idempotent collection, every pointer freed
    at most once, and the threshold behaviour of a run of `retire` calls. */
module RetireProperties {
  import opened Hazard
  import opened Retirement

  /** When every entry is hazarded, the `retain` pass keeps them all and frees nothing. */
  lemma {:induction false} RetainAllHazarded(entries: seq<Retired>, hazards: set<Ptr>)
    requires forall i :: 0 <= i < |entries| ==> entries[i].ptr in hazards
    ensures Retain(entries, hazards) == (entries, [])
    decreases |entries|
  {
    if |entries| > 0 {
      RetainAllHazarded(entries[1..], hazards);
      assert entries == [entries[0]] + entries[1..];
    }
  }

  /** When no entry is hazarded, the `retain` pass frees them all, in order. */
  lemma {:induction false} RetainNoneHazarded(entries: seq<Retired>, hazards: set<Ptr>)
    requires forall i :: 0 <= i < |entries| ==> entries[i].ptr !in hazards
    ensures Retain(entries, hazards) == ([], entries)
    decreases |entries|
  {
    if |entries| > 0 {
      RetainNoneHazarded(entries[1..], hazards);
      assert entries == [entries[0]] + entries[1..];
    }
  }

  /** A subsequence never holds an element more often than the whole does. */
  lemma {:induction false} SubseqMultiset<T>(a: seq<T>, b: seq<T>)
    ensures IsSubseq(a, b) ==> multiset(a) <= multiset(b)
    decreases |b|
  {
    if |a| > 0 && IsSubseq(a, b) {
      assert b == [b[0]] + b[1..];
      if a[0] == b[0] && IsSubseq(a[1..], b[1..]) {
        SubseqMultiset(a[1..], b[1..]);
        assert a == [a[0]] + a[1..];
      } else {
        SubseqMultiset(a, b[1..]);
      }
    }
  }

  lemma MultisetCancel<T>(x: T, a: multiset<T>, b: multiset<T>, c: multiset<T>)
    requires multiset{x} + a + b == multiset{x} + c
    ensures a + b == c
  {
    forall y ensures (a + b)[y] == c[y] {
      assert (multiset{x} + a + b)[y] == (multiset{x} + c)[y];
    }
  }

  /** An order-preserving selection that avoids the head of a sequence selects from its tail. */
  lemma SubseqDropHead<T>(e: T, rest: seq<T>, o: seq<T>)
    requires IsSubseq(o, [e] + rest) && e !in o
    ensures IsSubseq(o, rest)
  {
    assert ([e] + rest)[1..] == rest;
    if |o| > 0 {
      assert o[0] in o;
    }
  }

  /** When two selections together account for `[e] + rest` and `e` is not in the second,
      the first selection starts with `e`, and the remainders account for `rest`. */
  lemma TakeHead<T>(e: T, rest: seq<T>, a: seq<T>, o: seq<T>)
    requires e !in o
    requires multiset(a) + multiset(o) == multiset{e} + multiset(rest)
    requires IsSubseq(a, [e] + rest)
    ensures |a| > 0 && a == [e] + a[1..]
    ensures IsSubseq(a[1..], rest)
    ensures multiset(a[1..]) + multiset(o) == multiset(rest)
  {
    assert ([e] + rest)[1..] == rest;
    assert (multiset(a) + multiset(o))[e] == (multiset{e} + multiset(rest))[e];
    assert multiset(a)[e] == multiset(rest)[e] + 1;
    assert |a| > 0;
    SubseqMultiset(a, rest);
    assert !IsSubseq(a, rest);
    assert a == [a[0]] + a[1..];
    assert multiset(a) == multiset{e} + multiset(a[1..]);
    MultisetCancel(e, multiset(a[1..]), multiset(o), multiset(rest));
  }

  /** The split `collect` makes is the only one with its properties: any order-preserving
      selection of exactly the hazarded entries, whose complement is an order-preserving
      selection of the others, is the kept buffer, and the complement is the freed list. */
  lemma {:induction false} RetainUnique(entries: seq<Retired>, hazards: set<Ptr>, kept: seq<Retired>, freed: seq<Retired>)
    requires forall x :: x in kept ==> x.ptr in hazards
    requires forall x :: x in freed ==> x.ptr !in hazards
    requires multiset(kept) + multiset(freed) == multiset(entries)
    requires IsSubseq(kept, entries) && IsSubseq(freed, entries)
    ensures Retain(entries, hazards) == (kept, freed)
    decreases |entries|
  {
    if |entries| == 0 {
      assert |kept| == 0 && |freed| == 0;
    } else {
      var e, rest := entries[0], entries[1..];
      assert entries == [e] + rest;
      if e.ptr in hazards {
        assert e !in freed;
        SubseqDropHead(e, rest, freed);
        TakeHead(e, rest, kept, freed);
        RetainUnique(rest, hazards, kept[1..], freed);
      } else {
        assert e !in kept;
        SubseqDropHead(e, rest, kept);
        assert multiset(freed) + multiset(kept) == multiset{e} + multiset(rest);
        TakeHead(e, rest, freed, kept);
        RetainUnique(rest, hazards, kept, freed[1..]);
      }
    }
  }

  /** A second `collect` against the same registry state frees nothing and leaves the
      buffer as the first one left it. */
  lemma CollectIdempotent(rs: RetiredSet, hazards: Bag)
    ensures Collect(Collect(rs, hazards).queue, hazards) == Collected(Collect(rs, hazards).queue, [])
  {
    var kept := Collect(rs, hazards).queue.inner;
    RetainAllHazarded(kept, AllHazards(hazards));
  }

  /** Every element of a subsequence is an element of the whole. */
  lemma {:induction false} SubseqMembers<T>(a: seq<T>, b: seq<T>)
    requires IsSubseq(a, b)
    ensures forall x :: x in a ==> x in b
    decreases |b|
  {
    if |a| > 0 {
      if a[0] == b[0] && IsSubseq(a[1..], b[1..]) {
        SubseqMembers(a[1..], b[1..]);
        assert a == [a[0]] + a[1..];
      } else {
        SubseqMembers(a, b[1..]);
      }
    }
  }

  /** A subsequence of entries with distinct pointers has distinct pointers. */
  lemma {:induction false} SubseqDistinct(a: seq<Retired>, b: seq<Retired>)
    requires IsSubseq(a, b) && DistinctPtrs(b)
    ensures DistinctPtrs(a)
    decreases |b|
  {
    if |a| > 0 {
      if a[0] == b[0] && IsSubseq(a[1..], b[1..]) {
        SubseqDistinct(a[1..], b[1..]);
        SubseqMembers(a[1..], b[1..]);
        forall j | 0 < j < |a| ensures a[0].ptr != a[j].ptr {
          assert a[j] == a[1..][j - 1];
          assert a[j] in b[1..];
          var k :| 0 <= k < |b[1..]| && b[1..][k] == a[j];
          assert b[k + 1] == a[j];
        }
        forall i, j | 0 <= i < j < |a| ensures a[i].ptr != a[j].ptr {
          if i > 0 {
            assert a[i] == a[1..][i - 1] && a[j] == a[1..][j - 1];
          }
        }
      } else {
        SubseqDistinct(a, b[1..]);
      }
    }
  }

  /** Under the retire-once discipline (no pointer buffered twice), `collect` calls each
      deleter on a different pointer, so nothing is freed twice, and the kept buffer still
      holds each pointer once. */
  lemma CollectFreesOnce(rs: RetiredSet, hazards: Bag)
    requires DistinctPtrs(rs.inner)
    ensures DistinctPtrs(Collect(rs, hazards).freed)
    ensures DistinctPtrs(Collect(rs, hazards).queue.inner)
  {
    var c := Collect(rs, hazards);
    SubseqDistinct(c.freed, rs.inner);
    SubseqDistinct(c.queue.inner, rs.inner);
  }

  /** Retiring a pointer not already buffered keeps the buffer and the frees free of
      duplicates. */
  lemma RetireOnceFreesOnce(rs: RetiredSet, hazards: Bag, p: Ptr, d: Deleter)
    requires DistinctPtrs(rs.inner)
    requires forall i :: 0 <= i < |rs.inner| ==> rs.inner[i].ptr != p
    ensures DistinctPtrs(Retire(rs, hazards, p, d).queue.inner)
    ensures DistinctPtrs(Retire(rs, hazards, p, d).freed)
  {
    var pushed := RetiredSet(rs.inner + [Retired(p, d)]);
    assert DistinctPtrs(pushed.inner);
    if |pushed.inner| >= THRESHOLD {
      CollectFreesOnce(pushed, hazards);
    }
  }

  /** Below the threshold a run of `retire` calls only appends, in order, and frees nothing. */
  lemma {:induction false} RetireBelowThreshold(rs: RetiredSet, hazards: Bag, entries: seq<Retired>)
    requires |rs.inner| + |entries| < THRESHOLD
    ensures RetireAll(rs, hazards, entries) == Collected(RetiredSet(rs.inner + entries), [])
    decreases |entries|
  {
    if |entries| > 0 {
      RetireBelowThreshold(RetiredSet(rs.inner + [entries[0]]), hazards, entries[1..]);
      RetireAppendsBelowThreshold(rs, hazards, entries);
    }
  }

  /** With nothing hazarded, the `retire` call that brings the buffer to the threshold frees
      every buffered entry, in order. */
  lemma RetireFillsThreshold(rs: RetiredSet, hazards: Bag, e: Retired)
    requires AllHazards(hazards) == {}
    requires |rs.inner| + 1 == THRESHOLD
    ensures Retire(rs, hazards, e.ptr, e.deleter) == Collected(RetiredSet([]), rs.inner + [e])
  {
    assert Retired(e.ptr, e.deleter) == e;
    RetainNoneHazarded(rs.inner + [e], AllHazards(hazards));
  }

  /** With nothing hazarded, the `retire` call that fills the buffer to the threshold frees
      everything buffered, in retirement order, and empties the buffer. */
  lemma {:induction false} RetireUpToThreshold(rs: RetiredSet, hazards: Bag, entries: seq<Retired>)
    requires AllHazards(hazards) == {}
    requires |entries| > 0 && |rs.inner| + |entries| == THRESHOLD
    ensures RetireAll(rs, hazards, entries) == Collected(RetiredSet([]), rs.inner + entries)
    decreases |entries|
  {
    if |entries| == 1 {
      RetireLastFillsThreshold(rs, hazards, entries);
    } else {
      RetireUpToThreshold(RetiredSet(rs.inner + [entries[0]]), hazards, entries[1..]);
      RetireAppendsBelowThreshold(rs, hazards, entries);
    }
  }

  /** One `retire` below the threshold, then the rest of the run from the extended buffer. */
  lemma RetireAppendsBelowThreshold(rs: RetiredSet, hazards: Bag, entries: seq<Retired>)
    requires |entries| > 0 && |rs.inner| + 1 < THRESHOLD
    ensures RetireAll(rs, hazards, entries) == RetireAll(RetiredSet(rs.inner + [entries[0]]), hazards, entries[1..])
    ensures RetiredSet(rs.inner + [entries[0]]).inner + entries[1..] == rs.inner + entries
  {
    ConsAssoc(rs.inner, entries);
    var e := entries[0];
    assert Retired(e.ptr, e.deleter) == e;
    var rest := RetireAll(RetiredSet(rs.inner + [e]), hazards, entries[1..]);
    assert [] + rest.freed == rest.freed;
  }

  lemma ConsAssoc<T>(a: seq<T>, b: seq<T>)
    requires |b| > 0
    ensures a + [b[0]] + b[1..] == a + b
  {
    assert b == [b[0]] + b[1..];
  }

  /** The base case of `RetireUpToThreshold`: one last `retire` fills the buffer. */
  lemma RetireLastFillsThreshold(rs: RetiredSet, hazards: Bag, entries: seq<Retired>)
    requires AllHazards(hazards) == {}
    requires |entries| == 1 && |rs.inner| + 1 == THRESHOLD
    ensures RetireAll(rs, hazards, entries) == Collected(RetiredSet([]), rs.inner + entries)
  {
    var e := entries[0];
    RetireFillsThreshold(rs, hazards, e);
    var step := Retire(rs, hazards, e.ptr, e.deleter);
    assert entries[1..] == [];
    assert RetireAll(step.queue, hazards, entries[1..]) == Collected(step.queue, []);
    assert entries == [e];
  }

  /** The threshold test: retiring exactly `THRESHOLD` pointers into a new queue while no
      shield protects anything frees all of them by the time the last `retire` returns. */
  lemma RetireThresholdCollect(hazards: Bag, entries: seq<Retired>)
    requires AllHazards(hazards) == {}
    requires |entries| == THRESHOLD
    ensures RetireAll(NewRetiredSet(), hazards, entries) == Collected(RetiredSet([]), entries)
  {
    RetireUpToThreshold(NewRetiredSet(), hazards, entries);
    assert NewRetiredSet().inner + entries == entries;
  }
}

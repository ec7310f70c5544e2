/** The per-thread retirement queue (`RetiredSet`).

  An entry pairs a retired pointer with the deleter that frees it (`free::<T>` for the
  pointer's type), identified here by a number. The queue validates against the registry it
  was created with; since the registry is a value in this model, `retire` and `collect` take
  its current state. Calling an entry's deleter is recorded in the `freed` list of the
  result, in call order.
*/
module Retirement {
  import opened Hazard

  /** `RetiredSet::THRESHOLD`: a collection runs once this many entries are buffered. */
  const THRESHOLD: nat := 64

  /** Identifies a type-specific deleter. */
  type Deleter = nat

  /** One retired pointer with its deleter. */
  datatype Retired = Retired(ptr: Ptr, deleter: Deleter)

  /** The buffer of retired, not yet freed entries, oldest first. */
  datatype RetiredSet = RetiredSet(inner: seq<Retired>)

  /** A queue after `retire` or `collect`, with the deleter calls made, in order. */
  datatype Collected = Collected(queue: RetiredSet, freed: seq<Retired>)

  /** `a` is `b` with some entries dropped and the rest in their original order. */
  ghost predicate IsSubseq<T>(a: seq<T>, b: seq<T>)
    decreases |b|
  {
    |a| == 0 || (|b| > 0 && ((a[0] == b[0] && IsSubseq(a[1..], b[1..])) || IsSubseq(a, b[1..])))
  }

  lemma SubseqCons<T>(x: T, a: seq<T>, b: seq<T>)
    requires IsSubseq(a, b)
    ensures IsSubseq([x] + a, [x] + b)
  {
    assert ([x] + a)[1..] == a && ([x] + b)[1..] == b;
  }

  lemma SubseqSkip<T>(x: T, a: seq<T>, b: seq<T>)
    requires IsSubseq(a, b)
    ensures IsSubseq(a, [x] + b)
  {
    assert ([x] + b)[1..] == b;
  }

  /** No pointer occurs twice. */
  ghost predicate DistinctPtrs(s: seq<Retired>) {
    forall i, j :: 0 <= i < j < |s| ==> s[i].ptr != s[j].ptr
  }

  /** `RetiredSet::new`: an empty buffer. */
  function NewRetiredSet(): (r: RetiredSet)
    ensures |r.inner| == 0
  {
    RetiredSet([])
  }

  /** The `retain` pass of `collect`: keep, in order, the entries whose pointer is in
      `hazards`, and gather the others, in order, as the ones to free. */
  function Retain(entries: seq<Retired>, hazards: set<Ptr>): (r: (seq<Retired>, seq<Retired>))
    ensures forall x :: x in r.0 ==> x.ptr in hazards
    ensures forall x :: x in r.1 ==> x.ptr !in hazards
    ensures multiset(r.0) + multiset(r.1) == multiset(entries)
    ensures IsSubseq(r.0, entries) && IsSubseq(r.1, entries)
    decreases |entries|
  {
    if |entries| == 0 then ([], [])
    else
      var e, rest := entries[0], entries[1..];
      var (kept, freed) := Retain(rest, hazards);
      assert entries == [e] + rest;
      if e.ptr in hazards then
        SubseqCons(e, kept, rest);
        SubseqSkip(e, freed, rest);
        ([e] + kept, freed)
      else
        SubseqSkip(e, kept, rest);
        SubseqCons(e, freed, rest);
        (kept, [e] + freed)
  }

  /** `RetiredSet::collect`: free every entry whose pointer is not in the registry's
      snapshot; keep the others in their original order. No pointer a slot publishes is freed. */
  function Collect(rs: RetiredSet, hazards: Bag): (r: Collected)
    ensures forall e :: e in r.queue.inner <==> e in rs.inner && e.ptr in AllHazards(hazards)
    ensures forall e :: e in r.freed <==> e in rs.inner && e.ptr !in AllHazards(hazards)
    ensures multiset(r.queue.inner) + multiset(r.freed) == multiset(rs.inner)
    ensures IsSubseq(r.queue.inner, rs.inner) && IsSubseq(r.freed, rs.inner)
    ensures forall i, j :: 0 <= i < |r.freed| && 0 <= j < |hazards.slots| && hazards.slots[j].hazard != NULL ==>
      r.freed[i].ptr != hazards.slots[j].hazard
  {
    var snapshot := AllHazards(hazards);
    var (kept, freed) := Retain(rs.inner, snapshot);
    assert forall e :: e in rs.inner <==> e in multiset(kept) + multiset(freed);
    Collected(RetiredSet(kept), freed)
  }

  /** `RetiredSet::retire`: buffer the entry, and collect once the buffer reaches the
      threshold. Below it nothing is freed; afterwards the buffer is short or fully hazarded. */
  function Retire(rs: RetiredSet, hazards: Bag, p: Ptr, d: Deleter): (r: Collected)
    ensures |rs.inner| + 1 < THRESHOLD ==> r == Collected(RetiredSet(rs.inner + [Retired(p, d)]), [])
    ensures |rs.inner| + 1 >= THRESHOLD ==> r == Collect(RetiredSet(rs.inner + [Retired(p, d)]), hazards)
    ensures |r.queue.inner| < THRESHOLD || forall i :: 0 <= i < |r.queue.inner| ==> r.queue.inner[i].ptr in AllHazards(hazards)
    ensures multiset(r.queue.inner) + multiset(r.freed) == multiset(rs.inner) + multiset{Retired(p, d)}
    ensures forall e :: e in r.freed ==> e.ptr !in AllHazards(hazards)
  {
    var pushed := RetiredSet(rs.inner + [Retired(p, d)]);
    if |pushed.inner| >= THRESHOLD then Collect(pushed, hazards)
    else Collected(pushed, [])
  }

  /** Entries are conserved across two steps that each conserve them. */
  lemma MultisetChain<T>(m0: multiset<T>, x: multiset<T>, m1: multiset<T>,
                         q1: multiset<T>, f1: multiset<T>, q2: multiset<T>, f2: multiset<T>)
    requires q1 + f1 == m0 + x
    requires q2 + f2 == q1 + m1
    ensures q2 + (f1 + f2) == m0 + (x + m1)
  {
    forall y ensures (q2 + (f1 + f2))[y] == (m0 + (x + m1))[y] {
      assert (q1 + f1)[y] == (m0 + x)[y];
      assert (q2 + f2)[y] == (q1 + m1)[y];
    }
  }

  /** Retiring each entry in turn, with the frees of every collection this triggers. */
  function RetireAll(rs: RetiredSet, hazards: Bag, entries: seq<Retired>): (r: Collected)
    ensures multiset(r.queue.inner) + multiset(r.freed) == multiset(rs.inner) + multiset(entries)
    decreases |entries|
  {
    if |entries| == 0 then Collected(rs, [])
    else
      var step := Retire(rs, hazards, entries[0].ptr, entries[0].deleter);
      var rest := RetireAll(step.queue, hazards, entries[1..]);
      assert Retired(entries[0].ptr, entries[0].deleter) == entries[0];
      assert multiset(entries) == multiset{entries[0]} + multiset(entries[1..]) by {
        assert entries == [entries[0]] + entries[1..];
      }
      assert multiset(step.freed + rest.freed) == multiset(step.freed) + multiset(rest.freed);
      MultisetChain(multiset(rs.inner), multiset{entries[0]}, multiset(entries[1..]),
        multiset(step.queue.inner), multiset(step.freed), multiset(rest.queue.inner), multiset(rest.freed));
      Collected(rest.queue, step.freed + rest.freed)
  }
}

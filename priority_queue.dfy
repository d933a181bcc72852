/** The fastest-route search's priority queue: entries ordered by
    (estimated total, time so far, push number), held as a sequence from
    which the least entry is taken. */
module PriorityQueue {

  /** A queued candidate: `f` is `g` plus the heuristic estimate, `g` the
      minutes spent along `path`, `tick` the push number that breaks ties,
      `station` the last station of `path`. */
  datatype Entry = Entry(f: nat, g: nat, tick: nat, station: string, path: seq<string>)

  /** Entry `a` is served before `b`: tuple order on (f, g, tick). */
  predicate Before(a: Entry, b: Entry): (r: bool)
    ensures r ==> a.f <= b.f
    ensures a.f < b.f ==> r
    ensures a.f == b.f && a.g == b.g && a.tick == b.tick ==> !r
  {
    a.f < b.f || (a.f == b.f && (a.g < b.g || (a.g == b.g && a.tick < b.tick)))
  }

  /** No two entries share a push number. */
  predicate DistinctTicks(q: seq<Entry>)
  {
    forall i, j :: 0 <= i < j < |q| ==> q[i].tick != q[j].tick
  }

  /** The stations that still have an entry in the queue. */
  function Pending(q: seq<Entry>): set<string>
  {
    set i | 0 <= i < |q| :: q[i].station
  }

  /** Entries with different push numbers are always ordered one way or the
      other, and never both ways. */
  lemma BeforeTotal(a: Entry, b: Entry)
    requires a.tick != b.tick
    ensures Before(a, b) != Before(b, a)
  {
  }

  /** The order is transitive, so the queue's minimum is well defined. */
  lemma BeforeTransitive(a: Entry, b: Entry, c: Entry)
    requires Before(a, b) && Before(b, c)
    ensures Before(a, c)
  {
  }

  /** The position of the entry served first: no entry comes before it, and
      when push numbers are distinct it comes before every other entry. */
  method MinIndex(q: seq<Entry>) returns (m: nat)
    requires |q| > 0
    ensures m < |q|
    ensures forall j :: 0 <= j < |q| ==> !Before(q[j], q[m])
    ensures DistinctTicks(q) ==> forall j :: 0 <= j < |q| && j != m ==> Before(q[m], q[j])
  {
    m := 0;
    var i := 1;
    while i < |q|
      invariant m < i <= |q|
      invariant forall j :: 0 <= j < i ==> !Before(q[j], q[m])
    {
      if Before(q[i], q[m]) {
        m := i;
      }
      i := i + 1;
    }
  }

  /** The queue without its entry at position m. */
  function Remove(q: seq<Entry>, m: nat): (r: seq<Entry>)
    requires m < |q|
    ensures |r| == |q| - 1
    ensures multiset(r) + multiset{q[m]} == multiset(q)
    ensures Pending(q) <= Pending(r) + {q[m].station}
    ensures forall e :: e in r ==> e in q
  {
    var r := q[..m] + q[m + 1..];
    assert q == q[..m] + [q[m]] + q[m + 1..];
    forall s | s in Pending(q)
      ensures s in Pending(r) + {q[m].station}
    {
      var i :| 0 <= i < |q| && q[i].station == s;
      if i < m {
        assert r[i] == q[i];
      } else if i > m {
        assert r[i - 1] == q[i];
      }
    }
    r
  }

  /** Pushing an entry adds its station to the pending ones. */
  lemma PendingPush(q: seq<Entry>, e: Entry)
    ensures Pending(q + [e]) == Pending(q) + {e.station}
  {
    var q' := q + [e];
    assert q'[|q|] == e;
    forall s | s in Pending(q)
      ensures s in Pending(q')
    {
      var i :| 0 <= i < |q| && q[i].station == s;
      assert q'[i] == q[i];
    }
  }
}

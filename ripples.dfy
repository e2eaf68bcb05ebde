/**
 * The ripple record and the append-and-evict policy of the ripple list, as
 * values: a bounded FIFO that keeps the newest MAX_RIPPLES records in
 * append order.
 */
module Ripples {
  import opened Geometry

  /** Capacity of the ripple list, and the length of the shader's uniform arrays. */
  const MAX_RIPPLES: nat := 50

  /** One ripple: where it was spawned (texture space) and when (seconds since start). */
  datatype RipplePoint = RipplePoint(pos: Vec2, time: real)

  /** The last `min(|s|, n)` elements of `s`, in their original order. */
  function Newest<T>(s: seq<T>, n: nat): (r: seq<T>)
    ensures |r| == if |s| < n then |s| else n
    ensures forall i {:trigger r[i]} :: 0 <= i < |r| ==> r[i] == s[|s| - |r| + i]
  {
    if |s| <= n then s else s[|s| - n..]
  }

  /**
   * One append step: push the record at the back, then, if the list has grown
   * past capacity, drop the front element once.
   */
  function Appended(log: seq<RipplePoint>, e: RipplePoint): (r: seq<RipplePoint>)
    ensures |log| <= MAX_RIPPLES ==> |r| <= MAX_RIPPLES
    ensures |r| > 0 && r[|r| - 1] == e
    ensures |log| < MAX_RIPPLES ==> r == log + [e]
    ensures |log| == MAX_RIPPLES ==> |r| == MAX_RIPPLES && r == log[1..] + [e]
  {
    var grown := log + [e];
    if |grown| > MAX_RIPPLES then grown[1..] else grown
  }

  /**
   * The list after appending every record of `es`, in order, starting from
   * `log`: it stays within capacity, and ends with the last record appended.
   */
  function Replay(log: seq<RipplePoint>, es: seq<RipplePoint>): (r: seq<RipplePoint>)
    ensures |log| <= MAX_RIPPLES ==> |r| <= MAX_RIPPLES
    ensures es != [] ==> r != [] && r[|r| - 1] == es[|es| - 1]
    decreases |es|
  {
    if es == [] then log else Replay(Appended(log, es[0]), es[1..])
  }

  /** On a list within capacity, one append step keeps the newest records of the grown list. */
  lemma AppendedKeepsNewest(log: seq<RipplePoint>, e: RipplePoint)
    requires |log| <= MAX_RIPPLES
    ensures Appended(log, e) == Newest(log + [e], MAX_RIPPLES)
  {
  }

  /** Taking the newest `n` twice, with elements appended in between, is taking them once. */
  lemma {:induction false} NewestOfNewest<T>(s: seq<T>, t: seq<T>, n: nat)
    ensures Newest(Newest(s, n) + t, n) == Newest(s + t, n)
  {
    if n < |s| {
      var k := |s| - n;
      assert Newest(s, n) == s[k..];
      assert s[k..] + t == (s + t)[k..];
      NewestOfSuffix(s + t, k, n);
    }
  }

  /** Dropping a prefix that leaves at least `n` elements does not change the newest `n`. */
  lemma {:induction false} NewestOfSuffix<T>(x: seq<T>, k: nat, n: nat)
    requires k + n <= |x|
    ensures Newest(x[k..], n) == Newest(x, n)
  {
    assert x[k..][|x| - k - n..] == x[|x| - n..];
  }

  /** Replaying appends one after another is replaying their concatenation. */
  lemma {:induction false} ReplayConcat(log: seq<RipplePoint>, a: seq<RipplePoint>, b: seq<RipplePoint>)
    ensures Replay(log, a + b) == Replay(Replay(log, a), b)
    decreases |a|
  {
    if a == [] {
      assert a + b == b;
    } else {
      assert (a + b)[1..] == a[1..] + b;
      ReplayConcat(Appended(log, a[0]), a[1..], b);
    }
  }

  /**
   * Whatever the starting list within capacity, after any sequence of appends
   * the list holds exactly the newest MAX_RIPPLES records of the starting list
   * followed by the appended ones, in append order.
   */
  lemma {:induction false} ReplayKeepsNewest(log: seq<RipplePoint>, es: seq<RipplePoint>)
    requires |log| <= MAX_RIPPLES
    ensures Replay(log, es) == Newest(log + es, MAX_RIPPLES)
    ensures |Replay(log, es)| <= MAX_RIPPLES
    decreases |es|
  {
    if es == [] {
      assert log + es == log;
    } else {
      var e, rest := es[0], es[1..];
      var next := Appended(log, e);
      assert Replay(log, es) == Replay(next, rest);
      assert Replay(next, rest) == Newest(next + rest, MAX_RIPPLES) by {
        ReplayKeepsNewest(next, rest);
      }
      assert next == Newest(log + [e], MAX_RIPPLES) by {
        AppendedKeepsNewest(log, e);
      }
      assert Newest(Newest(log + [e], MAX_RIPPLES) + rest, MAX_RIPPLES) == Newest(log + [e] + rest, MAX_RIPPLES) by {
        NewestOfNewest(log + [e], rest, MAX_RIPPLES);
      }
      SplitFirst(log, es);
    }
  }

  /** Moving the first element of `t` across the concatenation. */
  lemma SplitFirst<T>(s: seq<T>, t: seq<T>)
    requires t != []
    ensures s + [t[0]] + t[1..] == s + t
  {
    assert t == [t[0]] + t[1..];
  }

  /** From the empty list, the result is the last min(N, MAX_RIPPLES) records appended. */
  lemma FromEmpty(es: seq<RipplePoint>)
    ensures Replay([], es) == Newest(es, MAX_RIPPLES)
    ensures |Replay([], es)| == if |es| < MAX_RIPPLES then |es| else MAX_RIPPLES
  {
    ReplayKeepsNewest([], es);
    assert [] + es == es;
  }

  /** Appending MAX_RIPPLES + 1 records to the empty list evicts exactly the first one. */
  lemma OneOverCapacity(es: seq<RipplePoint>)
    requires |es| == MAX_RIPPLES + 1
    ensures Replay([], es) == es[1..]
    ensures |Replay([], es)| == MAX_RIPPLES
  {
    FromEmpty(es);
  }

  /** Records are ordered by spawn time, oldest first. */
  predicate TimeOrdered(log: seq<RipplePoint>) {
    forall i, j :: 0 <= i < j < |log| ==> log[i].time <= log[j].time
  }

  /**
   * When records are appended no earlier than the newest one, the list stays
   * time-ordered; so when an append evicts, the evicted front record is no
   * later than any record the list keeps.
   */
  lemma {:induction false} AppendedKeepsTimeOrder(log: seq<RipplePoint>, e: RipplePoint)
    requires TimeOrdered(log)
    requires log != [] ==> log[|log| - 1].time <= e.time
    ensures TimeOrdered(Appended(log, e))
    ensures |log| == MAX_RIPPLES ==> forall x :: x in Appended(log, e) ==> log[0].time <= x.time
  {
    var grown := log + [e];
    assert TimeOrdered(grown) by {
      forall i, j | 0 <= i < j < |grown|
        ensures grown[i].time <= grown[j].time
      {
        if j == |log| && i < |log| {
          assert log[i].time <= log[|log| - 1].time;
        }
      }
    }
  }

  /**
   * Records appended in time order keep the whole list time-ordered, however
   * many appends and evictions happen.
   */
  lemma {:induction false} ReplayKeepsTimeOrder(log: seq<RipplePoint>, es: seq<RipplePoint>)
    requires |log| <= MAX_RIPPLES
    requires TimeOrdered(log + es)
    ensures TimeOrdered(Replay(log, es))
  {
    ReplayKeepsNewest(log, es);
    NewestKeepsTimeOrder(log + es, MAX_RIPPLES);
  }

  /** The newest records of a time-ordered list are time-ordered. */
  lemma {:induction false} NewestKeepsTimeOrder(all: seq<RipplePoint>, n: nat)
    requires TimeOrdered(all)
    ensures TimeOrdered(Newest(all, n))
  {
    if n < |all| {
      var k := |all| - n;
      var r := all[k..];
      assert Newest(all, n) == r;
      forall i, j | 0 <= i < j < |r|
        ensures r[i].time <= r[j].time
      {
        assert r[i] == all[k + i] && r[j] == all[k + j];
      }
    }
  }
}

/**
  The pts queue both pipelines keep (a std::queue<int64_t>): one timestamp is
  pushed per submitted unit and one popped per completed unit; a pop on an
  empty queue yields 0 instead of failing.
 */
module TimestampRelay {

  /**
    The timestamp handed to one completed unit and the queue left behind:
    the head and the tail, or 0 and the empty queue.
   */
  function Pop(q: seq<int>): (r: (int, seq<int>))
    ensures q == [] ==> r == (0, [])
    ensures q != [] ==> [r.0] + r.1 == q
  {
    if q != [] then (q[0], q[1..]) else (0, [])
  }

  /** `n` zero timestamps. */
  function Zeros(n: nat): (z: seq<int>)
    ensures |z| == n && forall k :: 0 <= k < n ==> z[k] == 0
  {
    if n == 0 then [] else [0] + Zeros(n - 1)
  }

  /** Timestamps handed to `n` completed units in turn, and the queue left behind. */
  function PopMany(q: seq<int>, n: nat): (r: (seq<int>, seq<int>))
    ensures |r.0| == n
  {
    if n == 0 then ([], q) else
      var (ts, q1) := Pop(q);
      var (rest, q2) := PopMany(q1, n - 1);
      ([ts] + rest, q2)
  }

  /**
    FIFO relay: `n` completions receive the queued timestamps in push order,
    then 0 for every completion beyond them; the queue keeps the rest.
   */
  lemma {:induction false} PopManyIsFifo(q: seq<int>, n: nat)
    ensures n <= |q| ==> PopMany(q, n) == (q[..n], q[n..])
    ensures n > |q| ==> PopMany(q, n) == (q + Zeros(n - |q|), [])
  {
    if n > 0 {
      var (ts, q1) := Pop(q);
      PopManyIsFifo(q1, n - 1);
      if q != [] {
        if n <= |q| {
          assert [q[0]] + q[1..][..n - 1] == q[..n];
          assert q[1..][n - 1..] == q[n..];
        } else {
          assert [q[0]] + (q[1..] + Zeros(n - |q|)) == q + Zeros(n - |q|);
        }
      } else {
        assert q1 == [] && q1 + Zeros(n - 1) == Zeros(n - 1);
        assert q + Zeros(n) == Zeros(n) == [0] + Zeros(n - 1);
      }
    }
  }

  /** One more completion after `n`: the next timestamp is the head of what the first `n` left behind. */
  lemma {:induction false} PopManyStep(q: seq<int>, n: nat)
    ensures PopMany(q, n + 1) == (PopMany(q, n).0 + [Pop(PopMany(q, n).1).0], Pop(PopMany(q, n).1).1)
  {
    if n > 0 {
      var (ts, q1) := Pop(q);
      PopManyStep(q1, n - 1);
      var (rest, q2) := PopMany(q1, n - 1);
      assert PopMany(q, n) == ([ts] + rest, q2);
      assert PopMany(q1, n) == (rest + [Pop(q2).0], Pop(q2).1);
      assert PopMany(q, n + 1) == ([ts] + (rest + [Pop(q2).0]), Pop(q2).1);
      assert [ts] + (rest + [Pop(q2).0]) == ([ts] + rest) + [Pop(q2).0];
    } else {
      var (ts, q1) := Pop(q);
      assert PopMany(q, 1) == ([ts] + [], q1);
      assert [ts] + [] == [] + [ts];
    }
  }

  /** Whatever was queued before, pushing `xs` and then completing everything queued hands out `xs` last, in order. */
  lemma PushedThenDrained(q: seq<int>, xs: seq<int>)
    ensures PopMany(q + xs, |q| + |xs|) == (q + xs, [])
  {
    var all := q + xs;
    PopManyIsFifo(all, |all|);
    assert all[..|all|] == all;
  }
}

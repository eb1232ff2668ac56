/** Properties of every run of the limiter: FIFO order, the capacity bound,
    the one-shot close, drain-then-end after close, and the pacing of
    releases. */
module Properties {
  import opened RateLimit
  import opened Trace

  /** One call of a run keeps the FIFO balance: the buffer before it
      followed by the value it stored equals the value it released followed
      by the buffer after it. */
  lemma FifoStep<T>(l: Limiter<T>, c: Call<T>)
    ensures var r := Apply(l, c);
      l.buffer + StoredValues([r.1]) == ReleasedValues([r.1]) + r.0.buffer
  {
  }

  /** FIFO: whatever the interleaving of calls, the values that were stored
      come out in the order they went in. The starting buffer followed by
      the stored values equals the released values followed by what is still
      buffered. */
  lemma {:induction false} Fifo<T>(l: Limiter<T>, calls: seq<Call<T>>)
    ensures var r := Execute(l, calls);
      l.buffer + StoredValues(r.log) == ReleasedValues(r.log) + r.final.buffer
    decreases |calls|
  {
    if calls != [] {
      var l1, e := Apply(l, calls[0]).0, Apply(l, calls[0]).1;
      var rest := Execute(l1, calls[1..]);
      Fifo(l1, calls[1..]);
      FifoStep(l, calls[0]);
      var log := Execute(l, calls).log;
      LogsJoin([e], rest.log);
      BalanceJoin(l.buffer, StoredValues([e]), ReleasedValues([e]), l1.buffer,
        StoredValues(rest.log), ReleasedValues(rest.log), rest.final.buffer);
    }
  }

  /** The stored and released values of a one-event log followed by a log. */
  lemma LogsJoin<T>(a: seq<Event<T>>, b: seq<Event<T>>)
    requires |a| == 1
    ensures StoredValues(a + b) == StoredValues(a) + StoredValues(b)
    ensures ReleasedValues(a + b) == ReleasedValues(a) + ReleasedValues(b)
  {
  }

  /** The first step of a nonempty run: its first event is that of the first
      call, and the rest of the run starts from the state that call left. */
  lemma ExecuteCons<T>(l: Limiter<T>, calls: seq<Call<T>>)
    requires calls != []
    ensures var r := Execute(l, calls); var a := Apply(l, calls[0]);
      var rest := Execute(a.0, calls[1..]);
      && r.final == rest.final
      && r.log == [a.1] + rest.log
      && r.log[0] == a.1
      && (forall i :: 1 <= i < |calls| ==> r.log[i] == rest.log[i - 1])
  {
  }

  /** Two balances chained: what goes in during a first step and a second
      step, after the first buffer, equals what comes out in both steps
      followed by the last buffer. */
  lemma BalanceJoin<T>(b0: seq<T>, in1: seq<T>, out1: seq<T>, b1: seq<T>,
                       in2: seq<T>, out2: seq<T>, b2: seq<T>)
    requires b0 + in1 == out1 + b1
    requires b1 + in2 == out2 + b2
    ensures b0 + (in1 + in2) == (out1 + out2) + b2
  {
    calc {
      b0 + (in1 + in2);
      (b0 + in1) + in2;
      (out1 + b1) + in2;
      out1 + (b1 + in2);
      out1 + (out2 + b2);
    }
  }

  /** Running two lists of calls one after the other is running their
      concatenation: the second starts where the first ended, and the logs
      join up. */
  lemma {:induction false} ExecuteAppend<T>(l: Limiter<T>, a: seq<Call<T>>, b: seq<Call<T>>)
    ensures var ra := Execute(l, a); var rb := Execute(ra.final, b);
      Execute(l, a + b) == Run(rb.final, ra.log + rb.log)
    decreases |a|
  {
    if a == [] {
      assert a + b == b;
    } else {
      var l1 := Apply(l, a[0]).0;
      ExecuteAppend(l1, a[1..], b);
      assert (a + b)[0] == a[0];
      assert (a + b)[1..] == a[1..] + b;
      var ra1 := Execute(l1, a[1..]);
      var rb := Execute(ra1.final, b);
      assert [Apply(l, a[0]).1] + (ra1.log + rb.log) == ([Apply(l, a[0]).1] + ra1.log) + rb.log;
    }
  }

  /** The released values of two joined logs are those of the first log
      followed by those of the second; likewise the release instants. */
  lemma {:induction false} ReleasesAppend<T>(a: seq<Event<T>>, b: seq<Event<T>>)
    ensures ReleasedValues(a + b) == ReleasedValues(a) + ReleasedValues(b)
    ensures ReleaseTimes(a + b) == ReleaseTimes(a) + ReleaseTimes(b)
    decreases |a|
  {
    if a == [] {
      assert a + b == b;
    } else {
      ReleasesAppend(a[1..], b);
      assert (a + b)[0] == a[0];
      assert (a + b)[1..] == a[1..] + b;
      var vs := if a[0].Released? then [a[0].item] else [];
      var ts := if a[0].Released? then [a[0].at] else [];
      calc {
        ReleasedValues(a + b);
        vs + ReleasedValues(a[1..] + b);
        vs + (ReleasedValues(a[1..]) + ReleasedValues(b));
        (vs + ReleasedValues(a[1..])) + ReleasedValues(b);
      }
      calc {
        ReleaseTimes(a + b);
        ts + ReleaseTimes(a[1..] + b);
        ts + (ReleaseTimes(a[1..]) + ReleaseTimes(b));
        (ts + ReleaseTimes(a[1..])) + ReleaseTimes(b);
      }
    }
  }

  /** Push v0..vn-1 into an empty limiter, interleaved with pops in any
      way, and drain it: the pops hand out exactly v0..vn-1 in order. */
  lemma FifoFromEmpty<T>(l: Limiter<T>, calls: seq<Call<T>>)
    requires l.buffer == []
    requires Execute(l, calls).final.buffer == []
    ensures var r := Execute(l, calls); ReleasedValues(r.log) == StoredValues(r.log)
  {
    Fifo(l, calls);
    var r := Execute(l, calls);
    assert [] + StoredValues(r.log) == StoredValues(r.log);
    assert ReleasedValues(r.log) + [] == ReleasedValues(r.log);
  }

  /** The capacity bound: a run from a valid limiter only ever passes through
      valid states, so the buffer never holds more than `capacity` values. */
  lemma {:induction false} CapacityBound<T>(l: Limiter<T>, calls: seq<Call<T>>, k: nat)
    requires Valid(l)
    requires k <= |calls|
    ensures |Execute(l, calls[..k]).final.buffer| <= l.capacity
  {
  }

  /** Pushes with no pop in between: the first `capacity - |buffer|` of them
      store their values at the back, in order; every later one blocks and
      changes nothing. */
  lemma {:induction false} PushWithoutPops<T>(l: Limiter<T>, calls: seq<Call<T>>)
    requires !l.closed
    requires forall i :: 0 <= i < |calls| ==> calls[i].op.PushOp?
    ensures var r := Execute(l, calls);
      && (forall i :: 0 <= i < |calls| ==>
            r.log[i] == if i < l.capacity - |l.buffer| then Stored(calls[i].op.value) else WouldBlock)
      && r.final == l.(buffer := l.buffer + StoredValues(r.log))
    decreases |calls|
  {
    if calls != [] {
      var v := calls[0].op.value;
      var room := |l.buffer| < l.capacity;
      var l1 := if room then l.(buffer := l.buffer + [v]) else l;
      var e := if room then Stored(v) else WouldBlock;
      assert Apply(l, calls[0]) == (l1, e);
      var rest := Execute(l1, calls[1..]);
      PushWithoutPops(l1, calls[1..]);
      ExecuteCons(l, calls);
      var log := Execute(l, calls).log;
      assert log == [e] + rest.log;
      var free, free1 := l.capacity - |l.buffer|, l1.capacity - |l1.buffer|;
      assert free1 == if room then free - 1 else free;
      forall i | 1 <= i < |calls|
        ensures log[i] == if i < free then Stored(calls[i].op.value) else WouldBlock
      {
        assert log[i] == rest.log[i - 1];
        assert calls[i] == calls[1..][i - 1];
        assert (i < free) == (i - 1 < free1);
      }
      LogsJoin([e], rest.log);
      var st := if room then [v] else [];
      assert StoredValues([e]) == st by {
        assert [e][1..] == [];
      }
      assert l1 == l.(buffer := l.buffer + st);
      BufferGrows(l, st, StoredValues(rest.log), rest.final);
    }
  }

  /** Values stored in two steps join the buffer as one run of values. */
  lemma BufferGrows<T>(l: Limiter<T>, st1: seq<T>, st2: seq<T>, f: Limiter<T>)
    requires f == l.(buffer := (l.buffer + st1) + st2)
    ensures f == l.(buffer := l.buffer + (st1 + st2))
  {
  }

  /** A closed limiter stays closed, and no call on it stores a value,
      closes it again or blocks. */
  lemma {:induction false} ClosedStaysClosed<T>(l: Limiter<T>, calls: seq<Call<T>>)
    requires l.closed
    ensures var r := Execute(l, calls);
      && r.final.closed
      && forall i :: 0 <= i < |r.log| ==>
           !r.log[i].Stored? && !r.log[i].ClosedNow? && !r.log[i].WouldBlock?
    decreases |calls|
  {
    if calls != [] {
      var l1, e := Apply(l, calls[0]).0, Apply(l, calls[0]).1;
      var rest := Execute(l1, calls[1..]);
      ClosedStaysClosed(l1, calls[1..]);
      var log := Execute(l, calls).log;
      assert log == [e] + rest.log;
      forall i | 1 <= i < |log|
        ensures !log[i].Stored? && !log[i].ClosedNow? && !log[i].WouldBlock?
      {
        assert log[i] == rest.log[i - 1];
      }
    }
  }

  /** In `log`, nothing after the call that closed the limiter stores a
      value, closes it again or blocks. */
  predicate CloseIsOneShot<T>(log: seq<Event<T>>) {
    forall i, j :: 0 <= i < j < |log| && log[i].ClosedNow? ==>
      !log[j].Stored? && !log[j].ClosedNow? && !log[j].WouldBlock?
  }

  /** Close is one-shot in every run. */
  lemma {:induction false} CloseOneShot<T>(l: Limiter<T>, calls: seq<Call<T>>)
    ensures CloseIsOneShot(Execute(l, calls).log)
    decreases |calls|
  {
    if calls != [] {
      var l1, e := Apply(l, calls[0]).0, Apply(l, calls[0]).1;
      var rest := Execute(l1, calls[1..]);
      CloseOneShot(l1, calls[1..]);
      if e.ClosedNow? {
        ClosedStaysClosed(l1, calls[1..]);
      }
      var log := Execute(l, calls).log;
      assert log == [e] + rest.log;
      forall i, j | 0 <= i < j < |log| && log[i].ClosedNow?
        ensures !log[j].Stored? && !log[j].ClosedNow? && !log[j].WouldBlock?
      {
        assert log[j] == rest.log[j - 1];
        if i > 0 {
          assert log[i] == rest.log[i - 1];
        }
      }
    }
  }

  /** Some call in `log` closed the limiter. */
  predicate ClosesIn<T>(log: seq<Event<T>>) {
    exists i :: 0 <= i < |log| && log[i].ClosedNow?
  }

  /** The limiter ends up closed exactly when it started closed or some call
      in the run closed it. */
  lemma {:induction false} ClosedFlag<T>(l: Limiter<T>, calls: seq<Call<T>>)
    ensures var r := Execute(l, calls);
      r.final.closed <==> l.closed || ClosesIn(r.log)
    decreases |calls|
  {
    if calls != [] {
      var l1, e := Apply(l, calls[0]).0, Apply(l, calls[0]).1;
      var rest := Execute(l1, calls[1..]);
      ClosedFlag(l1, calls[1..]);
      assert rest.final.closed <==> l1.closed || ClosesIn(rest.log);
      var log := Execute(l, calls).log;
      assert log == [e] + rest.log;
      if ClosesIn(rest.log) {
        var i :| 0 <= i < |rest.log| && rest.log[i].ClosedNow?;
        assert log[i + 1] == rest.log[i];
      }
      if ClosesIn(log) {
        var i :| 0 <= i < |log| && log[i].ClosedNow?;
        if i > 0 {
          assert rest.log[i - 1] == log[i];
        }
      }
      if e.ClosedNow? {
        assert log[0].ClosedNow?;
      }
    }
  }

  /** Once closed, the limiter still hands out every buffered value, oldest
      first, one per pop; after that every pop reports the end of values. */
  lemma {:induction false} DrainAfterClose<T>(l: Limiter<T>, calls: seq<Call<T>>)
    requires l.closed
    requires forall i :: 0 <= i < |calls| ==> calls[i].op.PopOp?
    ensures var r := Execute(l, calls);
      && (forall i :: 0 <= i < |calls| && i < |l.buffer| ==>
            r.log[i].Released? && r.log[i].item == l.buffer[i])
      && (forall i :: |l.buffer| <= i < |calls| ==> r.log[i].Exhausted?)
      && r.final.closed
      && r.final.buffer == if |calls| < |l.buffer| then l.buffer[|calls|..] else []
    decreases |calls|
  {
    if calls != [] {
      var l1, e := Apply(l, calls[0]).0, Apply(l, calls[0]).1;
      var rest := Execute(l1, calls[1..]);
      DrainAfterClose(l1, calls[1..]);
      var log := Execute(l, calls).log;
      ExecuteCons(l, calls);
      if l.buffer != [] {
        assert e.Released? && e.item == l.buffer[0];
        assert l1.buffer == l.buffer[1..];
        forall i | 1 <= i < |calls| && i < |l.buffer|
          ensures log[i].Released? && log[i].item == l.buffer[i]
        {
          assert log[i] == rest.log[i - 1];
          assert l.buffer[i] == l1.buffer[i - 1];
        }
        forall i | |l.buffer| <= i < |calls|
          ensures log[i].Exhausted?
        {
          assert log[i] == rest.log[i - 1];
        }
      } else {
        forall i | 1 <= i < |calls|
          ensures log[i].Exhausted?
        {
          assert log[i] == rest.log[i - 1];
        }
      }
    }
  }

  /** A closed and drained limiter is inert: every call observes `ErrClosed`
      or the end of values, and the state never changes again. */
  lemma {:induction false} DrainedIsInert<T>(l: Limiter<T>, calls: seq<Call<T>>)
    requires l.closed && l.buffer == []
    ensures var r := Execute(l, calls);
      r.final == l && forall i :: 0 <= i < |r.log| ==> Inert(r.log[i])
    decreases |calls|
  {
    if calls != [] {
      var rest := Execute(l, calls[1..]);
      DrainedIsInert(l, calls[1..]);
      var log := Execute(l, calls).log;
      forall i | 1 <= i < |log|
        ensures Inert(log[i])
      {
        assert log[i] == rest.log[i - 1];
      }
    }
  }

  /** In `log`, every call after a pop that reported the end of values is
      inert. */
  predicate EndIsFinal<T>(log: seq<Event<T>>) {
    forall i, j :: 0 <= i < j < |log| && log[i].Exhausted? ==> Inert(log[j])
  }

  /** Once a pop has reported the end of values, every later call is inert:
      no later pop hands out a value and no later push stores one. */
  lemma {:induction false} EndOfValuesIsFinal<T>(l: Limiter<T>, calls: seq<Call<T>>)
    ensures EndIsFinal(Execute(l, calls).log)
    decreases |calls|
  {
    if calls != [] {
      var l1, e := Apply(l, calls[0]).0, Apply(l, calls[0]).1;
      var rest := Execute(l1, calls[1..]);
      EndOfValuesIsFinal(l1, calls[1..]);
      if e.Exhausted? {
        DrainedIsInert(l1, calls[1..]);
      }
      var log := Execute(l, calls).log;
      assert log == [e] + rest.log;
      forall i, j | 0 <= i < j < |log| && log[i].Exhausted?
        ensures Inert(log[j])
      {
        assert log[j] == rest.log[j - 1];
        if i > 0 {
          assert log[i] == rest.log[i - 1];
        }
      }
    }
  }

  /** Consecutive instants of `ts` are at least `d` apart. */
  predicate Spaced(ts: seq<int>, d: int) {
    forall k :: 0 <= k < |ts| - 1 ==> ts[k] + d <= ts[k + 1]
  }

  /** Pacing: consecutive releases are at least `d` apart, the first one is
      not before the starting watermark, and the watermark ends `d` after the
      last release (or where it started, when nothing was released). */
  lemma {:induction false} Pacing<T>(l: Limiter<T>, calls: seq<Call<T>>)
    ensures var r := Execute(l, calls); var ts := ReleaseTimes(r.log);
      && Spaced(ts, l.d)
      && (|ts| > 0 ==> l.nextTime <= ts[0] && r.final.nextTime == ts[|ts| - 1] + l.d)
      && (|ts| == 0 ==> r.final.nextTime == l.nextTime)
    decreases |calls|
  {
    if calls != [] {
      var l1, e := Apply(l, calls[0]).0, Apply(l, calls[0]).1;
      var rest := Execute(l1, calls[1..]);
      Pacing(l1, calls[1..]);
      var log := Execute(l, calls).log;
      assert log == [e] + rest.log;
      assert log[1..] == rest.log;
      var ts1 := ReleaseTimes(rest.log);
      assert Spaced(ts1, l.d);
      assert |ts1| > 0 ==> l1.nextTime <= ts1[0] && rest.final.nextTime == ts1[|ts1| - 1] + l.d;
      assert |ts1| == 0 ==> rest.final.nextTime == l1.nextTime;
      if e.Released? {
        assert ReleaseTimes(log) == [e.at] + ts1;
        SpacedCons(e.at, ts1, l.d);
      } else {
        assert ReleaseTimes(log) == ts1;
      }
    }
  }

  /** A release at least `d` before the first of a spaced list keeps it spaced. */
  lemma SpacedCons(t: int, ts: seq<int>, d: int)
    requires Spaced(ts, d)
    requires ts != [] ==> t + d <= ts[0]
    ensures Spaced([t] + ts, d)
  {
  }

  /** Gaps of at least `d` add up over any stretch of a spaced list. */
  lemma {:induction false} GapsAccumulate(ts: seq<int>, d: int, i: int, j: int)
    requires Spaced(ts, d)
    requires 0 <= i <= j < |ts|
    ensures ts[i] + (j - i) * d <= ts[j]
    decreases j - i
  {
    if i < j {
      GapsAccumulate(ts, d, i, j - 1);
      assert (j - i) * d == (j - 1 - i) * d + d;
    }
  }

  /** Throughput: at most one value per `d`. Any `n + 1` releases of a run
      span at least `n * d`. */
  lemma Throughput<T>(l: Limiter<T>, calls: seq<Call<T>>)
    ensures var ts := ReleaseTimes(Execute(l, calls).log);
      forall i, j :: 0 <= i <= j < |ts| ==> ts[i] + (j - i) * l.d <= ts[j]
  {
    Pacing(l, calls);
    var ts := ReleaseTimes(Execute(l, calls).log);
    forall i, j | 0 <= i <= j < |ts|
      ensures ts[i] + (j - i) * l.d <= ts[j]
    {
      GapsAccumulate(ts, l.d, i, j);
    }
  }

  /** With a non-negative interval the watermark never moves backwards. */
  lemma {:induction false} NextTimeMonotone<T>(l: Limiter<T>, calls: seq<Call<T>>)
    requires l.d >= 0
    ensures Execute(l, calls).final.nextTime >= l.nextTime
    decreases |calls|
  {
    if calls != [] {
      var l1, e := Apply(l, calls[0]).0, Apply(l, calls[0]).1;
      NextTimeMonotone(l1, calls[1..]);
    }
  }
}

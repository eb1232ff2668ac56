/** Runs of the limiter: a sequence of calls, each made at some instant,
    applied one after another from a starting state, and the log of what each
    call observed. Concurrent callers in Go are modelled by the order in which
    their calls take effect. */
module Trace {
  import opened Wrappers
  import opened RateLimit

  datatype Op<T> = PushOp(value: T) | PopOp | CloseOp

  /** One call: the operation and the clock reading when it is made. */
  datatype Call<T> = Call(op: Op<T>, now: int)

  /** What one call observed. */
  datatype Event<T> =
    | Stored(value: T)              // Push returned nil
    | PushRefused                   // Push returned ErrClosed
    | Released(item: T, at: int)    // PopOk returned (item, true) at instant `at`
    | Exhausted                     // PopOk returned (nil, false)
    | ClosedNow                     // Close returned nil
    | CloseRefused                  // Close returned ErrClosed
    | WouldBlock                    // the call would block; nothing happened

  datatype Run<T> = Run(final: Limiter<T>, log: seq<Event<T>>)

  /** Events after which the limiter is inert: what every call observes once
      the limiter is closed and drained. */
  predicate Inert<T>(e: Event<T>) {
    e.PushRefused? || e.Exhausted? || e.CloseRefused?
  }

  /** One call applied to state `l`. */
  function Apply<T>(l: Limiter<T>, c: Call<T>): (r: (Limiter<T>, Event<T>))
    ensures Valid(l) ==> Valid(r.0)
    ensures r.0.capacity == l.capacity && r.0.d == l.d
    ensures r.0.closed == (l.closed || r.1.ClosedNow?)
    ensures r.1.ClosedNow? ==> !l.closed
    ensures r.1.Stored? ==> !l.closed && c.op == PushOp(r.1.value) && r.0.buffer == l.buffer + [r.1.value]
    ensures r.1.Released? ==>
      && c.op.PopOp?
      && l.buffer != [] && r.1.item == l.buffer[0] && r.0.buffer == l.buffer[1..]
      && r.1.at >= c.now && r.1.at >= l.nextTime
      && (r.1.at == c.now || r.1.at == l.nextTime)
      && r.0.nextTime == r.1.at + l.d
    ensures !r.1.Released? ==> r.0.nextTime == l.nextTime
    ensures !r.1.Stored? && !r.1.Released? ==> r.0.buffer == l.buffer
    ensures r.1.WouldBlock? ==> r.0 == l && !l.closed
    ensures l.closed && l.buffer == [] ==> r.0 == l && Inert(r.1)
    ensures c.op.PushOp? ==>
      && (r.1.Stored? || r.1.PushRefused? || r.1.WouldBlock?)
      && (r.1.PushRefused? <==> l.closed)
      && (r.1.WouldBlock? <==> !l.closed && |l.buffer| >= l.capacity)
    ensures c.op.PopOp? ==>
      && (r.1.Released? || r.1.Exhausted? || r.1.WouldBlock?)
      && (r.1.Exhausted? <==> l.closed && l.buffer == [])
      && (r.1.WouldBlock? <==> !l.closed && l.buffer == [])
    ensures c.op.CloseOp? ==>
      && (r.1.ClosedNow? || r.1.CloseRefused?)
      && (r.1.ClosedNow? <==> !l.closed)
  {
    match c.op
    case PushOp(v) =>
      (match Push(l, v)
       case Blocked => (l, WouldBlock)
       case Done(next, NoError) => (next, Stored(v))
       case Done(next, ErrClosed) => (next, PushRefused))
    case PopOp =>
      (match PopOk(l, c.now)
       case Blocked => (l, WouldBlock)
       case Done(next, Some(rel)) => (next, Released(rel.item, rel.at))
       case Done(next, None) => (next, Exhausted))
    case CloseOp =>
      var r := Close(l);
      (r.next, if r.result == NoError then ClosedNow else CloseRefused)
  }

  /** The calls applied in order, with one event per call. */
  function Execute<T>(l: Limiter<T>, calls: seq<Call<T>>): (r: Run<T>)
    decreases |calls|
    ensures |r.log| == |calls|
    ensures r.final.capacity == l.capacity && r.final.d == l.d
    ensures Valid(l) ==> Valid(r.final)
    ensures l.closed ==> r.final.closed
  {
    if calls == [] then Run(l, [])
    else
      var (l1, e) := Apply(l, calls[0]);
      var rest := Execute(l1, calls[1..]);
      Run(rest.final, [e] + rest.log)
  }

  /** The values whose push returned nil, in log order. */
  function StoredValues<T>(log: seq<Event<T>>): seq<T> {
    if log == [] then []
    else (if log[0].Stored? then [log[0].value] else []) + StoredValues(log[1..])
  }

  /** The values handed out by pops, in log order. */
  function ReleasedValues<T>(log: seq<Event<T>>): seq<T> {
    if log == [] then []
    else (if log[0].Released? then [log[0].item] else []) + ReleasedValues(log[1..])
  }

  /** The instants at which pops returned a value, in log order. */
  function ReleaseTimes<T>(log: seq<Event<T>>): seq<int> {
    if log == [] then []
    else (if log[0].Released? then [log[0].at] else []) + ReleaseTimes(log[1..])
  }
}

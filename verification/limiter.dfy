/** The rate-limiting queue of package `ratelimit`, as a sequential state
    machine.

    In Go a `Limiter` is a buffered channel (the FIFO buffer, its capacity and
    its closed flag), a mutex and a pacing watermark `nextTime`. Here the
    whole state is one immutable value and every operation is a pure step
    from a state to the next state plus the Go-level result. Time is an
    integer clock in nanoseconds (the unit of Go's `time.Duration`) that the
    caller passes in as `now`; a call that would block in Go returns
    `Blocked` and leaves the state as it was. */
module RateLimit {
  import opened Wrappers

  /** Capacity used by `New`. */
  const DefaultCapacity: int := 1

  /** The two values a `Push` or `Close` can return: `nil` or `ErrClosed`. */
  datatype Err = NoError | ErrClosed

  /** The state behind one `*Limiter`.
      - `buffer`: values pushed but not yet popped, oldest first;
      - `capacity`: the channel's buffer size;
      - `closed`: whether the channel has been closed;
      - `nextTime`: the earliest instant at which the next pop may return;
      - `d`: the minimum gap between two returns of a pop. */
  datatype Limiter<T> = Limiter(
    buffer: seq<T>,
    capacity: int,
    closed: bool,
    nextTime: int,
    d: int)

  /** What the channel guarantees at all times: a buffer of at least one slot
      that never holds more values than it has slots. */
  predicate Valid<T>(l: Limiter<T>) {
    1 <= l.capacity && |l.buffer| <= l.capacity
  }

  /** A value handed out by a pop, together with the instant the pop
      returned it. */
  datatype Release<T> = Release(item: T, at: int)

  /** The outcome of one call: either it would block in Go (no state change),
      or it returns `result` and leaves the limiter in state `next`. */
  datatype Step<T, R> = Blocked | Done(next: Limiter<T>, result: R)

  /** `NewCapacity(d, capacity)` called at instant `now`: an empty, open
      limiter whose first pop is not held back. */
  function NewCapacity<T>(d: int, capacity: int, now: int): (l: Limiter<T>)
    requires capacity >= 1
    ensures Valid(l)
    ensures l.buffer == [] && !l.closed
    ensures l.capacity == capacity && l.d == d
    ensures l.nextTime == now
  {
    Limiter([], capacity, false, now, d)
  }

  /** `New(d)` called at instant `now`: `NewCapacity` with the default
      capacity of one slot. */
  function New<T>(d: int, now: int): (l: Limiter<T>)
    ensures Valid(l)
    ensures l.buffer == [] && !l.closed
    ensures l.capacity == 1 && l.d == d && l.nextTime == now
  {
    NewCapacity(d, DefaultCapacity, now)
  }

  /** `Push(value)`: a send on the channel. A send on a closed channel panics
      and the panic is turned into `ErrClosed`, whatever the buffer holds; a
      send on an open, full channel blocks; otherwise the value joins the back
      of the buffer. */
  function Push<T>(l: Limiter<T>, value: T): (r: Step<T, Err>)
    ensures r.Blocked? <==> !l.closed && |l.buffer| >= l.capacity
    ensures r.Done? ==> (r.result == ErrClosed <==> l.closed)
    ensures r.Done? && r.result == ErrClosed ==> r.next == l
    ensures r.Done? && r.result == NoError ==>
      && r.next.buffer == l.buffer + [value]
      && r.next == l.(buffer := r.next.buffer)
    ensures r.Done? && Valid(l) ==> Valid(r.next)
  {
    if l.closed then Done(l, ErrClosed)
    else if |l.buffer| < l.capacity then Done(l.(buffer := l.buffer + [value]), NoError)
    else Blocked
  }

  /** The pacing gate of `waitAndBumpNextTime`: sleeping for
      `nextTime - now` (no sleep when that is not positive) makes the pop
      return at `release`, and the watermark moves to `release + d`. */
  datatype Gate = Gate(release: int, nextTime: int)

  function WaitAndBumpNextTime(nextTime: int, d: int, now: int): (g: Gate)
    ensures g.release >= now && g.release >= nextTime
    ensures g.release == now || g.release == nextTime
    ensures g.release - now == if nextTime > now then nextTime - now else 0
    ensures g.nextTime - g.release == d
  {
    var release := if nextTime > now then nextTime else now;
    Gate(release, release + d)
  }

  /** `PopOk()` called at instant `now`. A receive takes the head of the
      buffer even after `Close`; only when the buffer is empty does it see
      the closed flag, and then it returns `(nil, false)` at once without
      touching the pacing gate. With an empty buffer on an open limiter it
      blocks. A value that is taken passes the pacing gate before it is
      returned. */
  function PopOk<T>(l: Limiter<T>, now: int): (r: Step<T, Option<Release<T>>>)
    ensures r.Blocked? <==> !l.closed && l.buffer == []
    ensures r.Done? && r.result.None? <==> l.closed && l.buffer == []
    ensures r.Done? && r.result.None? ==> r.next == l
    ensures r.Done? && r.result.Some? ==>
      && l.buffer != []
      && r.result.value.item == l.buffer[0]
      && r.next.buffer == l.buffer[1..]
      && r.result.value.at >= now
      && r.result.value.at >= l.nextTime
      && (r.result.value.at == now || r.result.value.at == l.nextTime)
      && r.next.nextTime == r.result.value.at + l.d
      && r.next == l.(buffer := r.next.buffer, nextTime := r.next.nextTime)
    ensures r.Done? && Valid(l) ==> Valid(r.next)
  {
    if l.buffer != [] then
      var g := WaitAndBumpNextTime(l.nextTime, l.d, now);
      Done(l.(buffer := l.buffer[1..], nextTime := g.nextTime), Some(Release(l.buffer[0], g.release)))
    else if l.closed then
      Done(l, None)
    else
      Blocked
  }

  /** `Pop()`: `PopOk` without its flag. The result is `None` exactly when
      the limiter is closed and drained; a pushed value, whatever it is,
      comes back as `Some`. */
  function Pop<T>(l: Limiter<T>, now: int): (r: Step<T, Option<T>>)
    ensures r.Blocked? <==> PopOk(l, now).Blocked?
    ensures r.Done? ==>
      && r.next == PopOk(l, now).next
      && (r.result.Some? <==> PopOk(l, now).result.Some?)
      && (r.result.Some? ==> r.result.value == PopOk(l, now).result.value.item)
    ensures r.Done? && r.result.None? ==> l.closed && l.buffer == []
  {
    match PopOk(l, now)
    case Blocked => Blocked
    case Done(next, Some(rel)) => Done(next, Some(rel.item))
    case Done(next, None) => Done(next, None)
  }

  /** `Close()`: closing an open channel sets the flag and keeps every
      buffered value; closing it again panics, which becomes `ErrClosed` with
      nothing changed. Close never blocks. */
  function Close<T>(l: Limiter<T>): (r: Step<T, Err>)
    ensures r.Done?
    ensures r.next.closed
    ensures r.result == NoError <==> !l.closed
    ensures r.next == l.(closed := true)
    ensures Valid(l) ==> Valid(r.next)
  {
    if l.closed then Done(l, ErrClosed) else Done(l.(closed := true), NoError)
  }
}

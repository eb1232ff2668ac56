# ratelimit: a paced FIFO queue, modelled in Dafny

The Go package `ratelimit` has one type, `Limiter`. It is a bounded FIFO queue
of values with a one-way "closed" flag and a pacing watermark `nextTime`. A
value that a pop takes from the queue is not handed to the caller before
`nextTime`, and each hand-out ("release") moves `nextTime` to the release
instant plus the interval `d`. Producers call `Push` and consumers call
`Pop`/`PopOk`. `Close` ends production, but values already buffered can still
be popped. So where the doc comments of `Pop` and `PopOk` (ratelimit.go:66,
73-74) speak of a closed limiter, the code means a closed and drained one: the
receive on ratelimit.go:76 still hands out buffered values with `ok` true after
`Close`, and the model follows the code.

In Go the queue is a buffered channel, the pacing gate is a mutex-guarded
`time.Sleep`, and "already closed" is a recovered panic. This model replaces
all of that with a sequential state machine:

- `limiter.dfy` (module `RateLimit`) holds the state `Limiter<T>`: the buffer,
  capacity, closed flag, `nextTime` and `d`. It defines `NewCapacity`, `New`,
  `Push`, `PopOk`, `Pop`, `Close` and the pacing gate `WaitAndBumpNextTime`.
  Each one is a pure step function from a state to the next state plus the
  Go-level result. Time is an integer clock in nanoseconds that the caller
  passes in as `now`. A call that would block in Go returns `Blocked` and
  changes nothing.
- `trace.dfy` (module `Trace`) turns calls into runs. `Apply` performs one
  call and records what it observed as an `Event`. `Execute` performs a
  sequence of calls, which stands for one interleaving of concurrent callers.
- `properties.dfy` (module `Properties`) proves facts about every run: FIFO
  order, the capacity bound, one-shot close, drain-then-end after close,
  pacing, throughput, and the monotone watermark.
- `scenarios.dfy` (module `Scenarios`) replays the package's tests on the
  model, including the end-to-end run with two slots and a 1 s interval.
- `wrappers.dfy` (module `Wrappers`) holds `Option`, which stands in for
  Go's `nil`.

Two points about the range of the model:

- Go accepts capacity 0 (an unbuffered channel); the model requires at
  least 1; see below.
- `nextTime` never decreases only when `d >= 0`; a negative `d` moves it back
  (ratelimit.go:92). The model allows any `d`, and `NextTimeMonotone` assumes
  `d >= 0`. The gap of at least `d` between consecutive releases (`Pacing`)
  holds for every `d`.

## Model

| member | source | states |
|---|---|---|
| RateLimit.NewCapacity | ratelimit.go:37-45 | a new limiter is valid, empty and open, has the requested capacity and interval, and its watermark is the creation instant |
| RateLimit.New | ratelimit.go:32-35 | `New` is a valid, empty, open limiter with one slot (`DefaultCapacity`) |
| RateLimit.Push | ratelimit.go:47-60 | blocks exactly when the limiter is open and full; returns `ErrClosed` exactly when it is closed, whatever the buffer holds, and then changes nothing; otherwise appends the value at the back and changes nothing else; keeps the capacity bound |
| RateLimit.WaitAndBumpNextTime | ratelimit.go:86-93 | the release instant is the later of `now` and the watermark; the sleep is `nextTime - now` when that is positive and zero otherwise; the new watermark is release + `d` |
| RateLimit.PopOk | ratelimit.go:72-84 | blocks exactly when open and empty; returns no value exactly when closed and empty, and then leaves the state untouched, including `nextTime`; otherwise hands out the head, not before `now` or the watermark, at one of the two, removes only the head, and moves the watermark to release + `d` |
| RateLimit.Pop | ratelimit.go:62-70 | same blocking and same next state as `PopOk`, with its value and without the flag; the result is absent only when the limiter is closed and drained |
| RateLimit.Close | ratelimit.go:95-107 | never blocks; the limiter is closed afterwards with its buffer, watermark and capacity intact; returns nil exactly when the limiter was open, and `ErrClosed` otherwise |
| Trace.Apply | ratelimit.go:47-107 | each call yields only its own outcomes: a push is stored, refused exactly when the limiter is closed, or blocked exactly when it is open and full; a pop releases, reports end of values exactly when the limiter is closed and drained, or blocks exactly when it is open and empty; a close succeeds exactly when the limiter was open, and is otherwise refused. What one call observes fixes the state change: a stored value joins the back, a release takes the head and bumps the watermark, the closed flag is set only by a successful close, a blocked call changes nothing, a closed limiter never blocks, and a closed, drained limiter is left unchanged and answers only `ErrClosed` or end of values |
| Trace.Execute | ratelimit.go:17-30 | a run yields one event per call, keeps the capacity and interval, keeps the buffer within capacity, and never reopens a closed limiter |
| Properties.Fifo | ratelimit.go:17-22 | under any interleaving of calls, the starting buffer followed by the stored values equals the released values followed by what is still buffered |
| Properties.FifoFromEmpty | ratelimit.go:20-22 | values pushed into an empty limiter, with any interleaved pops, and then drained, come out exactly as they went in |
| Properties.CapacityBound | ratelimit.go:47-49 | at every point of a run the buffer holds at most `capacity` values |
| Properties.PushWithoutPops | ratelimit.go:47-58 | without pops, the first (capacity minus buffered count) pushes store their values at the back in order, and every later push blocks and stores nothing |
| Properties.ClosedStaysClosed | ratelimit.go:95-107 | a closed limiter stays closed, and no later call stores a value, closes it again or blocks |
| Properties.CloseOneShot | ratelimit.go:95-98 | after the call that closed the limiter, no call stores a value, closes it again or blocks |
| Properties.ClosedFlag | ratelimit.go:99-107 | the limiter ends a run closed if and only if it started closed or some call in the run closed it |
| Properties.DrainAfterClose | ratelimit.go:95-97 | pops on a closed limiter hand out every buffered value, oldest first, then report end of values on every later pop |
| Properties.DrainedIsInert | ratelimit.go:75-79 | a closed, drained limiter never changes again, and every call on it gets `ErrClosed` or end of values |
| Properties.EndOfValuesIsFinal | ratelimit.go:72-79 | once a pop has reported end of values, every later call gets `ErrClosed` or end of values |
| Properties.Pacing | ratelimit.go:86-93 | consecutive releases of a run are at least `d` apart; the first is not before the starting watermark; the watermark ends `d` after the last release |
| Properties.Throughput | ratelimit.go:17-22 | at most one value per `d`: releases `i` and `j` of a run are at least `(j - i) * d` apart |
| Properties.NextTimeMonotone | ratelimit.go:90-92 | when `d >= 0`, a run never moves the watermark backwards |
| Scenarios.NewHasCapacityOne | ratelimit_test.go:8-12 | a fresh `New` limiter stores the first push and blocks the second |
| Scenarios.TenPushesFitCapacityTen | ratelimit_test.go:14-20 | ten pushes into `NewCapacity(d, 10)` are all stored without a pop |
| Scenarios.ClosedRejectsPushAndClose | ratelimit_test.go:22-44 | the first close returns nil; a later push or close returns `ErrClosed` and changes nothing |
| Scenarios.FirstPopNotDelayed | ratelimit.go:38-41 | the first pop on a fresh limiter, made at or after its creation, returns at the instant of the call |
| Scenarios.EndToEnd | ratelimit_test.go:86-119 | two slots and a 1 s interval; a producer pushes 0..3 and closes, and one consumer pops until the end; the consumer gets 0, 1, 2, 3 at 0, 1, 2 and 3 s, then end of values, and the limiter ends closed and drained |

## Left out

- Real concurrency: goroutines, channel wake-ups and `sync.Mutex`. A call that would block returns `Blocked` and changes nothing; the caller repeats it in a later state. A run is one interleaving of calls.
- The race between several consumers. Go takes a value from the channel (ratelimit.go:76) before the pacing gate (ratelimit.go:81), so two consumers may release values in a different order from the order they took them. A sequential model cannot show this; `Fifo` is about the order in which values are taken.
- `time.Now` and `time.Sleep`. The clock reading is the `now` argument. The model assumes the sleep ends exactly at the watermark and that the reading on line 92 equals the release instant. A real oversleep only moves a release, and the next watermark, later. `Pacing` is the gap of at least `d` between the clock readings of line 92; the time from that reading to the caller getting its value (the deferred unlock and the return) is not modelled, so two returns timed by the caller can be closer than `d`.
- The panic and `recover` in `Push` and `Close` (ratelimit.go:53-57, 100-104). These are modelled as a check of the closed flag that returns `ErrClosed`.
- `interface{}` payloads. The model uses a type parameter, and `Option`'s `None` stands for `nil`.
- RateLimit.Pop: in Go, `Push(nil)` is a legal send, and a later `Pop` returns `nil` for it, so Go's `Pop` cannot tell a pushed `nil` from end of values; only `PopOk`'s flag can. The model's `Pop` wraps every pushed value in `Some` and so keeps them apart.
- NewCapacity: requires `capacity >= 1`. A capacity of 0 gives an unbuffered channel, whose send and receive meet only with both sides waiting; a sequential model cannot express that. A negative capacity makes `make` panic.
- 64-bit overflow of `time.Duration` and `time.Time` arithmetic. Instants and durations are unbounded integers.
- Scenarios.EndToEnd: uses one fixed interleaving of the producer's and consumer's calls; each pop is made at the instant the previous one returned, so the 1 s spacing comes from the pacing gate. `Pacing` and `Fifo` cover every interleaving.
- The end-to-end tests with a 1 ns interval (ratelimit_test.go:46-84) have no concrete replay of their own. `FifoFromEmpty`, `DrainAfterClose` and `EndOfValuesIsFinal` state what those tests check, for every interleaving.

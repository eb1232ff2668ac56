/** The scenarios of the package's tests, replayed on the model with a
    sequential interleaving of the producer and consumer calls. */
module Scenarios {
  import opened Wrappers
  import opened RateLimit
  import opened Trace
  import opened Properties

  /** `New` gives one slot: the first push is stored, a second one blocks
      until a pop makes room. */
  lemma NewHasCapacityOne(t0: int, v: int, w: int)
    ensures var l := New<int>(1_000_000_000, t0);
      && Push(l, v) == Done(l.(buffer := [v]), NoError)
      && Push(Push(l, v).next, w).Blocked?
  {
  }

  /** `NewCapacity(d, 10)` accepts ten pushes without any pop. */
  lemma TenPushesFitCapacityTen(t0: int, calls: seq<Call<string>>)
    requires |calls| == 10
    requires forall i :: 0 <= i < 10 ==> calls[i].op == PushOp("0")
    ensures var r := Execute(NewCapacity<string>(1_000_000_000, 10, t0), calls);
      forall i :: 0 <= i < 10 ==> r.log[i] == Stored("0")
  {
    PushWithoutPops(NewCapacity<string>(1_000_000_000, 10, t0), calls);
  }

  /** Push after Close returns `ErrClosed`; Close after Close too. */
  lemma ClosedRejectsPushAndClose(t0: int, v: int)
    ensures var c := Close(New<int>(1, t0));
      && c.result == NoError
      && Push(c.next, v) == Done(c.next, ErrClosed)
      && Close(c.next) == Done(c.next, ErrClosed)
  {
  }

  /** A first pop on a fresh limiter is not held back: it returns at the
      instant of the call. */
  lemma FirstPopNotDelayed<T>(d: int, capacity: int, t0: int, v: T, now: int)
    requires capacity >= 1
    requires now >= t0
    ensures var l := Push(NewCapacity<T>(d, capacity, t0), v).next;
      PopOk(l, now) == Done(l.(buffer := [], nextTime := now + d), Some(Release(v, now)))
  {
  }

  /** The long-interval test with its 1s interval and two slots, as three
      rounds of four calls in the order they take effect. The producer
      pushes 0, 1, 2, 3 and then closes; a push that finds both slots full
      blocks and is made again after the next pop; the one consumer makes
      each pop at the instant its previous pop returned, so every release
      after the first is held back by the pacing gate until the watermark.
      Instants are in nanoseconds, so 1_000_000_000 is 1s. */
  function RoundOne(): seq<Call<int>> {
    [Call(PushOp(0), 0), Call(PushOp(1), 0), Call(PushOp(2), 0), Call(PopOp, 0)]
  }

  function RoundTwo(): seq<Call<int>> {
    [Call(PushOp(2), 0), Call(PushOp(3), 0), Call(PopOp, 0), Call(PushOp(3), 0)]
  }

  function RoundThree(): seq<Call<int>> {
    [Call(CloseOp, 0), Call(PopOp, 1_000_000_000), Call(PopOp, 2_000_000_000), Call(PopOp, 3_000_000_000)]
  }

  /** The limiter before and after each round. */
  function Start(): Limiter<int> {
    NewCapacity(1_000_000_000, 2, 0)
  }

  function AfterRoundOne(): Limiter<int> {
    Start().(buffer := [1], nextTime := 1_000_000_000)
  }

  function AfterRoundTwo(): Limiter<int> {
    Start().(buffer := [2, 3], nextTime := 2_000_000_000)
  }

  function AfterRoundThree(): Limiter<int> {
    Start().(buffer := [], closed := true, nextTime := 4_000_000_000)
  }

  lemma RoundOneRun()
    ensures Execute(Start(), RoundOne()) ==
      Run(AfterRoundOne(), [Stored(0), Stored(1), WouldBlock, Released(0, 0)])
  {
  }

  lemma RoundTwoRun()
    ensures Execute(AfterRoundOne(), RoundTwo()) ==
      Run(AfterRoundTwo(), [Stored(2), WouldBlock, Released(1, 1_000_000_000), Stored(3)])
  {
  }

  lemma RoundThreeRun()
    ensures Execute(AfterRoundTwo(), RoundThree()) ==
      Run(AfterRoundThree(), [ClosedNow, Released(2, 2_000_000_000), Released(3, 3_000_000_000), Exhausted])
  {
  }

  /** The three rounds run back to back. */
  lemma EndToEndRun()
    ensures Execute(Start(), RoundOne() + RoundTwo() + RoundThree()) ==
      Run(AfterRoundThree(),
          [Stored(0), Stored(1), WouldBlock, Released(0, 0)]
          + [Stored(2), WouldBlock, Released(1, 1_000_000_000), Stored(3)]
          + [ClosedNow, Released(2, 2_000_000_000), Released(3, 3_000_000_000), Exhausted])
  {
    RoundOneRun();
    RoundTwoRun();
    RoundThreeRun();
    ExecuteAppend(Start(), RoundOne(), RoundTwo());
    ExecuteAppend(Start(), RoundOne() + RoundTwo(), RoundThree());
  }

  /** The consumer receives 0, 1, 2, 3 in that order, 1s apart, then the end
      of values; the limiter ends closed and drained. */
  lemma EndToEnd()
    ensures var r := Execute(Start(), RoundOne() + RoundTwo() + RoundThree());
      && ReleasedValues(r.log) == [0, 1, 2, 3]
      && ReleaseTimes(r.log) == [0, 1_000_000_000, 2_000_000_000, 3_000_000_000]
      && r.log[|r.log| - 1] == Exhausted
      && r.final.closed && r.final.buffer == []
  {
    EndToEndRun();
    var one := [Stored(0), Stored(1), WouldBlock, Released(0, 0)];
    var two := [Stored(2), WouldBlock, Released(1, 1_000_000_000), Stored(3)];
    var three := [ClosedNow, Released(2, 2_000_000_000), Released(3, 3_000_000_000), Exhausted];
    ReleasesAppend(one, two);
    ReleasesAppend(one + two, three);
    assert ReleasedValues(one) == [0] && ReleaseTimes(one) == [0];
    assert ReleasedValues(two) == [1] && ReleaseTimes(two) == [1_000_000_000];
    assert ReleasedValues(three) == [2, 3] && ReleaseTimes(three) == [2_000_000_000, 3_000_000_000];
  }
}

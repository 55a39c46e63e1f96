/**
 * end_pipe and se_pipe: run a caller-supplied callable for its side effect
 * without changing the data that flows through.
 *
 * The callable is a total function value. Its side effect is what the model
 * observes: every invocation is recorded as a `Call` event (with the value it
 * returned, which the pipe discards), and every value handed to the consumer
 * as an `Emit` event. The order of the events is the order of the effects.
 */
module Pipes {

  /** One observable step of a pipe. */
  datatype Event<T, U> =
    | Call(arg: T, result: U)   // the callable was invoked on `arg` and returned `result`
    | Emit(value: T)            // `value` was handed to the consumer

  /** What a non-generator call produces: its return value and the events it caused. */
  datatype Run<T, U> = Run(value: T, trace: seq<Event<T, U>>)

  /** The arguments of the calls in a trace, in call order. */
  function Calls<T, U>(trace: seq<Event<T, U>>): seq<T>
  {
    if trace == [] then []
    else (if trace[0].Call? then [trace[0].arg] else []) + Calls(trace[1..])
  }

  /** The values handed to the consumer in a trace, in emission order. */
  function Emitted<T, U>(trace: seq<Event<T, U>>): seq<T>
  {
    if trace == [] then []
    else (if trace[0].Emit? then [trace[0].value] else []) + Emitted(trace[1..])
  }

  /** end_pipe(func, item): call `func(item)` once, ignore its result, return `item`. */
  function EndPipe<T, U>(func: T -> U, item: T): (r: Run<T, U>)
    ensures r.value == item
    ensures Calls(r.trace) == [item]
    ensures Emitted(r.trace) == []
  {
    Run(item, [Call(item, func(item))])
  }

  /**
   * se_pipe(func, iterable): for each element in order, call `func` on it and
   * then yield it unchanged. The result is the trace of the whole consumption.
   */
  function SePipe<T, U>(func: T -> U, xs: seq<T>): (trace: seq<Event<T, U>>)
    ensures |trace| == 2 * |xs|
  {
    if xs == [] then []
    else [Call(xs[0], func(xs[0])), Emit(xs[0])] + SePipe(func, xs[1..])
  }

  /** The consumer of se_pipe sees exactly the input, in the same order. */
  lemma {:induction false} SePipeYieldsInput<T, U>(func: T -> U, xs: seq<T>)
    ensures Emitted(SePipe(func, xs)) == xs
  {
    if xs != [] {
      var rest := SePipe(func, xs[1..]);
      var t := [Call(xs[0], func(xs[0])), Emit(xs[0])] + rest;
      assert t[1..] == [Emit(xs[0])] + rest;
      assert ([Emit(xs[0])] + rest)[1..] == rest;
      SePipeYieldsInput(func, xs[1..]);
      assert xs == [xs[0]] + xs[1..];
    }
  }

  /** se_pipe calls `func` exactly once per element, in input order. */
  lemma {:induction false} SePipeCallsEachOnce<T, U>(func: T -> U, xs: seq<T>)
    ensures Calls(SePipe(func, xs)) == xs
  {
    if xs != [] {
      var rest := SePipe(func, xs[1..]);
      var t := [Call(xs[0], func(xs[0])), Emit(xs[0])] + rest;
      assert t[1..] == [Emit(xs[0])] + rest;
      assert ([Emit(xs[0])] + rest)[1..] == rest;
      SePipeCallsEachOnce(func, xs[1..]);
      assert xs == [xs[0]] + xs[1..];
    }
  }

  /**
   * In the trace of a full consumption, the call on the i-th element lies
   * between the yields of elements i-1 and i: it comes right after the
   * previous element was yielded and right before this one is.
   */
  lemma {:induction false} SePipeCallBeforeYield<T, U>(func: T -> U, xs: seq<T>, i: nat)
    requires i < |xs|
    ensures SePipe(func, xs)[2 * i] == Call(xs[i], func(xs[i]))
    ensures SePipe(func, xs)[2 * i + 1] == Emit(xs[i])
  {
    if i > 0 {
      SePipeCallBeforeYield(func, xs[1..], i - 1);
    }
  }
}

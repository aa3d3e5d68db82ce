/** The stack of exit callbacks, against the nested with statements it stands for. */
module ExitStack {
  import opened Wrappers

  /** What a callback does when it is called: return a false or a true value, or
      raise. */
  datatype Reply<E> = ReturnFalse | ReturnTrue | Raise(exc: E)

  /** A callback gets the exception in flight, if any, and the state of the
      program; it answers and leaves a new state. */
  datatype Answer<E, S> = Answer(reply: Reply<E>, state: S)

  type Callback<!E, !S> = (Option<E>, S) -> Answer<E, S>

  /** How a block ends: with an exception in flight or none, in some state. */
  datatype End<E, S> = End(exc: Option<E>, state: S)

  // ----- with statements

  /** The end of a with statement whose body ends in `body`. */
  function WithExit<E, S>(exit: Callback<E, S>, body: End<E, S>): End<E, S> {
    var answer := exit(body.exc, body.state);
    match answer.reply
    case Raise(e) => End(Some(e), answer.state)
    case ReturnTrue => End(None, answer.state)
    case ReturnFalse => End(body.exc, answer.state)
  }

  /** with exits[0]: with exits[1]: ... around a block that ends in `body`. */
  function Nested<E, S>(exits: seq<Callback<E, S>>, body: End<E, S>): End<E, S> {
    if exits == [] then body else WithExit(exits[0], Nested(exits[1..], body))
  }

  /** The with statements may be split at any level. */
  lemma {:induction false} NestedSplit<E, S>(outer: seq<Callback<E, S>>, inner: seq<Callback<E, S>>, body: End<E, S>)
    ensures Nested(outer + inner, body) == Nested(outer, Nested(inner, body))
  {
    if outer == [] {
      assert outer + inner == inner;
    } else {
      assert (outer + inner)[1..] == outer[1..] + inner;
      NestedSplit(outer[1..], inner, body);
    }
  }

  lemma NestedLast<E, S>(exits: seq<Callback<E, S>>, body: End<E, S>)
    requires exits != []
    ensures var last := |exits| - 1; Nested(exits, body) == Nested(exits[..last], WithExit(exits[last], body))
  {
    var last := |exits| - 1;
    assert exits == exits[..last] + [exits[last]];
    NestedSplit(exits[..last], [exits[last]], body);
    assert Nested([exits[last]], body) == WithExit(exits[last], body);
  }

  // ----- the order of the calls

  /** A call: which callback, with which exception, in which state. */
  datatype Call<E, S> = Call(index: nat, exc: Option<E>, state: S)

  /** Callback i is called when the with statements inside its own have ended. */
  function CallOf<E, S>(exits: seq<Callback<E, S>>, body: End<E, S>, i: nat): Call<E, S>
    requires i < |exits|
  {
    var inner := Nested(exits[i + 1..], body);
    Call(i, inner.exc, inner.state)
  }

  /** Every callback once, the last one first. */
  ghost predicate InOrder<E, S>(calls: seq<Call<E, S>>, exits: seq<Callback<E, S>>, body: End<E, S>) {
    |calls| <= |exits| && forall k :: 0 <= k < |calls| ==> calls[k] == CallOf(exits, body, |exits| - 1 - k)
  }

  // ----- the stack

  /** What __exit__ does: return whether it swallows the exception, or raise. */
  datatype Exit<E> = Return(swallow: bool) | Reraise(exc: E)

  /** What the with statement around the stack makes of it. */
  function AfterExit<E>(exit: Exit<E>, received: Option<E>): Option<E> {
    match exit
    case Reraise(e) => Some(e)
    case Return(swallow) => if swallow then None else received
  }

  class Stack<!E, !S> {
    var callbacks: seq<Callback<E, S>>

    constructor ()
      ensures callbacks == []
    {
      callbacks := [];
    }

    method Push(exit: Callback<E, S>)
      modifies this
      ensures callbacks == old(callbacks) + [exit]
    {
      callbacks := callbacks + [exit];
    }

    /** callback: the value the function returns is not passed on. */
    method PushPlain(plain: S -> Answer<E, S>)
      modifies this
      ensures callbacks == old(callbacks) + [Plain(plain)]
    {
      Push(Plain(plain));
    }

    /** enter_context: nothing is pushed when __enter__ raises. */
    method EnterContext(enter: S -> Answer<E, S>, exit: Callback<E, S>, state: S) returns (end: End<E, S>)
      modifies this
      ensures end.state == enter(state).state
      ensures end.exc.Some? <==> enter(state).reply.Raise?
      ensures end.exc.Some? ==> end.exc.value == enter(state).reply.exc
      ensures callbacks == if end.exc.Some? then old(callbacks) else old(callbacks) + [exit]
    {
      var answer := enter(state);
      if answer.reply.Raise? { return End(Some(answer.reply.exc), answer.state); }
      Push(exit);
      return End(None, answer.state);
    }

    method PopAll() returns (taken: Stack<E, S>)
      modifies this
      ensures fresh(taken) && taken.callbacks == old(callbacks) && callbacks == []
    {
      taken := new Stack();
      taken.callbacks := callbacks;
      callbacks := [];
    }

    /** __exit__ ends as the nested with statements do, having made the same calls
        in the same order with the same exceptions. */
    method ExitAll(received: Option<E>, start: S) returns (exit: Exit<E>, state: S, calls: seq<Call<E, S>>)
      modifies this
      ensures callbacks == []
      ensures End(AfterExit(exit, received), state) == Nested(old(callbacks), End(received, start))
      ensures exit == Return(true) ==> received.Some?
      ensures |calls| == |old(callbacks)| && InOrder(calls, old(callbacks), End(received, start))
    {
      var suppressed, pending, exc := false, false, received;
      state, calls := start, [];
      ghost var body := End(received, start);
      while callbacks != []
        invariant |callbacks| <= |old(callbacks)| && callbacks == old(callbacks)[..|callbacks|]
        invariant Nested(old(callbacks)[|callbacks|..], body) == End(exc, state)
        invariant Nested(callbacks, End(exc, state)) == Nested(old(callbacks), body)
        invariant pending ==> exc.Some?
        invariant !pending ==> exc == if suppressed then None else received
        invariant |calls| == |old(callbacks)| - |callbacks| && InOrder(calls, old(callbacks), body)
        decreases |callbacks|
      {
        var last := |callbacks| - 1;
        NestedLast(callbacks, End(exc, state));
        assert old(callbacks)[last..] == [callbacks[last]] + old(callbacks)[last + 1..];
        calls := calls + [Call(last, exc, state)];
        var cb := callbacks[last];
        callbacks := callbacks[..last];
        var answer := cb(exc, state);
        state := answer.state;
        match answer.reply {
          case ReturnFalse =>
          case ReturnTrue => suppressed, pending, exc := true, false, None;
          case Raise(e) => pending, exc := true, Some(e);
        }
      }
      assert old(callbacks)[0..] == old(callbacks);
      if pending { return Reraise(exc.value), state, calls; }
      return Return(received.Some? && suppressed), state, calls;
    }
  }

  // ----- callbacks that cannot suppress

  /** The wrapper that callback() pushes. */
  function Plain<E, S>(plain: S -> Answer<E, S>): Callback<E, S> {
    (exc: Option<E>, state: S) =>
      var answer := plain(state);
      if answer.reply.Raise? then answer else answer.(reply := ReturnFalse)
  }

  function Plains<E, S>(plains: seq<S -> Answer<E, S>>): seq<Callback<E, S>> {
    if plains == [] then [] else [Plain(plains[0])] + Plains(plains[1..])
  }

  lemma PlainExit<E, S>(plain: S -> Answer<E, S>, body: End<E, S>)
    ensures var answer := plain(body.state);
      WithExit(Plain(plain), body) ==
        End(if answer.reply.Raise? then Some(answer.reply.exc) else body.exc, answer.state)
  {}

  /** A stack filled through callback() alone never swallows an exception: it ends
      clean exactly when it started clean and no function raised, and passes on
      the exception it received when none raised. */
  lemma {:induction false} PlainNeverSwallows<E, S>(plains: seq<S -> Answer<E, S>>, body: End<E, S>)
    ensures Nested(Plains(plains), body).exc.None? <==> body.exc.None? && NoneRaises(plains, body.state)
    ensures NoneRaises(plains, body.state) ==> Nested(Plains(plains), body).exc == body.exc
    ensures Nested(Plains(plains), body).state == Unwound(plains, body.state)
  {
    if plains != [] {
      var exits := Plains(plains);
      assert exits[0] == Plain(plains[0]) && exits[1..] == Plains(plains[1..]);
      PlainNeverSwallows(plains[1..], body);
      PlainExit(plains[0], Nested(exits[1..], body));
    }
  }

  /** The state after the plain functions are called, the last one first. */
  function Unwound<E, S>(plains: seq<S -> Answer<E, S>>, state: S): S {
    if plains == [] then state else plains[0](Unwound(plains[1..], state)).state
  }

  predicate NoneRaises<E, S>(plains: seq<S -> Answer<E, S>>, state: S) {
    plains == [] || (NoneRaises(plains[1..], state) && !plains[0](Unwound(plains[1..], state)).reply.Raise?)
  }
}

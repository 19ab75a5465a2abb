/** How hooks are run under the stage's defer counter: a hook never starts suspended, and whatever
    it does to the counter is undone when it returns. */
module HookDefer {

  const INT32_MIN := -0x8000_0000

  type Int32 = x: int | INT32_MIN <= x <= 0x7FFF_FFFF

  /** Negation on 32 bits; the smallest value is its own negation. */
  function Negate(x: Int32): (r: Int32) { if x == INT32_MIN then x else -x }

  function Abs(x: int): (r: int) { if x < 0 then -x else x }

  /** A hook body as far as the counter is concerned: it may set the counter to anything, by
      beginning, ending, suspending or resuming deferral, and it may cause other hooks to run. */
  datatype Step = SetDefer(value: Int32) | Run(hook: Hook)
  datatype Hook = Hook(body: seq<Step>)

  /** A hook body started at counter `start` when its caller's counter was `caller`. */
  datatype Start = Start(caller: Int32, start: Int32)

  function Entered(defer: Int32): (r: Int32) { if defer < 0 then Negate(defer) else defer }

  /** The starts of a hook and of all hooks nested in it, in order. */
  function Starts(hook: Hook, defer: Int32): (r: seq<Start>)
    decreases hook, |hook.body| + 1
  {
    [Start(defer, Entered(defer))] + BodyStarts(hook, |hook.body|, Entered(defer))
  }

  /** The starts within the first `n` steps of a body that begins at counter `defer`. */
  function BodyStarts(hook: Hook, n: nat, defer: Int32): (r: seq<Start>)
    requires n <= |hook.body|
    decreases hook, n
  {
    if n == 0 then []
    else
      BodyStarts(hook, n - 1, defer)
      + match hook.body[n - 1]
        case SetDefer(_) => []
        case Run(nested) => Starts(nested, Counter(hook, n - 1, defer))
  }

  /** The counter after `n` steps of a body: the last value set, since nested hooks put it back. */
  function Counter(hook: Hook, n: nat, defer: Int32): (r: Int32)
    requires n <= |hook.body|
    decreases n
  {
    if n == 0 then defer
    else
      match hook.body[n - 1]
      case SetDefer(value) => value
      case Run(_) => Counter(hook, n - 1, defer)
  }

  /** What one step of a body adds to the starts and does to the counter. */
  lemma BodyStep(hook: Hook, i: nat, defer: Int32, begun: seq<Start>)
    requires i < |hook.body|
    ensures match hook.body[i]
            case SetDefer(value) =>
              Counter(hook, i + 1, defer) == value && BodyStarts(hook, i + 1, defer) == BodyStarts(hook, i, defer)
            case Run(nested) =>
              && Counter(hook, i + 1, defer) == Counter(hook, i, defer)
              && begun + BodyStarts(hook, i + 1, defer)
                 == begun + BodyStarts(hook, i, defer) + Starts(nested, Counter(hook, i, defer))
  {}

  lemma AllSteps(hook: Hook, defer: Int32, starts: seq<Start>)
    ensures starts + [Start(defer, Entered(defer))] + BodyStarts(hook, |hook.body|, Entered(defer))
            == starts + Starts(hook, defer)
  {}

  class Stage {
    var defer: Int32
    ghost var starts: seq<Start>

    constructor (defer: Int32)
      ensures this.defer == defer && starts == []
    {
      this.defer := defer;
      starts := [];
    }

    /** `flecs_invoke_hook` and `flecs_invoke_replace_hook` */
    method InvokeHook(hook: Hook)
      modifies this
      ensures defer == old(defer)
      ensures starts == old(starts) + Starts(hook, old(defer))
      decreases hook
    {
      var saved := defer;
      if defer < 0 {
        defer := Negate(defer);
      }
      starts := starts + [Start(saved, defer)];
      ghost var begun := starts;
      var i := 0;
      while i < |hook.body|
        invariant 0 <= i <= |hook.body|
        invariant defer == Counter(hook, i, Entered(saved))
        invariant starts == begun + BodyStarts(hook, i, Entered(saved))
      {
        BodyStep(hook, i, Entered(saved), begun);
        match hook.body[i] {
          case SetDefer(value) => defer := value;
          case Run(nested) => InvokeHook(nested);
        }
        i := i + 1;
      }
      AllSteps(hook, saved, old(starts));
      defer := saved;
    }
  }

  /** Whether a start is as it should be: not suspended, at the absolute value of the caller's counter. */
  predicate StartsDeferred(s: Start) { 0 <= s.start == Abs(s.caller) }

  /** In every finite tree of nested hooks, whatever the bodies do to the counter, each body starts
      at the absolute value of its caller's counter, never suspended; the one exception is a
      caller's counter of -2^31, which has no 32-bit absolute value. */
  lemma {:induction false} NeverSuspended(hook: Hook, defer: Int32, k: nat)
    requires k < |Starts(hook, defer)|
    ensures StartsDeferred(Starts(hook, defer)[k]) <==> Starts(hook, defer)[k].caller != INT32_MIN
    decreases hook, |hook.body| + 1
  {
    if k > 0 {
      BodyNeverSuspended(hook, |hook.body|, Entered(defer), k - 1);
    }
  }

  lemma {:induction false} BodyNeverSuspended(hook: Hook, n: nat, defer: Int32, k: nat)
    requires n <= |hook.body| && k < |BodyStarts(hook, n, defer)|
    ensures StartsDeferred(BodyStarts(hook, n, defer)[k]) <==> BodyStarts(hook, n, defer)[k].caller != INT32_MIN
    decreases hook, n
  {
    if n > 0 {
      var before := BodyStarts(hook, n - 1, defer);
      if k < |before| {
        BodyNeverSuspended(hook, n - 1, defer, k);
      } else {
        var nested := Starts(hook.body[n - 1].hook, Counter(hook, n - 1, defer));
        assert BodyStarts(hook, n, defer) == before + nested;
        NeverSuspended(hook.body[n - 1].hook, Counter(hook, n - 1, defer), k - |before|);
      }
    }
  }

  /** No body among the first `n` steps, at any depth, sets the counter to -2^31. */
  predicate Bounded(hook: Hook, n: nat)
    requires n <= |hook.body|
    decreases hook, n
  {
    n == 0 ||
    (Bounded(hook, n - 1) &&
     match hook.body[n - 1]
     case SetDefer(value) => value != INT32_MIN
     case Run(nested) => Bounded(nested, |nested.body|))
  }

  /** So where neither the caller nor any body puts the counter at -2^31, no hook of the tree starts
      suspended. */
  lemma {:induction false} BoundedNeverSuspended(hook: Hook, defer: Int32, k: nat)
    requires defer != INT32_MIN && Bounded(hook, |hook.body|) && k < |Starts(hook, defer)|
    ensures StartsDeferred(Starts(hook, defer)[k])
    decreases hook, |hook.body| + 1
  {
    if k > 0 {
      BoundedBody(hook, |hook.body|, Entered(defer), k - 1);
    }
  }

  lemma {:induction false} BoundedBody(hook: Hook, n: nat, defer: Int32, k: nat)
    requires defer != INT32_MIN && n <= |hook.body| && Bounded(hook, n) && k < |BodyStarts(hook, n, defer)|
    ensures StartsDeferred(BodyStarts(hook, n, defer)[k])
    decreases hook, n
  {
    if n > 0 {
      var before := BodyStarts(hook, n - 1, defer);
      if k < |before| {
        BoundedBody(hook, n - 1, defer, k);
      } else {
        BoundedCounter(hook, n - 1, defer);
        assert BodyStarts(hook, n, defer) == before + Starts(hook.body[n - 1].hook, Counter(hook, n - 1, defer));
        BoundedNeverSuspended(hook.body[n - 1].hook, Counter(hook, n - 1, defer), k - |before|);
      }
    }
  }

  lemma {:induction false} BoundedCounter(hook: Hook, n: nat, defer: Int32)
    requires defer != INT32_MIN && n <= |hook.body| && Bounded(hook, n)
    ensures Counter(hook, n, defer) != INT32_MIN
  {
    if n > 0 && hook.body[n - 1].Run? {
      BoundedCounter(hook, n - 1, defer);
    }
  }
}

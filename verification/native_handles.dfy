/**
 * The re-entrancy-detecting mutex of the C++ handles, as a state machine over threads, native
 * callbacks and moves. Every section guarded by a state mutex is one step.
 */
module NativeHandles {
  import opened Prelude

  /** The operation mutex's holder, the recorded owner, and the context its callbacks run in. */
  datatype Handle = Handle(op: Option<nat>, owner: Option<nat>, context: Option<nat>)

  /** What a thread is inside of: an operation on a handle, or a callback scope that an operation opened. */
  datatype Frame = Inside(handle: nat) | Callback(handle: nat, context: nat)

  /**
   * Where a thread is: running, past the check and about to take the operation mutex (blocking,
   * or trying), holding it unrecorded, giving it up, or between the two context updates of a move.
   */
  datatype Pc =
    | Running
    | Checked(handle: nat, trying: bool)
    | Acquired(handle: nat)
    | Leaving(handle: nat)
    | Moving(to: nat, from: nat)

  datatype Thread = Thread(stack: seq<Frame>, pc: Pc)

  datatype State = State(handles: seq<Handle>, threads: seq<Thread>)

  /** `NativeCallbackScope::active_for`. */
  predicate ActiveFor(stack: seq<Frame>, context: Option<nat>) {
    context.Some? && exists i :: 0 <= i < |stack| && stack[i].Callback? && stack[i].context == context.value
  }

  predicate CallbackOn(stack: seq<Frame>, h: nat) {
    exists i :: 0 <= i < |stack| && stack[i].Callback? && stack[i].handle == h
  }

  predicate Quiet(s: State, h: nat) {
    forall t :: 0 <= t < |s.threads| ==> !CallbackOn(s.threads[t].stack, h)
  }

  datatype Step =
    | Begin(t: nat, handle: nat, trying: bool)
    | Acquire(t: nat)
    | Refuse(t: nat)
    | Record(t: nat)
    | Call(t: nat, handle: nat)
    | Return(t: nat)
    | End(t: nat, at: nat)
    | Release(t: nat)
    | MoveIn(t: nat, to: nat, from: nat)
    | MoveOut(t: nat)

  /** The check of `lock` and `try_lock`: a re-entrant call throws. */
  predicate Throws(s: State, t: nat, h: nat)
    requires t < |s.threads| && h < |s.handles|
  {
    s.handles[h].owner == Some(t) || ActiveFor(s.threads[t].stack, s.handles[h].context)
  }

  function Without(stack: seq<Frame>, at: nat): seq<Frame>
    requires at < |stack|
  {
    stack[..at] + stack[at + 1..]
  }

  /**
   * A callback may start on any running thread while some thread is inside the operation and
   * not between the two context updates of a move, whatever else either thread is in. An
   * operation ends after its callbacks have returned; operations on several handles end in
   * any order.
   */
  predicate Enabled(s: State, step: Step) {
    && step.t < |s.threads|
    && var thread := s.threads[step.t];
       match step {
         case Begin(_, h, _) => h < |s.handles| && thread.pc.Running?
         case Acquire(_) => thread.pc.Checked? && thread.pc.handle < |s.handles| && s.handles[thread.pc.handle].op.None?
         case Refuse(_) => thread.pc.Checked? && thread.pc.trying && thread.pc.handle < |s.handles| && s.handles[thread.pc.handle].op.Some?
         case Record(_) => thread.pc.Acquired? && thread.pc.handle < |s.handles|
         case Call(_, h) =>
           && h < |s.handles| && s.handles[h].context.Some? && s.handles[h].owner.Some?
           && var owner := s.handles[h].owner.value;
              owner < |s.threads| && !s.threads[owner].pc.Moving? && thread.pc.Running?
         case Return(_) => thread.pc.Running? && thread.stack != [] && thread.stack[|thread.stack| - 1].Callback?
         case End(_, at) =>
           && thread.pc.Running? && at < |thread.stack| && thread.stack[at].Inside?
           && thread.stack[at].handle < |s.handles| && Quiet(s, thread.stack[at].handle)
         case Release(_) => thread.pc.Leaving? && thread.pc.handle < |s.handles|
         case MoveIn(_, to, from) =>
           && to < |s.handles| && from < |s.handles| && to != from && thread.pc.Running?
           && Inside(to) in thread.stack && Inside(from) in thread.stack && Quiet(s, to) && Quiet(s, from)
         case MoveOut(_) => thread.pc.Moving? && thread.pc.to < |s.handles| && thread.pc.from < |s.handles|
       }
  }

  function WithThread(s: State, t: nat, thread: Thread): State
    requires t < |s.threads|
  {
    s.(threads := s.threads[t := thread])
  }

  function WithHandle(s: State, h: nat, handle: Handle): State
    requires h < |s.handles|
  {
    s.(handles := s.handles[h := handle])
  }

  function Apply(s: State, step: Step): State
    requires Enabled(s, step)
  {
    var t := step.t;
    var thread := s.threads[t];
    var (stack, pc) := (thread.stack, thread.pc);
    match step
    case Begin(_, h, trying) => if Throws(s, t, h) then s else WithThread(s, t, Thread(stack, Checked(h, trying)))
    case Acquire(_) => WithThread(WithHandle(s, pc.handle, s.handles[pc.handle].(op := Some(t))), t, Thread(stack, Acquired(pc.handle)))
    case Refuse(_) => WithThread(s, t, Thread(stack, Running))
    case Record(_) =>
      WithThread(WithHandle(s, pc.handle, s.handles[pc.handle].(owner := Some(t))), t, Thread(stack + [Inside(pc.handle)], Running))
    case Call(_, h) => WithThread(s, t, Thread(stack + [Callback(h, s.handles[h].context.value)], Running))
    case Return(_) => WithThread(s, t, Thread(stack[..|stack| - 1], Running))
    case End(_, at) =>
      var h := stack[at].handle;
      WithThread(WithHandle(s, h, s.handles[h].(owner := None)), t, Thread(Without(stack, at), Leaving(h)))
    case Release(_) => WithThread(WithHandle(s, pc.handle, s.handles[pc.handle].(op := None)), t, Thread(stack, Running))
    case MoveIn(_, to, from) =>
      WithThread(WithHandle(s, to, s.handles[to].(context := s.handles[from].context)), t, Thread(stack, Moving(to, from)))
    case MoveOut(_) => WithThread(WithHandle(s, pc.from, s.handles[pc.from].(context := None)), t, Thread(stack, Running))
  }

  /** Nothing held, nobody inside anything, and every handle with its own context. */
  predicate Init(s: State) {
    && (forall h :: 0 <= h < |s.handles| ==> s.handles[h].op.None? && s.handles[h].owner.None?)
    && (forall t :: 0 <= t < |s.threads| ==> s.threads[t] == Thread([], Running))
    && (forall g, h :: 0 <= g < h < |s.handles| && s.handles[g].context.Some? ==> s.handles[g].context != s.handles[h].context)
  }

  ghost predicate Next(s: State, s': State) {
    exists step :: Enabled(s, step) && s' == Apply(s, step)
  }

  ghost predicate IsRun(run: seq<State>) {
    && run != [] && Init(run[0])
    && forall k :: 0 < k < |run| ==> Next(run[k - 1], run[k])
  }

  // ---------------------------------------------------------------------------------------
  // The invariant.

  predicate FrameOk(s: State, t: nat, frame: Frame) {
    && frame.handle < |s.handles|
    && var handle := s.handles[frame.handle];
       match frame {
         case Inside(_) => handle.op == handle.owner == Some(t)
         case Callback(_, context) => handle.context == Some(context) && handle.owner.Some?
       }
  }

  predicate PcOk(s: State, t: nat, thread: Thread) {
    match thread.pc
    case Running => true
    case Checked(h, _) => h < |s.handles| && s.handles[h].op != Some(t) && !ActiveFor(thread.stack, s.handles[h].context)
    case Acquired(h) => h < |s.handles| && s.handles[h].op == Some(t) && s.handles[h].owner.None?
    case Leaving(h) => h < |s.handles| && s.handles[h].op == Some(t) && s.handles[h].owner.None?
    case Moving(to, from) =>
      && to < |s.handles| && from < |s.handles| && to != from && s.handles[to].owner == s.handles[from].owner == Some(t)
      && s.handles[to].context == s.handles[from].context && Quiet(s, to) && Quiet(s, from)
  }

  predicate ThreadOk(s: State, t: nat)
    requires t < |s.threads|
  {
    && PcOk(s, t, s.threads[t])
    && (forall i :: 0 <= i < |s.threads[t].stack| ==> FrameOk(s, t, s.threads[t].stack[i]))
    && (forall i, j :: 0 <= i < j < |s.threads[t].stack| && s.threads[t].stack[i].Inside? ==> s.threads[t].stack[i] != s.threads[t].stack[j])
  }

  predicate Holds(thread: Thread, h: nat) {
    thread.pc == Acquired(h) || thread.pc == Leaving(h) || Inside(h) in thread.stack
  }

  predicate HandleOk(s: State, h: nat)
    requires h < |s.handles|
  {
    && (s.handles[h].op.Some? ==> s.handles[h].op.value < |s.threads| && Holds(s.threads[s.handles[h].op.value], h))
    && (s.handles[h].owner.Some? ==>
          s.handles[h].owner == s.handles[h].op && s.handles[h].owner.value < |s.threads|
          && Inside(h) in s.threads[s.handles[h].owner.value].stack)
  }

  /** Two handles share a context only while a thread moves it from one to the other. */
  predicate MovedBetween(s: State, g: nat, h: nat) {
    exists t :: 0 <= t < |s.threads| && (s.threads[t].pc == Moving(g, h) || s.threads[t].pc == Moving(h, g))
  }

  predicate Separate(s: State) {
    forall g, h :: 0 <= g < h < |s.handles| && s.handles[g].context.Some? && s.handles[g].context == s.handles[h].context ==>
      MovedBetween(s, g, h)
  }

  predicate Inv(s: State) {
    && (forall t :: 0 <= t < |s.threads| ==> ThreadOk(s, t))
    && (forall h :: 0 <= h < |s.handles| ==> HandleOk(s, h))
    && Separate(s)
  }

  lemma InitInv(s: State)
    requires Init(s)
    ensures Inv(s)
  {
  }

  /** A step that leaves every handle and every stack alone, and starts or ends no move. */
  lemma PcStepKeepsInv(s: State, t: nat, pc: Pc)
    requires Inv(s) && t < |s.threads|
    requires s.threads[t].pc.Running? || s.threads[t].pc.Checked?
    requires pc.Running? || pc.Checked?
    requires PcOk(s, t, Thread(s.threads[t].stack, pc))
    ensures Inv(WithThread(s, t, Thread(s.threads[t].stack, pc)))
  {
    var s' := WithThread(s, t, Thread(s.threads[t].stack, pc));
    SameStacks(s, s');
    forall u | 0 <= u < |s.threads|
      ensures ThreadOk(s', u)
    {
      assert ThreadOk(s, u);
    }
    forall h | 0 <= h < |s.handles|
      ensures HandleOk(s', h)
    {
      assert HandleOk(s, h);
    }
    SeparateKept(s, s', t);
  }

  lemma SameStacks(s: State, s': State)
    requires |s.threads| == |s'.threads| && forall t :: 0 <= t < |s.threads| ==> s.threads[t].stack == s'.threads[t].stack
    ensures forall h :: Quiet(s, h) <==> Quiet(s', h)
  {
    forall h
      ensures Quiet(s, h) <==> Quiet(s', h)
    {
      assert forall t :: 0 <= t < |s.threads| ==> (CallbackOn(s.threads[t].stack, h) <==> CallbackOn(s'.threads[t].stack, h));
    }
  }

  /** Contexts unchanged, and no move begun or ended. */
  lemma SeparateKept(s: State, s': State, t: nat)
    requires Separate(s) && |s.threads| == |s'.threads| && |s.handles| == |s'.handles| && t < |s.threads|
    requires forall h :: 0 <= h < |s.handles| ==> s.handles[h].context == s'.handles[h].context
    requires forall u :: 0 <= u < |s.threads| && u != t ==> s'.threads[u] == s.threads[u]
    requires !s.threads[t].pc.Moving?
    ensures Separate(s')
  {
    forall g, h | 0 <= g < h < |s'.handles| && s'.handles[g].context.Some? && s'.handles[g].context == s'.handles[h].context
      ensures MovedBetween(s', g, h)
    {
      assert MovedBetween(s, g, h);
      var u :| 0 <= u < |s.threads| && (s.threads[u].pc == Moving(g, h) || s.threads[u].pc == Moving(h, g));
      assert s'.threads[u] == s.threads[u];
    }
  }

  lemma AcquireKeepsInv(s: State, t: nat)
    requires Inv(s) && Enabled(s, Acquire(t))
    ensures Inv(Apply(s, Acquire(t)))
  {
    var s' := Apply(s, Acquire(t));
    assert ThreadOk(s, t);
    assert HandleOk(s, s.threads[t].pc.handle);
    SameStacks(s, s');
    forall u | 0 <= u < |s.threads|
      ensures ThreadOk(s', u)
    {
      assert ThreadOk(s, u);
    }
    forall h | 0 <= h < |s.handles|
      ensures HandleOk(s', h)
    {
      assert HandleOk(s, h);
    }
    SeparateKept(s, s', t);
  }

  lemma CallbackOnPush(stack: seq<Frame>, frame: Frame, h: nat)
    ensures CallbackOn(stack + [frame], h) <==> CallbackOn(stack, h) || (frame.Callback? && frame.handle == h)
  {
    var pushed := stack + [frame];
    assert pushed[|stack|] == frame && forall i :: 0 <= i < |stack| ==> pushed[i] == stack[i];
  }

  /** Removing a frame leaves the others in order. */
  lemma WithoutKeeps(stack: seq<Frame>, at: nat)
    requires at < |stack|
    ensures |Without(stack, at)| == |stack| - 1
    ensures forall i :: 0 <= i < |stack| - 1 ==> Without(stack, at)[i] == stack[if i < at then i else i + 1]
    ensures forall frame :: frame in stack && frame != stack[at] ==> frame in Without(stack, at)
    ensures forall h :: CallbackOn(Without(stack, at), h) ==> CallbackOn(stack, h)
  {
    var rest := Without(stack, at);
    forall frame | frame in stack && frame != stack[at]
      ensures frame in rest
    {
      var i :| 0 <= i < |stack| && stack[i] == frame;
      assert rest[if i < at then i else i - 1] == frame;
    }
  }

  /** Quietness only depends on the callback frames. */
  lemma QuietKept(s: State, s': State, t: nat, h: nat)
    requires |s.threads| == |s'.threads| && t < |s.threads| && Quiet(s, h)
    requires forall u :: 0 <= u < |s.threads| && u != t ==> s'.threads[u] == s.threads[u]
    requires CallbackOn(s'.threads[t].stack, h) ==> CallbackOn(s.threads[t].stack, h)
    ensures Quiet(s', h)
  {
  }

  predicate ThreadsOk(s: State) {
    forall t :: 0 <= t < |s.threads| ==> ThreadOk(s, t)
  }

  predicate HandlesOk(s: State) {
    forall h :: 0 <= h < |s.handles| ==> HandleOk(s, h)
  }

  /** Another thread is unaffected when its handles' records are, and no callback starts on a handle it moves. */
  lemma OtherThreadOk(s: State, s': State, t: nat, u: nat)
    requires u < |s.threads| && ThreadOk(s, u) && |s.threads| == |s'.threads| && |s.handles| == |s'.handles| && t < |s.threads| && u != t
    requires forall v :: 0 <= v < |s.threads| && v != t ==> s'.threads[v] == s.threads[v]
    requires forall h :: 0 <= h < |s.handles| ==> SameFor(s.handles[h], s'.handles[h], u)
    requires s.threads[u].pc.Moving? ==>
               && (CallbackOn(s'.threads[t].stack, s.threads[u].pc.to) ==> CallbackOn(s.threads[t].stack, s.threads[u].pc.to))
               && (CallbackOn(s'.threads[t].stack, s.threads[u].pc.from) ==> CallbackOn(s.threads[t].stack, s.threads[u].pc.from))
    requires forall i :: 0 <= i < |s.threads[u].stack| && s.threads[u].stack[i].Callback? && s.threads[u].stack[i].handle < |s.handles| ==>
               s'.handles[s.threads[u].stack[i].handle].owner.Some?
    ensures ThreadOk(s', u)
  {
    if s.threads[u].pc.Moving? {
      QuietKept(s, s', t, s.threads[u].pc.to);
      QuietKept(s, s', t, s.threads[u].pc.from);
    }
  }

  /** The handle's records say the same about thread u. */
  predicate SameFor(handle: Handle, handle': Handle, u: nat) {
    && handle'.context == handle.context
    && (handle'.op == Some(u) <==> handle.op == Some(u)) && (handle'.owner == Some(u) <==> handle.owner == Some(u))
    && (handle.op == Some(u) && handle.owner.None? ==> handle'.owner.None?)
  }

  lemma HandlesKept(s: State, s': State, t: nat, h: nat)
    requires HandlesOk(s) && |s.threads| == |s'.threads| && |s.handles| == |s'.handles| && t < |s.threads| && h < |s.handles|
    requires forall u :: 0 <= u < |s.threads| && u != t ==> s'.threads[u] == s.threads[u]
    requires forall g :: 0 <= g < |s.handles| && g != h ==> s'.handles[g].op == s.handles[g].op && s'.handles[g].owner == s.handles[g].owner
    requires forall g :: 0 <= g < |s.handles| && g != h && Holds(s.threads[t], g) ==> Holds(s'.threads[t], g)
    requires forall g :: 0 <= g < |s.handles| && g != h && Inside(g) in s.threads[t].stack ==> Inside(g) in s'.threads[t].stack
    requires HandleOk(s', h)
    ensures HandlesOk(s')
  {
    forall g | 0 <= g < |s.handles|
      ensures HandleOk(s', g)
    {
      assert HandleOk(s, g);
    }
  }

  lemma RecordKeepsInv(s: State, t: nat)
    requires Inv(s) && Enabled(s, Record(t))
    ensures Inv(Apply(s, Record(t)))
  {
    var s', h, stack := Apply(s, Record(t)), s.threads[t].pc.handle, s.threads[t].stack;
    assert ThreadOk(s, t);
    forall u | 0 <= u < |s.threads|
      ensures ThreadOk(s', u)
    {
      if u != t {
        assert ThreadOk(s, u);
        forall g
          ensures CallbackOn(stack + [Inside(h)], g) ==> CallbackOn(stack, g)
        {
          CallbackOnPush(stack, Inside(h), g);
        }
        OtherThreadOk(s, s', t, u);
      }
    }
    assert Inside(h) in s'.threads[t].stack;
    assert forall g :: Inside(g) in stack ==> Inside(g) in stack + [Inside(h)];
    HandlesKept(s, s', t, h);
    SeparateKept(s, s', t);
  }

  lemma CallKeepsInv(s: State, t: nat, h: nat)
    requires Inv(s) && Enabled(s, Call(t, h))
    ensures Inv(Apply(s, Call(t, h)))
  {
    var s', stack := Apply(s, Call(t, h)), s.threads[t].stack;
    var frame := Callback(h, s.handles[h].context.value);
    assert ThreadOk(s, t);
    forall u | 0 <= u < |s.threads|
      ensures ThreadOk(s', u)
    {
      if u != t {
        assert ThreadOk(s, u);
        forall g
          ensures CallbackOn(stack + [frame], g) ==> CallbackOn(stack, g) || g == h
        {
          CallbackOnPush(stack, frame, g);
        }
        OtherThreadOk(s, s', t, u);
      }
    }
    assert forall g :: Inside(g) in stack ==> Inside(g) in stack + [frame];
    assert HandleOk(s, h);
    HandlesKept(s, s', t, h);
    SeparateKept(s, s', t);
  }

  lemma ReturnKeepsInv(s: State, t: nat)
    requires Inv(s) && Enabled(s, Return(t))
    ensures Inv(Apply(s, Return(t)))
  {
    var s', stack := Apply(s, Return(t)), s.threads[t].stack;
    var last := |stack| - 1;
    assert stack[..last] == Without(stack, last);
    WithoutKeeps(stack, last);
    assert ThreadOk(s, t);
    forall u | 0 <= u < |s.threads|
      ensures ThreadOk(s', u)
    {
      if u != t {
        assert ThreadOk(s, u);
        OtherThreadOk(s, s', t, u);
      }
    }
    assert HandleOk(s, stack[last].handle);
    HandlesKept(s, s', t, stack[last].handle);
    SeparateKept(s, s', t);
  }

  /** The thread that ends an operation is left with its other frames. */
  lemma EnderOk(s: State, t: nat, at: nat)
    requires Inv(s) && Enabled(s, End(t, at))
    ensures ThreadOk(Apply(s, End(t, at)), t)
  {
    var s', stack := Apply(s, End(t, at)), s.threads[t].stack;
    var (rest, h) := (Without(stack, at), stack[at].handle);
    WithoutKeeps(stack, at);
    assert ThreadOk(s, t) && FrameOk(s, t, stack[at]) && !CallbackOn(stack, h);
    forall i | 0 <= i < |rest|
      ensures FrameOk(s', t, rest[i])
    {
      var j := if i < at then i else i + 1;
      assert rest[i] == stack[j] && FrameOk(s, t, stack[j]);
      assert stack[j].handle != h;
    }
  }

  lemma EndKeepsInv(s: State, t: nat, at: nat)
    requires Inv(s) && Enabled(s, End(t, at))
    ensures Inv(Apply(s, End(t, at)))
  {
    var s', stack := Apply(s, End(t, at)), s.threads[t].stack;
    var h := stack[at].handle;
    WithoutKeeps(stack, at);
    assert ThreadOk(s, t) && FrameOk(s, t, stack[at]);
    forall u | 0 <= u < |s.threads|
      ensures ThreadOk(s', u)
    {
      assert ThreadOk(s, u) && !CallbackOn(s.threads[u].stack, h);
      if u != t {
        OtherThreadOk(s, s', t, u);
      } else {
        EnderOk(s, t, at);
      }
    }
    HandlesKept(s, s', t, h);
    SeparateKept(s, s', t);
  }

  lemma ReleaseKeepsInv(s: State, t: nat)
    requires Inv(s) && Enabled(s, Release(t))
    ensures Inv(Apply(s, Release(t)))
  {
    var s', h := Apply(s, Release(t)), s.threads[t].pc.handle;
    assert ThreadOk(s, t);
    SameStacks(s, s');
    forall u | 0 <= u < |s.threads|
      ensures ThreadOk(s', u)
    {
      assert ThreadOk(s, u);
      if u != t {
        OtherThreadOk(s, s', t, u);
      }
    }
    HandlesKept(s, s', t, h);
    SeparateKept(s, s', t);
  }

  /** Whoever moves a context between two handles owns both, and no callback runs on either. */
  lemma MoverOf(s: State, g: nat, h: nat) returns (mover: nat)
    requires Inv(s) && g < |s.handles| && h < |s.handles| && g != h
    requires s.handles[g].context.Some? && s.handles[g].context == s.handles[h].context
    ensures mover < |s.threads| && s.threads[mover].pc.Moving?
    ensures s.handles[g].owner == s.handles[h].owner == Some(mover) && Quiet(s, g) && Quiet(s, h)
  {
    assert MovedBetween(s, Min(g, h), Max(g, h));
    mover :| 0 <= mover < |s.threads| && (s.threads[mover].pc == Moving(g, h) || s.threads[mover].pc == Moving(h, g));
    assert ThreadOk(s, mover);
  }

  /** No thread stands in a callback of a context that a quiet handle holds. */
  lemma QuietContext(s: State, u: nat, from: nat)
    requires Inv(s) && u < |s.threads| && from < |s.handles| && Quiet(s, from)
    ensures !ActiveFor(s.threads[u].stack, s.handles[from].context)
  {
    var stack := s.threads[u].stack;
    if ActiveFor(stack, s.handles[from].context) {
      var i :| 0 <= i < |stack| && stack[i].Callback? && stack[i].context == s.handles[from].context.value;
      assert ThreadOk(s, u) && FrameOk(s, u, stack[i]);
      var h := stack[i].handle;
      assert CallbackOn(stack, h);
      assert h != from;
      var mover := MoverOf(s, h, from);
    }
  }

  lemma MoveInKeepsThreads(s: State, t: nat, to: nat, from: nat)
    requires Inv(s) && Enabled(s, MoveIn(t, to, from))
    ensures ThreadsOk(Apply(s, MoveIn(t, to, from)))
  {
    var s' := Apply(s, MoveIn(t, to, from));
    SameStacks(s, s');
    assert ThreadOk(s, t);
    forall u | 0 <= u < |s.threads|
      ensures ThreadOk(s', u)
    {
      assert ThreadOk(s, u) && !CallbackOn(s.threads[u].stack, to);
      QuietContext(s, u, from);
    }
  }

  /** The thread that moves a context is the only one that can be moving it. */
  lemma OnlyMover(s: State, t: nat, from: nat, g: nat)
    requires Inv(s) && t < |s.threads| && s.threads[t].pc.Running? && Inside(from) in s.threads[t].stack && from < |s.handles|
    requires g < |s.handles| && g != from && s.handles[from].context.Some?
    ensures s.handles[g].context != s.handles[from].context
  {
    assert ThreadOk(s, t);
    if s.handles[g].context == s.handles[from].context {
      var mover := MoverOf(s, g, from);
    }
  }

  lemma MoveInKeepsInv(s: State, t: nat, to: nat, from: nat)
    requires Inv(s) && Enabled(s, MoveIn(t, to, from))
    ensures Inv(Apply(s, MoveIn(t, to, from)))
  {
    var s' := Apply(s, MoveIn(t, to, from));
    MoveInKeepsThreads(s, t, to, from);
    assert HandleOk(s, to);
    HandlesKept(s, s', t, to);
    forall g, h | 0 <= g < h < |s'.handles| && s'.handles[g].context.Some? && s'.handles[g].context == s'.handles[h].context
      ensures MovedBetween(s', g, h)
    {
      if g == to || h == to {
        var other := if g == to then h else g;
        if other != from {
          OnlyMover(s, t, from, other);
        }
        assert s'.threads[t].pc == Moving(to, from);
      } else {
        assert MovedBetween(s, g, h);
        var v :| 0 <= v < |s.threads| && (s.threads[v].pc == Moving(g, h) || s.threads[v].pc == Moving(h, g));
        assert s'.threads[v] == s.threads[v];
      }
    }
  }

  lemma MoveOutKeepsInv(s: State, t: nat)
    requires Inv(s) && Enabled(s, MoveOut(t))
    ensures Inv(Apply(s, MoveOut(t)))
  {
    var s', from := Apply(s, MoveOut(t)), s.threads[t].pc.from;
    SameStacks(s, s');
    assert ThreadOk(s, t);
    forall u | 0 <= u < |s.threads|
      ensures ThreadOk(s', u)
    {
      assert ThreadOk(s, u) && !CallbackOn(s.threads[u].stack, from);
    }
    assert HandleOk(s, from);
    HandlesKept(s, s', t, from);
    forall g, h | 0 <= g < h < |s'.handles| && s'.handles[g].context.Some? && s'.handles[g].context == s'.handles[h].context
      ensures MovedBetween(s', g, h)
    {
      assert MovedBetween(s, g, h);
      var v :| 0 <= v < |s.threads| && (s.threads[v].pc == Moving(g, h) || s.threads[v].pc == Moving(h, g));
      assert s'.threads[v] == s.threads[v];
    }
  }

  lemma StepKeepsInv(s: State, step: Step)
    requires Inv(s) && Enabled(s, step)
    ensures Inv(Apply(s, step))
  {
    var t := step.t;
    assert ThreadOk(s, t);
    match step
    case Begin(_, h, trying) =>
      if !Throws(s, t, h) {
        NotHeld(s, t, h);
        PcStepKeepsInv(s, t, Checked(h, trying));
      }
    case Acquire(_) => AcquireKeepsInv(s, t);
    case Refuse(_) => PcStepKeepsInv(s, t, Running);
    case Record(_) => RecordKeepsInv(s, t);
    case Call(_, h) => CallKeepsInv(s, t, h);
    case Return(_) => ReturnKeepsInv(s, t);
    case End(_, at) => EndKeepsInv(s, t, at);
    case Release(_) => ReleaseKeepsInv(s, t);
    case MoveIn(_, to, from) => MoveInKeepsInv(s, t, to, from);
    case MoveOut(_) => MoveOutKeepsInv(s, t);
  }

  /** A running thread that is not the recorded owner does not hold the operation mutex either. */
  lemma NotHeld(s: State, t: nat, h: nat)
    requires Inv(s) && t < |s.threads| && h < |s.handles| && s.threads[t].pc.Running? && s.handles[h].owner != Some(t)
    ensures s.handles[h].op != Some(t)
  {
    assert ThreadOk(s, t) && HandleOk(s, h);
  }

  // ---------------------------------------------------------------------------------------
  // What holds over whole runs.

  lemma {:induction false} RunKeepsInv(run: seq<State>, k: nat)
    requires IsRun(run) && k < |run|
    ensures Inv(run[k])
  {
    if k == 0 {
      InitInv(run[0]);
    } else {
      RunKeepsInv(run, k - 1);
      assert Next(run[k - 1], run[k]);
      var step :| Enabled(run[k - 1], step) && run[k] == Apply(run[k - 1], step);
      StepKeepsInv(run[k - 1], step);
    }
  }

  /** At most one thread is inside an operation on a handle, and only once; a recorded owner holds the operation mutex. */
  lemma MutualExclusion(run: seq<State>, k: nat, h: nat, t: nat, u: nat, i: nat, j: nat)
    requires IsRun(run) && k < |run| && h < |run[k].handles| && t < |run[k].threads| && u < |run[k].threads|
    requires i < |run[k].threads[t].stack| && j < |run[k].threads[u].stack|
    requires run[k].threads[t].stack[i] == Inside(h) && run[k].threads[u].stack[j] == Inside(h)
    ensures t == u && i == j && run[k].handles[h].owner == run[k].handles[h].op == Some(t)
  {
    RunKeepsInv(run, k);
    assert ThreadOk(run[k], t) && ThreadOk(run[k], u);
    assert FrameOk(run[k], t, run[k].threads[t].stack[i]) && FrameOk(run[k], u, run[k].threads[u].stack[j]);
  }

  lemma OwnerHoldsMutex(run: seq<State>, k: nat, h: nat)
    requires IsRun(run) && k < |run| && h < |run[k].handles| && run[k].handles[h].owner.Some?
    ensures run[k].handles[h].op == run[k].handles[h].owner && run[k].handles[h].owner.value < |run[k].threads|
    ensures Inside(h) in run[k].threads[run[k].handles[h].owner.value].stack
  {
    RunKeepsInv(run, k);
    assert HandleOk(run[k], h);
  }

  /**
   * A thread about to block on a handle never holds that handle, and never stands inside a
   * callback of the context the handle has at that moment, even if the handle has been moved
   * to or from since the check.
   */
  lemma NeverBlocksOnItself(run: seq<State>, k: nat, t: nat)
    requires IsRun(run) && k < |run| && t < |run[k].threads| && run[k].threads[t].pc.Checked?
    ensures run[k].threads[t].pc.handle < |run[k].handles|
    ensures var handle := run[k].handles[run[k].threads[t].pc.handle];
            && handle.op != Some(t) && handle.owner != Some(t) && !Holds(run[k].threads[t], run[k].threads[t].pc.handle)
            && !ActiveFor(run[k].threads[t].stack, handle.context)
  {
    RunKeepsInv(run, k);
    var s := run[k];
    assert ThreadOk(s, t) && HandleOk(s, s.threads[t].pc.handle);
  }

  /** A callback runs in the current context of a handle some thread is inside of. */
  lemma CallbacksStayInContext(run: seq<State>, k: nat, t: nat, i: nat)
    requires IsRun(run) && k < |run| && t < |run[k].threads| && i < |run[k].threads[t].stack|
    requires run[k].threads[t].stack[i].Callback?
    ensures var frame := run[k].threads[t].stack[i];
            && frame.handle < |run[k].handles| && run[k].handles[frame.handle].context == Some(frame.context)
            && run[k].handles[frame.handle].owner.Some?
  {
    RunKeepsInv(run, k);
    assert ThreadOk(run[k], t) && FrameOk(run[k], t, run[k].threads[t].stack[i]);
  }

  // ---------------------------------------------------------------------------------------
  // What the steps do.

  /** A call throws, and changes nothing, if and only if the thread is the recorded owner or stands in a callback of the handle's context. */
  lemma ReentryThrows(s: State, t: nat, h: nat, trying: bool)
    requires Enabled(s, Begin(t, h, trying))
    ensures Apply(s, Begin(t, h, trying)) == s <==>
            || s.handles[h].owner == Some(t)
            || exists i :: 0 <= i < |s.threads[t].stack| && s.threads[t].stack[i].Callback? && Some(s.threads[t].stack[i].context) == s.handles[h].context
  {
    assert Throws(s, t, h) ==> Apply(s, Begin(t, h, trying)) == s;
    assert !Throws(s, t, h) ==> Apply(s, Begin(t, h, trying)).threads[t].pc == Checked(h, trying);
  }

  /** A callback that has returned leaves no trace. */
  lemma CallbackUndone(s: State, t: nat, h: nat)
    requires Enabled(s, Call(t, h))
    ensures var called := Apply(s, Call(t, h));
            Enabled(called, Return(t)) && Apply(called, Return(t)) == s
  {
    var stack := s.threads[t].stack;
    var frame := Callback(h, s.handles[h].context.value);
    assert (stack + [frame])[..|stack|] == stack;
    assert s.threads[t := Thread(stack + [frame], Running)][t := s.threads[t]] == s.threads;
  }

  /** Entering an operation: the mutex, the owner and the frame. */
  lemma Entered(s: State, t: nat, h: nat, trying: bool) returns (s': State)
    requires Enabled(s, Begin(t, h, trying)) && !Throws(s, t, h) && s.handles[h].op.None?
    ensures s' == State(s.handles[h := Handle(Some(t), Some(t), s.handles[h].context)],
                        s.threads[t := Thread(s.threads[t].stack + [Inside(h)], Running)])
    ensures Enabled(Apply(s, Begin(t, h, trying)), Acquire(t))
    ensures Enabled(Apply(Apply(s, Begin(t, h, trying)), Acquire(t)), Record(t))
    ensures s' == Apply(Apply(Apply(s, Begin(t, h, trying)), Acquire(t)), Record(t))
  {
    s' := Apply(Apply(Apply(s, Begin(t, h, trying)), Acquire(t)), Record(t));
  }

  /** Leaving it gives everything back: an operation on a free handle that ends at once leaves no trace. */
  lemma OperationUndone(s: State, t: nat, h: nat, trying: bool)
    requires Inv(s) && Enabled(s, Begin(t, h, trying)) && !Throws(s, t, h) && s.handles[h].op.None?
    ensures var entered := State(s.handles[h := Handle(Some(t), Some(t), s.handles[h].context)],
                                 s.threads[t := Thread(s.threads[t].stack + [Inside(h)], Running)]);
            && Enabled(entered, End(t, |s.threads[t].stack|))
            && Enabled(Apply(entered, End(t, |s.threads[t].stack|)), Release(t))
            && Apply(Apply(entered, End(t, |s.threads[t].stack|)), Release(t)) == s
  {
    var stack := s.threads[t].stack;
    var entered := Entered(s, t, h, trying);
    FreeIsQuiet(s, h);
    forall u | 0 <= u < |s.threads|
      ensures !CallbackOn(entered.threads[u].stack, h)
    {
      assert !CallbackOn(s.threads[u].stack, h);
      CallbackOnPush(stack, Inside(h), h);
    }
    assert Without(stack + [Inside(h)], |stack|) == stack;
    var left := Apply(Apply(entered, End(t, |stack|)), Release(t));
    assert HandleOk(s, h);
    assert left.handles == s.handles && left.threads == s.threads;
  }

  lemma FreeIsQuiet(s: State, h: nat)
    requires Inv(s) && h < |s.handles| && s.handles[h].op.None?
    ensures Quiet(s, h) && s.handles[h].owner.None?
  {
    assert HandleOk(s, h);
    forall t | 0 <= t < |s.threads|
      ensures !CallbackOn(s.threads[t].stack, h)
    {
      assert ThreadOk(s, t);
      forall i | 0 <= i < |s.threads[t].stack| && s.threads[t].stack[i].Callback?
        ensures s.threads[t].stack[i].handle != h
      {
        assert FrameOk(s, t, s.threads[t].stack[i]);
      }
    }
  }

  /** A move transfers the context: the target has the source's, the source none, and nothing else changes. */
  lemma MoveTransfers(s: State, t: nat, to: nat, from: nat)
    requires Enabled(s, MoveIn(t, to, from))
    ensures Enabled(Apply(s, MoveIn(t, to, from)), MoveOut(t))
    ensures Apply(Apply(s, MoveIn(t, to, from)), MoveOut(t)) ==
            s.(handles := s.handles[to := s.handles[to].(context := s.handles[from].context)][from := s.handles[from].(context := None)])
  {
    var moved := Apply(Apply(s, MoveIn(t, to, from)), MoveOut(t));
    assert moved.threads == s.threads;
  }
}

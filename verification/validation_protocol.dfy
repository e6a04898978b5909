/**
 * The page validation cache as a state machine: any number of threads ask for pages, one
 * atomic state per page is claimed by compare-and-swap, errors are recorded before a page is
 * published as invalid, and one lock with one condition variable serves all waiters.
 */
module ValidationProtocol {
  import opened Prelude

  datatype PageState = Unvalidated | Validating | Valid | Invalid

  /** What a caller keeps of an error: its kind and its message. */
  datatype Failure = Failure(kind: ErrorKind, message: string)

  datatype Outcome = Passed | Failed(failure: Failure)

  const OUT_OF_RANGE: Failure := Failure(InvalidData, "DiskANN adjacency page is out of range")
  const FALLBACK: Failure := Failure(InvalidData, "DiskANN adjacency page failed validation")

  /**
   * Where a thread is in a call. `Releasing`, `Storing` and `Notifying` carry the verdict a
   * claim publishes, or `None` when the validation unwound and the drop guard gives it up.
   */
  datatype Pc =
    | Idle
    | Loading(page: nat)
    | Claiming(page: nat)
    | Running(page: nat)
    | Recording(page: nat, failure: Failure)
    | Releasing(page: nat, verdict: Option<Outcome>)
    | Storing(page: nat, verdict: Option<Outcome>)
    | Notifying(page: nat, verdict: Option<Outcome>)
    | Locking(page: nat)
    | Checking(page: nat)
    | Sleeping(page: nat, notified: bool)
    | Reporting(page: nat)
    | Returned(page: nat, outcome: Outcome)

  /**
   * `passed`, `claims` and `abandons` are history: the pages some validation succeeded on, and
   * how often each page was claimed and given up.
   */
  datatype State = State(
    pages: seq<PageState>,
    errors: map<nat, Failure>,
    lock: Option<nat>,
    threads: seq<Pc>,
    passed: set<nat>,
    claims: seq<nat>,
    abandons: seq<nat>
  )

  datatype Step =
    | Call(t: nat, page: nat)
    | Load(t: nat)
    | Swap(t: nat)
    | Pass(t: nat)
    | Fail(t: nat, failure: Failure)
    | Unwind(t: nat)
    | Record(t: nat)
    | Acquire(t: nat)
    | Store(t: nat)
    | Notify(t: nat)
    | Check(t: nat)
    | Wake(t: nat)
    | Report(t: nat)
    | Return(t: nat)

  predicate Enabled(s: State, step: Step) {
    && step.t < |s.threads|
    && |s.claims| == |s.abandons| == |s.pages|
    && var pc := s.threads[step.t];
       && (pc.Idle? || pc.Returned? || pc.page < |s.pages|)
       && match step {
         case Call(_, _) => pc.Idle?
         case Load(_) => pc.Loading?
         case Swap(_) => pc.Claiming?
         case Pass(_) => pc.Running?
         case Fail(_, _) => pc.Running?
         case Unwind(_) => pc.Running?
         case Record(_) => pc.Recording?
         case Acquire(_) => s.lock.None? && (pc.Releasing? || pc.Locking?)
         case Store(_) => pc.Storing?
         case Notify(_) => pc.Notifying?
         case Check(_) => pc.Checking?
         case Wake(_) => pc.Sleeping?
         case Report(_) => pc.Reporting?
         case Return(_) => pc.Returned?
       }
  }

  function Goto(s: State, t: nat, pc: Pc): State
    requires t < |s.threads|
  {
    s.(threads := s.threads[t := pc])
  }

  /** `Condvar::notify_all`: the one condition variable serves the waiters of every page. */
  function Woken(threads: seq<Pc>): (r: seq<Pc>)
    ensures |r| == |threads|
  {
    seq(|threads|, i requires 0 <= i < |threads| => if threads[i].Sleeping? then threads[i].(notified := true) else threads[i])
  }

  function Loaded(page: nat, state: PageState): Pc {
    match state
    case Unvalidated => Claiming(page)
    case Validating => Locking(page)
    case Valid => Returned(page, Passed)
    case Invalid => Reporting(page)
  }

  function Published(verdict: Option<Outcome>): PageState {
    match verdict
    case None => Unvalidated
    case Some(Passed) => Valid
    case Some(Failed(_)) => Invalid
  }

  function Apply(s: State, step: Step): State
    requires Enabled(s, step)
  {
    var t := step.t;
    var pc := s.threads[t];
    match step
    case Call(_, page) => Goto(s, t, if page < |s.pages| then Loading(page) else Returned(page, Failed(OUT_OF_RANGE)))
    case Load(_) => Goto(s, t, Loaded(pc.page, s.pages[pc.page]))
    case Swap(_) =>
      if s.pages[pc.page].Unvalidated? then
        Goto(s.(pages := s.pages[pc.page := Validating], claims := s.claims[pc.page := s.claims[pc.page] + 1]), t, Running(pc.page))
      else
        Goto(s, t, Loading(pc.page))
    case Pass(_) => Goto(s.(passed := s.passed + {pc.page}), t, Releasing(pc.page, Some(Passed)))
    case Fail(_, failure) => Goto(s, t, Recording(pc.page, failure))
    case Unwind(_) => Goto(s, t, Releasing(pc.page, None))
    case Record(_) => Goto(s.(errors := s.errors[pc.page := pc.failure]), t, Releasing(pc.page, Some(Failed(pc.failure))))
    case Acquire(_) =>
      Goto(s.(lock := Some(t)), t, if pc.Releasing? then Storing(pc.page, pc.verdict) else Checking(pc.page))
    case Store(_) =>
      Goto(s.(pages := s.pages[pc.page := Published(pc.verdict)],
              abandons := if pc.verdict.None? then s.abandons[pc.page := s.abandons[pc.page] + 1] else s.abandons),
           t, Notifying(pc.page, pc.verdict))
    case Notify(_) =>
      Goto(s.(lock := None, threads := Woken(s.threads)), t, if pc.verdict.Some? then Returned(pc.page, pc.verdict.value) else Idle)
    case Check(_) =>
      Goto(s.(lock := None), t, if s.pages[pc.page].Validating? then Sleeping(pc.page, false) else Loading(pc.page))
    case Wake(_) => Goto(s, t, Locking(pc.page))
    case Report(_) => Goto(s, t, Returned(pc.page, Failed(if pc.page in s.errors then s.errors[pc.page] else FALLBACK)))
    case Return(_) => Goto(s, t, Idle)
  }

  predicate Init(s: State) {
    && |s.claims| == |s.abandons| == |s.pages|
    && (forall p :: 0 <= p < |s.pages| ==> s.pages[p].Unvalidated? && s.claims[p] == s.abandons[p] == 0)
    && (forall t :: 0 <= t < |s.threads| ==> s.threads[t].Idle?)
    && s.errors == map[] && s.passed == {} && s.lock == None
  }

  ghost predicate Next(s: State, s': State) {
    exists step :: Enabled(s, step) && s' == Apply(s, step)
  }

  ghost predicate IsRun(run: seq<State>) {
    && run != [] && Init(run[0])
    && forall k :: 0 < k < |run| ==> Next(run[k - 1], run[k])
  }

  // ---------------------------------------------------------------------------------------
  // The invariant.

  /** The thread owns the page's claim and has not yet stored its verdict. */
  predicate Owns(pc: Pc, page: nat) {
    (pc.Running? || pc.Recording? || pc.Releasing? || pc.Storing?) && pc.page == page
  }

  predicate Locked(pc: Pc) {
    pc.Storing? || pc.Notifying? || pc.Checking?
  }

  /** The verdict is the page's final one. */
  predicate Settled(s: State, page: nat, outcome: Outcome) {
    && page < |s.pages|
    && match outcome {
      case Passed => s.pages[page].Valid?
      case Failed(failure) => s.pages[page].Invalid? && page in s.errors && s.errors[page] == failure
    }
  }

  /** The verdict the owner is about to store agrees with what has been recorded. */
  predicate Backed(s: State, page: nat, verdict: Option<Outcome>) {
    match verdict
    case None => page !in s.passed && page !in s.errors
    case Some(Passed) => page in s.passed && page !in s.errors
    case Some(Failed(failure)) => page !in s.passed && page in s.errors && s.errors[page] == failure
  }

  predicate SomeoneNotifying(s: State) {
    s.lock.Some? && s.lock.value < |s.threads| && s.threads[s.lock.value].Notifying?
  }

  predicate ThreadOk(s: State, t: nat)
    requires t < |s.threads|
  {
    var pc := s.threads[t];
    && (Locked(pc) <==> s.lock == Some(t))
    && (pc.Idle? || pc.Returned? || pc.page < |s.pages|)
    && match pc {
      case Running(page) => s.pages[page].Validating? && Backed(s, page, None)
      case Recording(page, _) => s.pages[page].Validating? && Backed(s, page, None)
      case Releasing(page, verdict) => s.pages[page].Validating? && Backed(s, page, verdict)
      case Storing(page, verdict) => s.pages[page].Validating? && Backed(s, page, verdict)
      case Notifying(page, verdict) => verdict.Some? ==> Settled(s, page, verdict.value)
      case Sleeping(page, notified) => notified || s.pages[page].Validating? || SomeoneNotifying(s)
      case Reporting(page) => s.pages[page].Invalid?
      case Returned(page, outcome) => if page < |s.pages| then Settled(s, page, outcome) else outcome == Failed(OUT_OF_RANGE)
      case _ => true
    }
  }

  ghost predicate Owned(s: State, page: nat) {
    exists t :: 0 <= t < |s.threads| && Owns(s.threads[t], page)
  }

  ghost predicate PageOk(s: State, page: nat)
    requires page < |s.pages| && |s.claims| == |s.abandons| == |s.pages|
  {
    && s.claims[page] == s.abandons[page] + (if s.pages[page].Unvalidated? then 0 else 1)
    && match s.pages[page] {
      case Unvalidated => Backed(s, page, None)
      case Validating => Owned(s, page)
      case Valid => Backed(s, page, Some(Passed))
      case Invalid => page !in s.passed && page in s.errors
    }
  }

  ghost predicate OneOwner(s: State) {
    forall t, u, page :: 0 <= t < u < |s.threads| && Owns(s.threads[t], page) ==> !Owns(s.threads[u], page)
  }

  ghost predicate Inv(s: State) {
    && |s.claims| == |s.abandons| == |s.pages|
    && (forall t :: 0 <= t < |s.threads| ==> ThreadOk(s, t))
    && (forall p :: 0 <= p < |s.pages| ==> PageOk(s, p))
    && OneOwner(s)
    && (s.lock.Some? ==> s.lock.value < |s.threads|)
  }

  lemma InitInv(s: State)
    requires Init(s)
    ensures Inv(s)
  {
  }

  /** A thread moves on alone: shared state, lock and ownership stay. */
  lemma MoveKeepsInv(s: State, t: nat, pc: Pc)
    requires Inv(s) && t < |s.threads|
    requires !Locked(s.threads[t]) && ThreadOk(Goto(s, t, pc), t)
    requires forall p :: Owns(s.threads[t], p) <==> Owns(pc, p)
    ensures Inv(Goto(s, t, pc))
  {
    var s' := Goto(s, t, pc);
    forall u | 0 <= u < |s'.threads|
      ensures ThreadOk(s', u)
    {
      assert ThreadOk(s, u);
    }
    OwnersKept(s, s');
  }

  /** Ownership seen page by page is the same, so every page is still justified. */
  lemma OwnersKept(s: State, s': State)
    requires Inv(s) && |s'.threads| == |s.threads|
    requires s'.pages == s.pages && s'.claims == s.claims && s'.abandons == s.abandons
    requires s'.errors == s.errors && s'.passed == s.passed
    requires forall u, p :: 0 <= u < |s.threads| ==> (Owns(s.threads[u], p) <==> Owns(s'.threads[u], p))
    ensures OneOwner(s') && forall p :: 0 <= p < |s'.pages| ==> PageOk(s', p)
  {
    forall p | 0 <= p < |s'.pages|
      ensures PageOk(s', p)
    {
      assert PageOk(s, p);
      if s.pages[p].Validating? {
        var u :| 0 <= u < |s.threads| && Owns(s.threads[u], p);
        assert Owns(s'.threads[u], p);
      }
    }
  }

  lemma SwapKeepsInv(s: State, t: nat)
    requires Inv(s) && Enabled(s, Swap(t)) && s.pages[s.threads[t].page].Unvalidated?
    ensures Inv(Apply(s, Swap(t)))
  {
    var s', page := Apply(s, Swap(t)), s.threads[t].page;
    assert PageOk(s, page);
    forall u | 0 <= u < |s.threads|
      ensures ThreadOk(s', u) && !Owns(s.threads[u], page)
      ensures forall p :: p != page ==> (Owns(s.threads[u], p) <==> Owns(s'.threads[u], p))
    {
      assert ThreadOk(s, u);
    }
    assert Owns(s'.threads[t], page);
    forall p | 0 <= p < |s'.pages|
      ensures PageOk(s', p)
    {
      assert PageOk(s, p);
      OtherPageOwned(s, s', page, p);
    }
  }

  lemma OtherPageOwned(s: State, s': State, page: nat, p: nat)
    requires p < |s.pages| && |s'.threads| == |s.threads|
    requires forall u :: 0 <= u < |s.threads| && p != page ==> (Owns(s.threads[u], p) <==> Owns(s'.threads[u], p))
    ensures p != page && Owned(s, p) ==> Owned(s', p)
  {
    if p != page && Owned(s, p) {
      var u :| 0 <= u < |s.threads| && Owns(s.threads[u], p);
      assert Owns(s'.threads[u], p);
    }
  }

  /** The owner records what its validation found: the page passed, or an error. */
  lemma FoundKeepsInv(s: State, t: nat, passed: set<nat>, errors: map<nat, Failure>, verdict: Outcome)
    requires Inv(s) && t < |s.threads| && (s.threads[t].Running? || s.threads[t].Recording?)
    requires forall p :: p != s.threads[t].page ==> (p in passed <==> p in s.passed) && (p in errors <==> p in s.errors)
    requires forall p :: p != s.threads[t].page && p in errors ==> errors[p] == s.errors[p]
    requires Backed(s.(passed := passed, errors := errors), s.threads[t].page, Some(verdict))
    ensures Inv(Goto(s.(passed := passed, errors := errors), t, Releasing(s.threads[t].page, Some(verdict))))
  {
    var page := s.threads[t].page;
    var s' := Goto(s.(passed := passed, errors := errors), t, Releasing(page, Some(verdict)));
    assert ThreadOk(s, t);
    assert Owns(s.threads[t], page);
    forall u | 0 <= u < |s.threads|
      ensures ThreadOk(s', u)
      ensures forall p :: Owns(s.threads[u], p) <==> Owns(s'.threads[u], p)
    {
      assert ThreadOk(s, u);
      assert u != t ==> !Owns(s.threads[u], page);
    }
    forall p | 0 <= p < |s'.pages|
      ensures PageOk(s', p)
    {
      assert PageOk(s, p);
      OtherPageOwned(s, s', page, p);
    }
    assert Owns(s'.threads[t], page);
  }

  lemma AcquireKeepsInv(s: State, t: nat)
    requires Inv(s) && Enabled(s, Acquire(t))
    ensures Inv(Apply(s, Acquire(t)))
  {
    var s' := Apply(s, Acquire(t));
    forall u | 0 <= u < |s'.threads|
      ensures ThreadOk(s', u)
    {
      assert ThreadOk(s, u);
    }
    OwnersKept(s, s');
  }

  lemma StoreKeepsInv(s: State, t: nat)
    requires Inv(s) && Enabled(s, Store(t))
    ensures Inv(Apply(s, Store(t)))
  {
    var s', page := Apply(s, Store(t)), s.threads[t].page;
    assert ThreadOk(s, t) && PageOk(s, page);
    assert Owns(s.threads[t], page);
    forall u | 0 <= u < |s.threads|
      ensures ThreadOk(s', u) && !Owns(s'.threads[u], page)
      ensures forall p :: p != page ==> (Owns(s.threads[u], p) <==> Owns(s'.threads[u], p))
    {
      assert ThreadOk(s, u);
      assert u != t ==> !Owns(s.threads[u], page);
    }
    forall p | 0 <= p < |s'.pages|
      ensures PageOk(s', p)
    {
      assert PageOk(s, p);
      OtherPageOwned(s, s', page, p);
    }
  }

  lemma NotifyKeepsInv(s: State, t: nat)
    requires Inv(s) && Enabled(s, Notify(t))
    ensures Inv(Apply(s, Notify(t)))
  {
    var s' := Apply(s, Notify(t));
    assert ThreadOk(s, t);
    forall u | 0 <= u < |s'.threads|
      ensures ThreadOk(s', u)
      ensures forall p :: Owns(s.threads[u], p) <==> Owns(s'.threads[u], p)
    {
      assert ThreadOk(s, u);
    }
    OwnersKept(s, s');
  }

  lemma CheckKeepsInv(s: State, t: nat)
    requires Inv(s) && Enabled(s, Check(t))
    ensures Inv(Apply(s, Check(t)))
  {
    var s' := Apply(s, Check(t));
    assert ThreadOk(s, t);
    forall u | 0 <= u < |s'.threads|
      ensures ThreadOk(s', u)
    {
      assert ThreadOk(s, u);
    }
    OwnersKept(s, s');
  }

  lemma StepKeepsInv(s: State, step: Step)
    requires Inv(s) && Enabled(s, step)
    ensures Inv(Apply(s, step))
  {
    var t := step.t;
    var pc := s.threads[t];
    assert ThreadOk(s, t);
    match step
    case Call(_, page) => MoveKeepsInv(s, t, if page < |s.pages| then Loading(page) else Returned(page, Failed(OUT_OF_RANGE)));
    case Load(_) => MoveKeepsInv(s, t, Loaded(pc.page, s.pages[pc.page]));
    case Swap(_) =>
      if s.pages[pc.page].Unvalidated? {
        SwapKeepsInv(s, t);
      } else {
        MoveKeepsInv(s, t, Loading(pc.page));
      }
    case Pass(_) => FoundKeepsInv(s, t, s.passed + {pc.page}, s.errors, Passed);
    case Fail(_, failure) => MoveKeepsInv(s, t, Recording(pc.page, failure));
    case Unwind(_) => MoveKeepsInv(s, t, Releasing(pc.page, None));
    case Record(_) => FoundKeepsInv(s, t, s.passed, s.errors[pc.page := pc.failure], Failed(pc.failure));
    case Acquire(_) => AcquireKeepsInv(s, t);
    case Store(_) => StoreKeepsInv(s, t);
    case Notify(_) => NotifyKeepsInv(s, t);
    case Check(_) => CheckKeepsInv(s, t);
    case Wake(_) => MoveKeepsInv(s, t, Locking(pc.page));
    case Report(_) =>
      assert PageOk(s, pc.page);
      MoveKeepsInv(s, t, Returned(pc.page, Failed(s.errors[pc.page])));
    case Return(_) => MoveKeepsInv(s, t, Idle);
  }

  // ---------------------------------------------------------------------------------------
  // What holds over whole runs.

  lemma {:induction false} RunKeepsInv(run: seq<State>, k: nat)
    requires IsRun(run) && k < |run|
    ensures Inv(run[k])
  {
    if k == 0 {
      InitInv(run[0]);
    } else {
      RunKeepsInv(run, k - 1);
      assert Next(run[k - 1], run[k]);
      var step :| Enabled(run[k - 1], step) && run[k] == Apply(run[k - 1], step);
      StepKeepsInv(run[k - 1], step);
    }
  }

  /**
   * A page is being validated exactly while one thread owns its claim, and never by two. It is
   * claimed once for every abandoned claim, and once more when it is not unvalidated now.
   */
  lemma OneValidator(run: seq<State>, k: nat, page: nat)
    requires IsRun(run) && k < |run| && page < |run[k].pages|
    ensures run[k].pages[page].Validating? <==> Owned(run[k], page)
    ensures forall t, u :: 0 <= t < u < |run[k].threads| && Owns(run[k].threads[t], page) ==> !Owns(run[k].threads[u], page)
    ensures |run[k].claims| == |run[k].abandons| == |run[k].pages|
    ensures run[k].claims[page] == run[k].abandons[page] + (if run[k].pages[page].Unvalidated? then 0 else 1)
  {
    RunKeepsInv(run, k);
    var s := run[k];
    assert PageOk(s, page);
    if t :| 0 <= t < |s.threads| && Owns(s.threads[t], page) {
      assert ThreadOk(s, t);
    }
  }

  predicate Final(state: PageState) {
    state.Valid? || state.Invalid?
  }

  /** A final page keeps its state and its recorded error through one step. */
  lemma StepKeepsFinal(s: State, step: Step, page: nat)
    requires Inv(s) && Enabled(s, step) && page < |s.pages| && Final(s.pages[page])
    ensures var s' := Apply(s, step);
            && |s'.pages| == |s.pages| && s'.pages[page] == s.pages[page]
            && (page in s.errors ==> page in s'.errors && s'.errors[page] == s.errors[page])
  {
    assert ThreadOk(s, step.t) && PageOk(s, page);
  }

  /** VALID and INVALID are absorbing, and the error recorded for a page never changes. */
  lemma {:induction false} FinalIsAbsorbing(run: seq<State>, i: nat, j: nat, page: nat)
    requires IsRun(run) && i <= j < |run| && page < |run[i].pages| && Final(run[i].pages[page])
    ensures |run[j].pages| == |run[i].pages| && run[j].pages[page] == run[i].pages[page]
    ensures page in run[i].errors ==> page in run[j].errors && run[j].errors[page] == run[i].errors[page]
    decreases j
  {
    if i < j {
      FinalIsAbsorbing(run, i, j - 1, page);
      RunKeepsInv(run, j - 1);
      assert Next(run[j - 1], run[j]);
      var step :| Enabled(run[j - 1], step) && run[j] == Apply(run[j - 1], step);
      StepKeepsFinal(run[j - 1], step, page);
    }
  }

  /**
   * A call returns success only for a page some validation passed, and otherwise the error
   * recorded for the page.
   */
  lemma ReturnsAreJustified(run: seq<State>, k: nat, t: nat)
    requires IsRun(run) && k < |run| && t < |run[k].threads| && run[k].threads[t].Returned?
    requires run[k].threads[t].page < |run[k].pages|
    ensures var (page, outcome) := (run[k].threads[t].page, run[k].threads[t].outcome);
            match outcome {
              case Passed => page in run[k].passed && run[k].pages[page].Valid?
              case Failed(failure) => run[k].pages[page].Invalid? && page in run[k].errors && run[k].errors[page] == failure
            }
  {
    RunKeepsInv(run, k);
    assert ThreadOk(run[k], t) && PageOk(run[k], run[k].threads[t].page);
  }

  /** INVALID is visible only once its error is recorded, so the fallback message is never used. */
  lemma FallbackUnreachable(run: seq<State>, k: nat, t: nat)
    requires IsRun(run) && k < |run| && Enabled(run[k], Report(t))
    ensures run[k].threads[t].page in run[k].errors
  {
    RunKeepsInv(run, k);
    assert ThreadOk(run[k], t) && PageOk(run[k], run[k].threads[t].page);
  }

  /** Any two calls for a page, by any threads at any times of a run, return the same verdict. */
  lemma VerdictsAgree(run: seq<State>, i: nat, j: nat, t: nat, u: nat)
    requires IsRun(run) && i <= j < |run| && t < |run[i].threads| && u < |run[j].threads|
    requires run[i].threads[t].Returned? && run[j].threads[u].Returned?
    requires run[i].threads[t].page == run[j].threads[u].page < |run[i].pages|
    ensures run[i].threads[t].outcome == run[j].threads[u].outcome
  {
    RunKeepsInv(run, i);
    RunKeepsInv(run, j);
    assert ThreadOk(run[i], t);
    FinalIsAbsorbing(run, i, j, run[i].threads[t].page);
    assert ThreadOk(run[j], u);
  }

  /**
   * No lost wake-up: while a thread sleeps un-notified, its page is still being validated or
   * the thread that stored the verdict is about to notify, and in both cases some other
   * thread that is not asleep has a step it can take.
   */
  lemma SleepersAreServed(run: seq<State>, k: nat, t: nat) returns (step: Step)
    requires IsRun(run) && k < |run| && t < |run[k].threads|
    requires run[k].threads[t].Sleeping? && !run[k].threads[t].notified
    ensures run[k].threads[t].page < |run[k].pages|
    ensures run[k].pages[run[k].threads[t].page].Validating? || SomeoneNotifying(run[k])
    ensures Enabled(run[k], step) && step.t != t && !step.Wake? && !step.Call? && !step.Return?
  {
    RunKeepsInv(run, k);
    var s := run[k];
    assert ThreadOk(s, t);
    if s.lock.Some? {
      step := LockHolderMoves(s);
    } else {
      assert PageOk(s, s.threads[t].page);
      var u :| 0 <= u < |s.threads| && Owns(s.threads[u], s.threads[t].page);
      assert ThreadOk(s, u);
      step := if s.threads[u].Running? then Pass(u) else if s.threads[u].Recording? then Record(u) else Acquire(u);
    }
  }

  lemma LockHolderMoves(s: State) returns (step: Step)
    requires Inv(s) && s.lock.Some?
    ensures Enabled(s, step) && !s.threads[step.t].Sleeping? && (step.Store? || step.Notify? || step.Check?)
  {
    var u := s.lock.value;
    assert ThreadOk(s, u);
    step := if s.threads[u].Storing? then Store(u) else if s.threads[u].Notifying? then Notify(u) else Check(u);
  }
}

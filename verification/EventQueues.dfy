/**
 The event queue under all interleavings: any number of threads pushing,
 popping and terminating, one atomic action at a time.  pushed and popped are
 the history; the rest is the state of the queue, the mutex, the condition
 variable and the threads.
 */
module EventQueues {
  import opened Wrappers

  /** The message a thread pushes in its n-th call of push. */
  datatype Message = Message(sender: nat, number: nat)

  /** Where a thread is: what it is about to do next. */
  datatype PC =
    | Idle
    | PushLock | PushInsert | PushNotify | PushUnlock
    | PopLock | PopCheck | PopWait | Asleep(notified: bool) | PopDecide | PopTake | PopUnlock(result: Option<Message>)
    | TermSet | TermNotify

  datatype State = State(queue: seq<Message>, terminating: bool, owner: Option<nat>,
                         pc: seq<PC>, sent: seq<nat>, pushed: seq<Message>, popped: seq<Message>)
  {
    /** Thread t gets to its next action. */
    function To(t: nat, p: PC): State
      requires t < |pc|
    {
      this.(pc := pc[t := p])
    }

    /** notify_all. */
    function NotifyAll(): State {
      this.(pc := seq(|pc|, i requires 0 <= i < |pc| => if pc[i] == Asleep(false) then Asleep(true) else pc[i]))
    }
  }

  function Initial(threads: nat): State {
    State([], false, None, seq(threads, i => Idle), seq(threads, i => 0), [], [])
  }

  /** Thread t performs an action. */
  predicate Step(s: State, t: nat, s': State)
    requires t < |s.pc| && |s.sent| == |s.pc|
  {
    match s.pc[t]
    case Idle => s' == s.To(t, PushLock) || s' == s.To(t, PopLock) || s' == s.To(t, TermSet)
    case PushLock => s.owner.None? && s' == s.To(t, PushInsert).(owner := Some(t))
    case PushInsert =>
      var message := Message(t, s.sent[t]);
      s' == s.To(t, PushNotify).(queue := s.queue + [message], pushed := s.pushed + [message], sent := s.sent[t := s.sent[t] + 1])
    case PushNotify => s' == s.To(t, PushUnlock).NotifyAll()
    case PushUnlock => s' == s.To(t, Idle).(owner := None)
    case PopLock => s.owner.None? && s' == s.To(t, PopCheck).(owner := Some(t))
    case PopCheck => s' == s.To(t, if s.queue == [] && !s.terminating then PopWait else PopDecide)
    case PopWait => s' == s.To(t, Asleep(false)).(owner := None)
    case Asleep(notified) =>
      if notified then s.owner.None? && s' == s.To(t, PopCheck).(owner := Some(t))
      else s' == s.To(t, Asleep(true)) // a spurious wake-up
    case PopDecide => s' == s.To(t, if s.terminating then PopUnlock(None) else PopTake)
    case PopTake =>
      && s.queue != []
      && s' == s.To(t, PopUnlock(Some(s.queue[0]))).(queue := s.queue[1..], popped := s.popped + [s.queue[0]])
    case PopUnlock(_) => s' == s.To(t, Idle).(owner := None)
    case TermSet => s' == s.To(t, TermNotify).(terminating := true)
    case TermNotify => s' == s.To(t, Idle).NotifyAll()
  }

  ghost predicate Steps(s: State, s': State) {
    |s.sent| == |s.pc| && exists t: nat :: t < |s.pc| && Step(s, t, s')
  }

  /** A run of the program. */
  ghost predicate Run(states: seq<State>) {
    states != [] && forall i | 0 <= i < |states| - 1 :: Steps(states[i], states[i + 1])
  }

  // ---------- the invariant ----------

  /** The thread holds the mutex. */
  predicate Holding(p: PC) {
    match p
    case PushInsert | PushNotify | PushUnlock | PopCheck | PopWait | PopDecide | PopTake | PopUnlock(_) => true
    case Idle | PushLock | PopLock | Asleep(_) | TermSet | TermNotify => false
  }

  predicate MutualExclusion(s: State) {
    && (s.owner.Some? ==> s.owner.value < |s.pc|)
    && forall t | 0 <= t < |s.pc| :: Holding(s.pc[t]) <==> s.owner == Some(t)
  }

  /** Nothing is lost, doubled or reordered. */
  predicate Fifo(s: State) {
    s.pushed == s.popped + s.queue
  }

  /** No thread sleeps un-notified over a message, except while the one that pushed it is about to notify. */
  predicate NobodyOversleeps(s: State) {
    forall t | 0 <= t < |s.pc| && s.pc[t] == Asleep(false) && s.queue != [] ::
      s.owner.Some? && s.owner.value < |s.pc| && s.pc[s.owner.value] == PushNotify
  }

  /** What a popping thread knows about the queue; in particular the front of an empty queue is never taken. */
  predicate Knows(s: State, p: PC) {
    && (p == PopWait ==> s.queue == [])
    && (p == PopDecide ==> s.queue != [] || s.terminating)
    && (p == PopTake ==> s.queue != [])
    && (p == PopUnlock(None) ==> s.terminating)
  }

  predicate Informed(s: State) {
    forall t | 0 <= t < |s.pc| :: Knows(s, s.pc[t])
  }

  /** Every thread's messages were pushed in the order of its calls. */
  ghost predicate InOrder(messages: seq<Message>) {
    forall i, n: nat | 0 <= i < |messages| && n < messages[i].number :: Message(messages[i].sender, n) in messages[..i]
  }

  /** No message occurs twice. */
  predicate Distinct(messages: seq<Message>) {
    forall i, j | 0 <= i < j < |messages| :: messages[i] != messages[j]
  }

  /** The messages are those the threads have sent. */
  ghost predicate AreSent(messages: seq<Message>, sent: seq<nat>) {
    && (forall m | m in messages :: m.sender < |sent| && m.number < sent[m.sender])
    && (forall t, n: nat | 0 <= t < |sent| && n < sent[t] :: Message(t, n) in messages)
    && InOrder(messages) && Distinct(messages)
  }

  ghost predicate Accounted(s: State) {
    |s.sent| == |s.pc| && AreSent(s.pushed, s.sent)
  }

  ghost predicate Inv(s: State) {
    MutualExclusion(s) && Fifo(s) && NobodyOversleeps(s) && Informed(s) && Accounted(s)
  }

  lemma InitialInv(threads: nat)
    ensures Inv(Initial(threads))
  {
  }

  /** A step changes its own thread and wakes others, which are not holding the mutex. */
  lemma OthersKeepHolding(s: State, t: nat, s': State)
    requires t < |s.pc| && |s.sent| == |s.pc| && Step(s, t, s')
    ensures |s'.pc| == |s.pc| && forall u | 0 <= u < |s.pc| && u != t :: Holding(s'.pc[u]) == Holding(s.pc[u])
  {
  }

  lemma StepKeepsMutualExclusion(s: State, t: nat, s': State)
    requires Inv(s) && t < |s.pc| && Step(s, t, s')
    ensures MutualExclusion(s') && |s'.pc| == |s.pc|
  {
    OthersKeepHolding(s, t, s');
    if s'.owner != s.owner {
      assert s'.owner == if Holding(s'.pc[t]) then Some(t) else None;
    }
  }

  lemma StepKeepsFifo(s: State, t: nat, s': State)
    requires Inv(s) && t < |s.pc| && Step(s, t, s')
    ensures Fifo(s')
  {
    match s.pc[t]
    case PushInsert => assert s.popped + (s.queue + [Message(t, s.sent[t])]) == (s.popped + s.queue) + [Message(t, s.sent[t])];
    case PopTake => assert (s.popped + [s.queue[0]]) + s.queue[1..] == s.popped + s.queue;
    case _ =>
  }

  lemma StepKeepsInformed(s: State, t: nat, s': State)
    requires Inv(s) && t < |s.pc| && Step(s, t, s')
    ensures Informed(s')
  {
    StepIsInformed(s, t, s');
    OthersKeepHolding(s, t, s');
    forall u | 0 <= u < |s'.pc| && u != t && Holding(s.pc[u]) ensures Knows(s', s'.pc[u]) {
      assert !Holding(s.pc[t]);
      OthersChangeNothing(s, t, s', u);
    }
  }

  lemma StepIsInformed(s: State, t: nat, s': State)
    requires Inv(s) && t < |s.pc| && Step(s, t, s')
    ensures |s'.pc| == |s.pc| && Knows(s', s'.pc[t])
  {
  }

  /** A thread that does not hold the mutex leaves alone the queue and whoever does. */
  lemma OthersChangeNothing(s: State, t: nat, s': State, u: nat)
    requires t < |s.pc| && |s.sent| == |s.pc| && Step(s, t, s') && !Holding(s.pc[t]) && u != t && u < |s.pc| && Holding(s.pc[u])
    ensures s'.queue == s.queue && (s.terminating ==> s'.terminating) && |s'.pc| == |s.pc| && s'.pc[u] == s.pc[u]
  {
  }

  lemma StepKeepsSleepersRight(s: State, t: nat, s': State)
    requires Inv(s) && t < |s.pc| && Step(s, t, s')
    ensures NobodyOversleeps(s')
  {
  }

  lemma {:induction false} InOrderNext(messages: seq<Message>, m: Message)
    requires InOrder(messages) && forall n: nat | n < m.number :: Message(m.sender, n) in messages
    ensures InOrder(messages + [m])
  {
    var longer := messages + [m];
    forall i, n: nat | 0 <= i < |longer| && n < longer[i].number ensures Message(longer[i].sender, n) in longer[..i] {
      if i < |messages| {
        assert longer[..i] == messages[..i];
      } else {
        assert longer[..i] == messages;
      }
    }
  }

  lemma NextIsSent(messages: seq<Message>, sent: seq<nat>, t: nat)
    requires AreSent(messages, sent) && t < |sent|
    ensures AreSent(messages + [Message(t, sent[t])], sent[t := sent[t] + 1])
  {
    InOrderNext(messages, Message(t, sent[t]));
    assert Message(t, sent[t]) !in messages;
  }

  lemma StepKeepsAccounts(s: State, t: nat, s': State)
    requires Inv(s) && t < |s.pc| && Step(s, t, s')
    ensures Accounted(s')
  {
    if s.pc[t] == PushInsert {
      NextIsSent(s.pushed, s.sent, t);
    } else {
      assert s'.pushed == s.pushed && s'.sent == s.sent && |s'.pc| == |s.pc|;
    }
  }

  lemma StepKeepsInv(s: State, s': State)
    requires Inv(s) && Steps(s, s')
    ensures Inv(s')
  {
    var t: nat :| t < |s.pc| && Step(s, t, s');
    StepKeepsMutualExclusion(s, t, s');
    StepKeepsFifo(s, t, s');
    StepKeepsInformed(s, t, s');
    StepKeepsSleepersRight(s, t, s');
    StepKeepsAccounts(s, t, s');
  }

  lemma {:induction false} RunKeepsInv(states: seq<State>, i: nat)
    requires Run(states) && Inv(states[0]) && i < |states|
    ensures Inv(states[i])
  {
    if i > 0 {
      RunKeepsInv(states, i - 1);
      StepKeepsInv(states[i - 1], states[i]);
    }
  }

  // ---------- safety ----------

  /** In every run: what has been popped is a prefix of what has been pushed, and each thread's messages leave after its earlier ones. */
  lemma PoppedInOrder(threads: nat, states: seq<State>, k: nat)
    requires Run(states) && states[0] == Initial(threads) && k < |states|
    ensures states[k].popped <= states[k].pushed && InOrder(states[k].popped)
    ensures states[k].pushed == states[k].popped + states[k].queue
  {
    InitialInv(threads);
    RunKeepsInv(states, k);
    var s := states[k];
    forall i, n: nat | 0 <= i < |s.popped| && n < s.popped[i].number ensures Message(s.popped[i].sender, n) in s.popped[..i] {
      assert s.pushed[i] == s.popped[i] && s.pushed[..i] == s.popped[..i];
    }
  }

  // ---------- what the callers get ----------

  function Concat(parts: seq<seq<Message>>): seq<Message> {
    if parts == [] then [] else parts[0] + Concat(parts[1..])
  }

  lemma {:induction false} ConcatNone(parts: seq<seq<Message>>)
    requires forall i | 0 <= i < |parts| :: parts[i] == []
    ensures Concat(parts) == []
  {
    if parts != [] { ConcatNone(parts[1..]); }
  }

  lemma {:induction false} ConcatOne(parts: seq<seq<Message>>, t: nat)
    requires t < |parts| && forall i | 0 <= i < |parts| && i != t :: parts[i] == []
    ensures Concat(parts) == parts[t]
  {
    if t == 0 { ConcatNone(parts[1..]); } else { ConcatOne(parts[1..], t - 1); }
  }

  /** The message a call of pop is about to return. */
  function Result(p: PC): seq<Message> {
    if p.PopUnlock? && p.result.Some? then [p.result.value] else []
  }

  function Results(pc: seq<PC>): seq<seq<Message>> {
    seq(|pc|, i requires 0 <= i < |pc| => Result(pc[i]))
  }

  function Leaving(pc: seq<PC>, pc': seq<PC>): seq<seq<Message>> {
    seq(|pc|, i requires 0 <= i < |pc| => if i < |pc'| && pc'[i] == Idle then Result(pc[i]) else [])
  }

  /** The results of the calls of pop that are about to return. */
  function Held(pc: seq<PC>): seq<Message> {
    Concat(Results(pc))
  }

  /** The results of the calls of pop that return between two states. */
  function Handed(pc: seq<PC>, pc': seq<PC>): seq<Message> {
    Concat(Leaving(pc, pc'))
  }

  /** All that the calls of pop have returned in a run. */
  function Returned(states: seq<State>): seq<Message> {
    if |states| < 2 then []
    else Returned(states[..|states| - 1]) + Handed(states[|states| - 2].pc, states[|states| - 1].pc)
  }

  lemma HeldBy(s: State, t: nat)
    requires MutualExclusion(s) && t < |s.pc| && Holding(s.pc[t])
    ensures Held(s.pc) == Result(s.pc[t])
  {
    ConcatOne(Results(s.pc), t);
  }

  lemma HeldByNone(s: State)
    requires MutualExclusion(s) && s.owner.None?
    ensures Held(s.pc) == []
  {
    ConcatNone(Results(s.pc));
  }

  /** Of the threads with a result only the one that takes the step can return. */
  lemma OthersStay(s: State, t: nat, s': State, u: nat)
    requires MutualExclusion(s) && |s.sent| == |s.pc| && t < |s.pc| && Step(s, t, s') && u < |s.pc| && u != t
    ensures |s'.pc| == |s.pc| && (Result(s.pc[u]) != [] ==> s'.pc[u] == s.pc[u])
    ensures Result(s.pc[t]) != [] ==> s'.pc[t] == Idle
  {
  }

  lemma HandedBy(s: State, t: nat, s': State)
    requires MutualExclusion(s) && |s.sent| == |s.pc| && t < |s.pc| && |s'.pc| == |s.pc|
    requires Result(s.pc[t]) != [] ==> s'.pc[t] == Idle
    requires forall u | 0 <= u < |s.pc| && u != t && Result(s.pc[u]) != [] :: s'.pc[u] == s.pc[u]
    ensures Handed(s.pc, s'.pc) == Result(s.pc[t])
  {
    ConcatOne(Leaving(s.pc, s'.pc), t);
  }

  lemma StepHands(s: State, t: nat, s': State)
    requires MutualExclusion(s) && |s.sent| == |s.pc| && t < |s.pc| && Step(s, t, s')
    ensures Handed(s.pc, s'.pc) == Result(s.pc[t])
  {
    forall u | 0 <= u < |s.pc| && u != t && Result(s.pc[u]) != [] ensures s'.pc[u] == s.pc[u] {
      OthersStay(s, t, s', u);
    }
    assert |s'.pc| == |s.pc| && (Result(s.pc[t]) != [] ==> s'.pc[t] == Idle);
    HandedBy(s, t, s');
  }

  /** What leaves the queue in a step is held after it. */
  predicate HandsOn(s: State, s': State) {
    s.popped <= s'.popped && Held(s.pc) + s'.popped[|s.popped|..] == Handed(s.pc, s'.pc) + Held(s'.pc)
  }

  lemma HolderHandsOn(s: State, t: nat, s': State)
    requires Inv(s) && t < |s.pc| && Step(s, t, s') && Holding(s.pc[t])
    ensures HandsOn(s, s')
  {
    StepKeepsMutualExclusion(s, t, s');
    StepHands(s, t, s');
    HeldBy(s, t);
    if Holding(s'.pc[t]) { HeldBy(s', t); } else { HeldByNone(s'); }
  }

  lemma OtherHandsOn(s: State, t: nat, s': State)
    requires Inv(s) && t < |s.pc| && Step(s, t, s') && !Holding(s.pc[t])
    ensures HandsOn(s, s')
  {
    StepKeepsMutualExclusion(s, t, s');
    StepHands(s, t, s');
    if s.owner.None? {
      HeldByNone(s);
      if Holding(s'.pc[t]) { HeldBy(s', t); } else { HeldByNone(s'); }
    } else {
      OthersChangeNothing(s, t, s', s.owner.value);
      HeldBy(s, s.owner.value);
      HeldBy(s', s.owner.value);
    }
  }

  lemma RunPrefix(states: seq<State>)
    requires Run(states) && |states| > 1
    ensures Run(states[..|states| - 1])
  {
    var before := states[..|states| - 1];
    forall i | 0 <= i < |before| - 1 ensures Steps(before[i], before[i + 1]) {
      assert Steps(states[i], states[i + 1]);
    }
  }

  lemma Joined(r: seq<Message>, held: seq<Message>, popped: seq<Message>, handed: seq<Message>, held': seq<Message>,
               popped': seq<Message>)
    requires r + held == popped <= popped' && held + popped'[|popped|..] == handed + held'
    ensures r + handed + held' == popped'
  {
    assert r + handed + held' == r + (handed + held') == r + held + popped'[|popped|..];
  }

  lemma {:induction false} ReturnedIsPopped(states: seq<State>)
    requires Run(states) && Inv(states[0]) && states[0].popped == [] && Held(states[0].pc) == []
    ensures var last := states[|states| - 1]; Returned(states) + Held(last.pc) == last.popped
    decreases |states|
  {
    if |states| > 1 {
      var before := states[..|states| - 1];
      var s, s' := states[|states| - 2], states[|states| - 1];
      RunPrefix(states);
      ReturnedIsPopped(before);
      RunKeepsInv(states, |states| - 2);
      LastStepHandsOn(states);
      Joined(Returned(before), Held(s.pc), s.popped, Handed(s.pc, s'.pc), Held(s'.pc), s'.popped);
    }
  }

  lemma LastStepHandsOn(states: seq<State>)
    requires Run(states) && |states| > 1 && Inv(states[|states| - 2])
    ensures HandsOn(states[|states| - 2], states[|states| - 1])
  {
    var s, s' := states[|states| - 2], states[|states| - 1];
    assert Steps(states[|states| - 2], states[|states| - 2 + 1]);
    var t: nat :| t < |s.pc| && Step(s, t, s');
    if Holding(s.pc[t]) { HolderHandsOn(s, t, s'); } else { OtherHandsOn(s, t, s'); }
  }

  /**
   In every run: what the calls of pop have returned, followed by the one result still held under the mutex,
   is a prefix of what has been pushed; each message is returned once, and after its thread's earlier ones.
   */
  lemma ReturnedInOrder(threads: nat, states: seq<State>)
    requires Run(states) && states[0] == Initial(threads)
    ensures var last := states[|states| - 1];
            && |Held(last.pc)| <= 1 && Returned(states) + Held(last.pc) <= last.pushed
            && Distinct(Returned(states)) && InOrder(Returned(states))
  {
    InitialInv(threads);
    HeldByNone(states[0]);
    ReturnedIsPopped(states);
    RunKeepsInv(states, |states| - 1);
    var last, r := states[|states| - 1], Returned(states);
    if last.owner.Some? { HeldBy(last, last.owner.value); } else { HeldByNone(last); }
    assert r + Held(last.pc) <= last.pushed;
    assert forall i | 0 <= i < |r| :: r[i] == last.pushed[i];
    forall i, n: nat | 0 <= i < |r| && n < r[i].number ensures Message(r[i].sender, n) in r[..i] {
      assert last.pushed[..i] == r[..i];
    }
  }

  /** In every run: the mutex is exclusive, no waiter oversleeps a message, and the front is only taken of a queue that has one. */
  lemma QueueIsSafe(threads: nat, states: seq<State>, k: nat)
    requires Run(states) && states[0] == Initial(threads) && k < |states|
    ensures var s := states[k];
            && (forall t, u | 0 <= t < u < |s.pc| :: !(Holding(s.pc[t]) && Holding(s.pc[u])))
            && (s.queue != [] && (forall t | 0 <= t < |s.pc| :: s.pc[t] != PushNotify) ==>
                forall t | 0 <= t < |s.pc| :: s.pc[t] != Asleep(false))
            && (forall t | 0 <= t < |s.pc| && s.pc[t] == PopTake :: s.queue != [])
            && (forall t | 0 <= t < |s.pc| && s.pc[t] == PopUnlock(None) :: s.terminating)
  {
    InitialInv(threads);
    RunKeepsInv(states, k);
  }

  // ---------- termination ----------

  lemma {:induction false} TerminatingLasts(states: seq<State>, i: nat)
    requires Run(states) && states[0].terminating && Inv(states[0]) && i < |states|
    ensures states[i].terminating
  {
    if i > 0 {
      TerminatingLasts(states, i - 1);
      assert Steps(states[i - 1], states[i]);
    }
  }

  /** Terminating, and nobody about to take a message: from then on nothing leaves the queue any more. */
  predicate Closed(s: State) {
    s.terminating && forall t | 0 <= t < |s.pc| :: s.pc[t] != PopTake
  }

  lemma {:induction false} NothingLeavesOnceClosed(states: seq<State>, i: nat)
    requires Run(states) && Closed(states[0]) && i < |states|
    ensures Closed(states[i]) && states[i].popped == states[0].popped
  {
    if i > 0 {
      NothingLeavesOnceClosed(states, i - 1);
      assert Steps(states[i - 1], states[i]);
    }
  }

  /** Nobody is asleep un-notified, or has decided to go to sleep. */
  predicate Roused(s: State) {
    s.terminating && forall t | 0 <= t < |s.pc| :: s.pc[t] != Asleep(false) && s.pc[t] != PopWait
  }

  lemma {:induction false} RousedLasts(states: seq<State>, i: nat)
    requires Run(states) && Roused(states[0]) && i < |states|
    ensures Roused(states[i])
  {
    if i > 0 {
      RousedLasts(states, i - 1);
      assert Steps(states[i - 1], states[i]);
    }
  }

  predicate SomebodySleeps(s: State) {
    exists t :: 0 <= t < |s.pc| && s.pc[t] == Asleep(false)
  }

  /** A thread is asleep un-notified in the last state of the run. */
  ghost predicate SleepsOn(states: seq<State>) {
    states != [] && SomebodySleeps(states[|states| - 1])
  }

  /**
   Terminating wakes everybody, exactly unless a thread stands between its check
   and its wait at the moment of the notification: then it can go to sleep after
   it, because terminate does not take the mutex.
   */
  lemma TerminateWakesUnless(s: State, t: nat, s': State)
    requires Inv(s) && s.terminating && t < |s.pc| && s.pc[t] == TermNotify && Step(s, t, s')
    ensures (exists states: seq<State> :: Run(states) && states[0] == s' && SleepsOn(states))
            <==> exists u :: 0 <= u < |s.pc| && s.pc[u] == PopWait
  {
    if u :| 0 <= u < |s.pc| && s.pc[u] == PopWait {
      assert s'.pc[u] == PopWait;
      var s'' := s'.To(u, Asleep(false)).(owner := None);
      assert Step(s', u, s'') && Steps(s', s'');
      var states := [s', s''];
      assert s''.pc[u] == Asleep(false) && SomebodySleeps(s'');
      assert Run(states) && states[0] == s' && SleepsOn(states);
    } else {
      assert Roused(s');
      forall states: seq<State> | Run(states) && states[0] == s' ensures !SleepsOn(states) {
        RousedLasts(states, |states| - 1);
      }
    }
  }

  /** Two threads and an empty queue. */
  function Two(terminating: bool, owner: Option<nat>, p: PC, q: PC): State {
    State([], terminating, owner, [p, q], [0, 0], [], [])
  }

  lemma Extend(states: seq<State>, t: nat, s: State)
    requires Run(states)
    requires var last := states[|states| - 1]; t < |last.pc| && |last.sent| == |last.pc| && Step(last, t, s)
    ensures Run(states + [s])
  {
    var longer := states + [s];
    forall i | 0 <= i < |longer| - 1 ensures Steps(longer[i], longer[i + 1]) {
      if i < |states| - 1 { assert Steps(states[i], states[i + 1]); }
    }
  }

  /** One thread checks, another terminates and is done, the first goes to sleep. */
  lemma LostWakeUp() returns (states: seq<State>)
    ensures Run(states) && states[0] == Initial(2)
    ensures states[|states| - 1] == Two(true, None, Asleep(false), Idle)
  {
    states := [Two(false, None, Idle, Idle)];
    assert states[0] == Initial(2);
    var run := [(0, Two(false, None, PopLock, Idle)), (0, Two(false, Some(0), PopCheck, Idle)), (0, Two(false, Some(0), PopWait, Idle)),
                (1, Two(false, Some(0), PopWait, TermSet)), (1, Two(true, Some(0), PopWait, TermNotify)),
                (1, Two(true, Some(0), PopWait, Idle)), (0, Two(true, None, Asleep(false), Idle))];
    for i := 0 to |run|
      invariant Run(states) && states[0] == Initial(2)
      invariant states[|states| - 1] == if i == 0 then Two(false, None, Idle, Idle) else run[i - 1].1
    {
      Extend(states, run[i].0, run[i].1);
      states := states + [run[i].1];
    }
  }
}

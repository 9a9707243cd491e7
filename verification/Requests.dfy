/** Request/response matching: callers inside `send_and_wait`, the receiver thread inside `_dispatch_message`,
    and every interleaving of their atomic steps. */
module Requests {
  import opened Wrappers

  type Id = string

  /** `replyTo` is empty when the message answers nothing. */
  datatype Message = Message(serial: nat, replyTo: Id)

  /** Where a caller stands in `send_and_wait`.  `woke` says that its wait returned true. */
  datatype Phase =
    | Registered
    | Waiting
    | Woken
    | Leaving(result: Option<Message>, woke: bool)
    | Done(result: Option<Message>, woke: bool)
  {
    /** The caller has not yet looked for its answer. */
    predicate Expecting() { Registered? || Waiting? || Woken? }
  }

  datatype Call = Call(id: Id, phase: Phase)

  /** Where the receiver stands in `_dispatch_message`: between messages, past the membership test, past the
      store, holding the event it looked up, or killed by the `KeyError` of that look-up.  `found` is the call the
      membership test found, `target` the one the look-up found. */
  datatype Receiver =
    | Ready
    | Storing(m: Message, found: nat)
    | Stored(m: Message, found: nat)
    | Signalling(m: Message, found: nat, target: nat)
    | Crashed(m: Message, found: nat)

  /** The dictionaries of the protocol object, the callers' events, the threads, and what became of messages. */
  datatype State = State(
    pending: map<Id, nat>,          // _pending_responses: the caller whose event is registered
    data: map<Id, Message>,         // _response_data
    events: set<nat>,               // callers whose event is set
    calls: map<nat, Call>,
    owner: map<Id, nat>,            // the call that last registered under each id
    receiver: Receiver,
    received: multiset<Message>,    // every message handed to _dispatch_message
    handled: multiset<Message>,     // went to the registered handlers
    returned: multiset<Message>,    // popped by a caller
    overwritten: multiset<Message>) // replaced in _response_data by a later answer

  const INIT := State(map[], map[], {}, map[], map[], Ready, multiset{}, multiset{}, multiset{}, multiset{})

  datatype Label =
    | Register(c: nat, id: Id)
    | SendFails(c: nat)
    | SendSucceeds(c: nat)
    | Wake(c: nat)
    | TimeOut(c: nat)
    | Pop(c: nat)
    | Unregister(c: nat)
    | Receive(m: Message)
    | Store
    | LookUp
    | SetEvent

  predicate At(s: State, c: nat, phase: Phase) { c in s.calls && s.calls[c].phase == phase }

  function Move(s: State, c: nat, phase: Phase): State
    requires c in s.calls
  {
    s.(calls := s.calls[c := s.calls[c].(phase := phase)])
  }

  /** One atomic step; `None` when it is not enabled. */
  function Step(s: State, l: Label): Option<State> {
    match l
    case Register(c, id) =>
      if c in s.calls then None
      else
        Some(s.(pending := s.pending[id := c], calls := s.calls[c := Call(id, Registered)], owner := s.owner[id := c]))
    case SendFails(c) =>
      if At(s, c, Registered) then Some(Move(s, c, Leaving(None, false))) else None
    case SendSucceeds(c) =>
      if At(s, c, Registered) then Some(Move(s, c, Waiting)) else None
    case Wake(c) =>
      if At(s, c, Waiting) && c in s.events then Some(Move(s, c, Woken)) else None
    case TimeOut(c) =>
      if At(s, c, Waiting) && c !in s.events then Some(Move(s, c, Leaving(None, false))) else None
    case Pop(c) =>
      if !At(s, c, Woken) then None
      else
        var id := s.calls[c].id;
        if id in s.data then
          Some(Move(s, c, Leaving(Some(s.data[id]), true))
               .(data := s.data - {id}, returned := s.returned + multiset{s.data[id]}))
        else Some(Move(s, c, Leaving(None, true)))
    case Unregister(c) =>
      if !(c in s.calls && s.calls[c].phase.Leaving?) then None
      else
        var p := s.calls[c].phase;
        Some(Move(s, c, Done(p.result, p.woke)).(pending := s.pending - {s.calls[c].id}))
    case Receive(m) =>
      if s.receiver != Ready then None
      else
        var s1 := s.(received := s.received + multiset{m});
        if m.replyTo != "" && m.replyTo in s.pending then
          Some(s1.(receiver := Storing(m, s.pending[m.replyTo])))
        else Some(s1.(handled := s.handled + multiset{m}))
    case Store =>
      if !s.receiver.Storing? then None
      else
        var m := s.receiver.m;
        var lost := if m.replyTo in s.data then multiset{s.data[m.replyTo]} else multiset{};
        Some(s.(data := s.data[m.replyTo := m], receiver := Stored(m, s.receiver.found),
                overwritten := s.overwritten + lost))
    case LookUp =>
      if !s.receiver.Stored? then None
      else
        var m, found := s.receiver.m, s.receiver.found;
        if m.replyTo in s.pending then Some(s.(receiver := Signalling(m, found, s.pending[m.replyTo])))
        else Some(s.(receiver := Crashed(m, found)))
    case SetEvent =>
      if !s.receiver.Signalling? then None
      else Some(s.(events := s.events + {s.receiver.target}, receiver := Ready))
  }

  /** The state after a run, if every step of it was enabled. */
  function Run(s: State, ls: seq<Label>): Option<State>
    decreases |ls|
  {
    if ls == [] then Some(s)
    else
      var next := Step(s, ls[0]);
      if next.None? then None else Run(next.value, ls[1..])
  }

  /** No two calls of the run use the same message id. */
  predicate DistinctIds(ls: seq<Label>) {
    forall i, j :: 0 <= i < j < |ls| && ls[i].Register? && ls[j].Register? ==> ls[i].id != ls[j].id
  }

  // ---------------------------------------------------------------------------------------------
  // The invariant
  // ---------------------------------------------------------------------------------------------

  /** Every stored answer answers the request it is stored under. */
  predicate AnswersMatch(s: State) {
    forall k <- s.data :: s.data[k].replyTo == k && k in s.owner
  }

  /** An answer stored for a call that still expects it has its event set, or the receiver is about to. */
  predicate Signalled(s: State) {
    forall c <- s.calls :: s.calls[c].phase.Expecting() && s.calls[c].id in s.data ==>
      c in s.events || ((s.receiver.Stored? || s.receiver.Signalling?) && s.receiver.found == c)
  }

  /** How often `x` is stored, and how often it is in the receiver's hands. */
  function Kept(s: State, x: Message): nat {
    if x.replyTo in s.data && s.data[x.replyTo] == x then 1 else 0
  }

  function InHand(s: State, x: Message): nat {
    if s.receiver.Storing? && s.receiver.m == x then 1 else 0
  }

  /** Every message received is with the handlers, returned, overwritten, stored, or in the receiver's hands:
      each as often as it was received. */
  ghost predicate Conserved(s: State) {
    forall x: Message :: Balanced(s, x)
  }

  predicate Balanced(s: State, x: Message) {
    s.received[x] == s.handled[x] + s.returned[x] + s.overwritten[x] + Kept(s, x) + InHand(s, x)
  }

  /** Each call is the one owner of its id, so no two calls share an id. */
  predicate CallsDistinct(s: State) {
    forall c <- s.calls :: s.calls[c].id in s.owner && s.owner[s.calls[c].id] == c
  }

  /** The registered events are those of the calls that have not finished. */
  predicate PendingIsOpen(s: State) {
    && (forall k <- s.pending :: k in s.owner && s.pending[k] == s.owner[k] && s.owner[k] in s.calls)
    && (forall k <- s.owner :: s.owner[k] in s.calls && s.calls[s.owner[k]].id == k)
    && (forall c <- s.calls :: !s.calls[c].phase.Done? <==> s.calls[c].id in s.pending)
  }

  /** A set event means that the answer is stored until its caller has taken it. */
  predicate EventsHonest(s: State) {
    && (forall c <- s.calls :: c in s.events && s.calls[c].phase.Expecting() ==> s.calls[c].id in s.data)
    && (forall c <- s.calls :: s.calls[c].phase.Woken? ==> c in s.events)
    && (forall c <- s.events :: c in s.calls)
  }

  /** The receiver works on an answer to a call; once stored, the answer is there if that call expects it. */
  predicate ReceiverHonest(s: State) {
    s.receiver != Ready ==>
      var c := s.receiver.found;
      && c in s.calls && s.calls[c].id == s.receiver.m.replyTo != ""
      && (s.receiver.Stored? || s.receiver.Signalling? ==> s.calls[c].phase.Expecting() ==> s.calls[c].id in s.data)
      && (s.receiver.Signalling? ==> s.receiver.target == c)
      && (s.receiver.Crashed? ==> s.calls[c].phase.Done?)
  }

  /** A wait that returned true has the answer to its own request; any other call returns nothing. */
  predicate ResultsRight(s: State) {
    forall c <- s.calls :: s.calls[c].phase.Leaving? || s.calls[c].phase.Done? ==>
      var p := s.calls[c].phase;
      if p.woke then p.result.Some? && p.result.value.replyTo == s.calls[c].id else p.result.None?
  }

  /** The part of the invariant that is about the calls and the dictionaries. */
  predicate Structure(s: State) {
    && AnswersMatch(s) && CallsDistinct(s) && PendingIsOpen(s)
    && EventsHonest(s) && ReceiverHonest(s) && ResultsRight(s) && Signalled(s)
  }

  ghost predicate Inv(s: State) { Structure(s) && Conserved(s) }

  /** `l` does not reuse the id of an earlier call. */
  predicate Fresh(s: State, l: Label) {
    l.Register? ==> l.id !in s.owner
  }

  lemma PopBalanced(s: State, c: nat, x: Message)
    requires Balanced(s, x) && AnswersMatch(s) && Step(s, Pop(c)).Some?
    ensures Balanced(Step(s, Pop(c)).value, x)
  {
    var id, t := s.calls[c].id, Step(s, Pop(c)).value;
    if id in s.data {
      assert t.returned == s.returned + multiset{s.data[id]};
      assert Kept(s, x) == Kept(t, x) + (if s.data[id] == x then 1 else 0);
    }
  }

  lemma ReceiveBalanced(s: State, m: Message, x: Message)
    requires Balanced(s, x) && Step(s, Receive(m)).Some?
    ensures Balanced(Step(s, Receive(m)).value, x)
  {
    var t := Step(s, Receive(m)).value;
    assert t.received == s.received + multiset{m};
    assert t.handled == s.handled + (if t.receiver.Storing? then multiset{} else multiset{m});
  }

  lemma StoreBalanced(s: State, x: Message)
    requires Balanced(s, x) && AnswersMatch(s) && Step(s, Store).Some?
    ensures Balanced(Step(s, Store).value, x)
  {
    var id, t := s.receiver.m.replyTo, Step(s, Store).value;
    var lost := if id in s.data then multiset{s.data[id]} else multiset{};
    assert t.overwritten == s.overwritten + lost;
    assert Kept(t, x) + lost[x] == Kept(s, x) + InHand(s, x);
  }

  lemma StepBalanced(s: State, l: Label, x: Message)
    requires Balanced(s, x) && AnswersMatch(s) && Step(s, l).Some?
    ensures Balanced(Step(s, l).value, x)
  {
    hide Balanced, Step;
    match l
    case Pop(c) => PopBalanced(s, c, x);
    case Receive(m) => ReceiveBalanced(s, m, x);
    case Store => StoreBalanced(s, x);
    case _ => OtherBalanced(s, l, x);
  }

  lemma OtherBalanced(s: State, l: Label, x: Message)
    requires Balanced(s, x) && Step(s, l).Some? && !l.Pop? && !l.Receive? && !l.Store?
    ensures Balanced(Step(s, l).value, x)
  {
  }

  lemma StepConserves(s: State, l: Label)
    requires Inv(s) && Step(s, l).Some?
    ensures Conserved(Step(s, l).value)
  {
    hide Step;
    forall x: Message ensures Balanced(Step(s, l).value, x) {
      StepBalanced(s, l, x);
    }
  }

  lemma RegisterKeeps(s: State, c: nat, id: Id)
    requires Structure(s) && Step(s, Register(c, id)).Some? && Fresh(s, Register(c, id))
    ensures Structure(Step(s, Register(c, id)).value)
  {
    hide CallsDistinct, PendingIsOpen, EventsHonest, ReceiverHonest, ResultsRight, Signalled;
    RegisterPending(s, c, id);
    RegisterCalls(s, c, id);
    RegisterSignalled(s, c, id);
  }

  lemma RegisterSignalled(s: State, c: nat, id: Id)
    requires AnswersMatch(s) && Signalled(s) && Step(s, Register(c, id)).Some? && Fresh(s, Register(c, id))
    ensures Signalled(Step(s, Register(c, id)).value)
  {
  }

  lemma RegisterPending(s: State, c: nat, id: Id)
    requires CallsDistinct(s) && PendingIsOpen(s) && Step(s, Register(c, id)).Some? && Fresh(s, Register(c, id))
    ensures CallsDistinct(Step(s, Register(c, id)).value) && PendingIsOpen(Step(s, Register(c, id)).value)
  {
  }

  lemma RegisterCalls(s: State, c: nat, id: Id)
    requires EventsHonest(s) && ReceiverHonest(s) && ResultsRight(s) && Step(s, Register(c, id)).Some?
    ensures var t := Step(s, Register(c, id)).value; EventsHonest(t) && ReceiverHonest(t) && ResultsRight(t)
  {
  }

  /** A call moves on without touching the dictionaries. */
  lemma MoveKeeps(s: State, c: nat, phase: Phase)
    requires Structure(s) && c in s.calls && !s.calls[c].phase.Done? && !phase.Done?
    requires phase.Expecting() ==> s.calls[c].phase.Expecting()
    requires phase.Woken? ==> c in s.events
    requires phase.Leaving? ==>
               if phase.woke then phase.result.Some? && phase.result.value.replyTo == s.calls[c].id
               else phase.result.None?
    ensures Structure(Move(s, c, phase))
  {
    hide CallsDistinct, PendingIsOpen, EventsHonest, ReceiverHonest, ResultsRight, Signalled;
    MovePending(s, c, phase);
    MoveHonest(s, c, phase);
  }

  lemma MovePending(s: State, c: nat, phase: Phase)
    requires CallsDistinct(s) && PendingIsOpen(s) && c in s.calls && !s.calls[c].phase.Done? && !phase.Done?
    ensures CallsDistinct(Move(s, c, phase)) && PendingIsOpen(Move(s, c, phase))
  {
    var t := Move(s, c, phase);
    assert t.calls.Keys == s.calls.Keys && forall d <- s.calls :: t.calls[d].id == s.calls[d].id;
  }

  lemma MoveHonest(s: State, c: nat, phase: Phase)
    requires EventsHonest(s) && ReceiverHonest(s) && ResultsRight(s) && Signalled(s)
    requires c in s.calls && !s.calls[c].phase.Done? && !phase.Done?
    requires phase.Expecting() ==> s.calls[c].phase.Expecting()
    requires phase.Woken? ==> c in s.events
    requires phase.Leaving? ==>
               if phase.woke then phase.result.Some? && phase.result.value.replyTo == s.calls[c].id
               else phase.result.None?
    ensures var t := Move(s, c, phase); EventsHonest(t) && ReceiverHonest(t) && ResultsRight(t) && Signalled(t)
  {
    var t := Move(s, c, phase);
    assert t.calls.Keys == s.calls.Keys && forall d <- s.calls :: t.calls[d].id == s.calls[d].id;
  }

  lemma PopKeeps(s: State, c: nat)
    requires Structure(s) && Step(s, Pop(c)).Some?
    ensures Structure(Step(s, Pop(c)).value)
  {
    var id := s.calls[c].id;
    assert id in s.data;
    var m := Move(s, c, Leaving(Some(s.data[id]), true));
    MoveKeeps(s, c, Leaving(Some(s.data[id]), true));
    assert Step(s, Pop(c)).value.calls == m.calls;
  }

  lemma UnregisterKeeps(s: State, c: nat)
    requires Structure(s) && Step(s, Unregister(c)).Some?
    ensures Structure(Step(s, Unregister(c)).value)
  {
    hide CallsDistinct, PendingIsOpen, EventsHonest, ReceiverHonest, ResultsRight, Signalled;
    UnregisterPending(s, c);
    UnregisterCalls(s, c);
    UnregisterSignalled(s, c);
  }

  lemma UnregisterSignalled(s: State, c: nat)
    requires Signalled(s) && Step(s, Unregister(c)).Some?
    ensures Signalled(Step(s, Unregister(c)).value)
  {
  }

  lemma UnregisterPending(s: State, c: nat)
    requires CallsDistinct(s) && PendingIsOpen(s) && Step(s, Unregister(c)).Some?
    ensures CallsDistinct(Step(s, Unregister(c)).value) && PendingIsOpen(Step(s, Unregister(c)).value)
  {
    var t := Step(s, Unregister(c)).value;
    assert t.calls.Keys == s.calls.Keys && forall d <- s.calls :: t.calls[d].id == s.calls[d].id;
  }

  lemma UnregisterCalls(s: State, c: nat)
    requires EventsHonest(s) && ReceiverHonest(s) && ResultsRight(s) && Step(s, Unregister(c)).Some?
    ensures var t := Step(s, Unregister(c)).value; EventsHonest(t) && ReceiverHonest(t) && ResultsRight(t)
  {
    var t := Step(s, Unregister(c)).value;
    assert t.calls.Keys == s.calls.Keys && forall d <- s.calls :: t.calls[d].id == s.calls[d].id;
  }

  lemma ReceiveKeeps(s: State, m: Message)
    requires Structure(s) && Step(s, Receive(m)).Some?
    ensures Structure(Step(s, Receive(m)).value)
  {
    hide AnswersMatch, CallsDistinct, EventsHonest, ResultsRight;
    SameDictionaries(s, Step(s, Receive(m)).value);
  }

  /** What is about calls, events and dictionaries alone. */
  lemma SameDictionaries(s: State, t: State)
    requires t.calls == s.calls && t.owner == s.owner && t.pending == s.pending
    requires t.data == s.data && t.events == s.events
    ensures AnswersMatch(s) == AnswersMatch(t) && CallsDistinct(s) == CallsDistinct(t)
    ensures PendingIsOpen(s) == PendingIsOpen(t) && EventsHonest(s) == EventsHonest(t)
    ensures ResultsRight(s) == ResultsRight(t)
  {
  }

  lemma StoreKeeps(s: State)
    requires Structure(s) && Step(s, Store).Some?
    ensures Structure(Step(s, Store).value)
  {
  }

  lemma LookUpKeeps(s: State)
    requires Structure(s) && Step(s, LookUp).Some?
    ensures Structure(Step(s, LookUp).value)
  {
    hide AnswersMatch, EventsHonest, ResultsRight;
    SameDictionaries(s, Step(s, LookUp).value);
  }

  lemma SetEventKeeps(s: State)
    requires Structure(s) && Step(s, SetEvent).Some?
    ensures Structure(Step(s, SetEvent).value)
  {
  }

  lemma StepKeepsStructure(s: State, l: Label)
    requires Structure(s) && Step(s, l).Some? && Fresh(s, l)
    ensures Structure(Step(s, l).value)
  {
    hide Structure;
    match l
    case Register(c, id) => RegisterKeeps(s, c, id);
    case SendFails(c) => MoveKeeps(s, c, Leaving(None, false));
    case SendSucceeds(c) => MoveKeeps(s, c, Waiting);
    case Wake(c) => MoveKeeps(s, c, Woken);
    case TimeOut(c) => MoveKeeps(s, c, Leaving(None, false));
    case Pop(c) => PopKeeps(s, c);
    case Unregister(c) => UnregisterKeeps(s, c);
    case Receive(m) => ReceiveKeeps(s, m);
    case Store => StoreKeeps(s);
    case LookUp => LookUpKeeps(s);
    case SetEvent => SetEventKeeps(s);
  }

  /** The run reuses no id, neither its own nor one used before it. */
  predicate FreshRun(s: State, ls: seq<Label>) {
    DistinctIds(ls) && forall i :: 0 <= i < |ls| ==> Fresh(s, ls[i])
  }

  lemma FreshTail(s: State, ls: seq<Label>)
    requires ls != [] && FreshRun(s, ls) && Step(s, ls[0]).Some?
    ensures FreshRun(Step(s, ls[0]).value, ls[1..])
  {
    var tail := ls[1..];
    forall i, j | 0 <= i < j < |tail| && tail[i].Register? && tail[j].Register? ensures tail[i].id != tail[j].id {
      assert tail[i] == ls[i + 1] && tail[j] == ls[j + 1];
    }
    forall i | 0 <= i < |tail| ensures Fresh(Step(s, ls[0]).value, tail[i]) {
      assert tail[i] == ls[i + 1];
      assert ls[0].Register? && tail[i].Register? ==> ls[0].id != ls[i + 1].id;
    }
  }

  /** Every run with distinct message ids keeps the invariant, whatever the interleaving. */
  lemma {:induction false} RunKeepsInv(s: State, ls: seq<Label>)
    requires Inv(s) && Run(s, ls).Some? && FreshRun(s, ls)
    ensures Inv(Run(s, ls).value)
    decreases |ls|
  {
    if ls != [] {
      var t := Step(s, ls[0]).value;
      StepKeepsStructure(s, ls[0]);
      StepConserves(s, ls[0]);
      FreshTail(s, ls);
      RunKeepsInv(t, ls[1..]);
    }
  }

  /** MATCHING.  Over every interleaving of callers, timeouts and the dispatcher: stored answers answer their
      key; a caller whose wait returned true gets an answer to its own request, and only such a caller gets
      anything; every message received is in exactly one place, so none went both to a waiter and to handlers. */
  lemma Matching(ls: seq<Label>)
    requires DistinctIds(ls) && Run(INIT, ls).Some?
    ensures var s := Run(INIT, ls).value;
            && AnswersMatch(s) && ResultsRight(s) && Conserved(s)
            && (forall c <- s.calls :: s.calls[c].phase.Woken? ==> s.calls[c].id in s.data)
  {
    RunKeepsInv(INIT, ls);
  }

  /** WAKING.  Whenever the receiver is between messages, a waiting call whose answer is stored can wake and cannot time
      out; waking, it takes that answer, which is then stored no more. */
  lemma AnswerWakes(ls: seq<Label>, c: nat)
    requires DistinctIds(ls) && Run(INIT, ls).Some?
    requires var s := Run(INIT, ls).value;
             s.receiver == Ready && At(s, c, Waiting) && s.calls[c].id in s.data
    ensures var s := Run(INIT, ls).value;
            && Step(s, TimeOut(c)).None? && Step(s, Wake(c)).Some?
            && var t := Step(Step(s, Wake(c)).value, Pop(c));
               && t.Some? && At(t.value, c, Leaving(Some(s.data[s.calls[c].id]), true))
               && s.calls[c].id !in t.value.data
  {
    RunKeepsInv(INIT, ls);
  }

  /** ROUTING.  Between messages the receiver takes a message for a call if and only if it answers a call that is not
      over: for that very call; any other message goes to the handlers. */
  lemma TakenIff(ls: seq<Label>, m: Message)
    requires DistinctIds(ls) && Run(INIT, ls).Some? && Run(INIT, ls).value.receiver == Ready
    ensures var s := Run(INIT, ls).value;
            var t := Step(s, Receive(m));
            && t.Some?
            && (t.value.receiver.Storing? <==>
                  m.replyTo != "" && exists c :: c in s.calls && s.calls[c].id == m.replyTo && !s.calls[c].phase.Done?)
            && (forall c <- s.calls :: t.value.receiver.Storing? && s.calls[c].id == m.replyTo ==>
                  t.value.receiver == Storing(m, c))
            && (if t.value.receiver.Storing? then t.value.handled == s.handled
                else t.value.receiver == Ready && t.value.handled == s.handled + multiset{m})
  {
    RunKeepsInv(INIT, ls);
    var s := Run(INIT, ls).value;
    if m.replyTo in s.pending {
      var c := s.pending[m.replyTo];
      assert s.calls[c].id == m.replyTo && !s.calls[c].phase.Done?;
    }
  }

  /** ANSWERED.  From every reachable state in which a call waits and the receiver is between messages, an answer that
      arrives is stored, signalled, waited for and returned: the call ends with it. */
  lemma Answered(ls: seq<Label>, c: nat, m: Message)
    requires DistinctIds(ls) && Run(INIT, ls).Some?
    requires var s := Run(INIT, ls).value;
             s.receiver == Ready && At(s, c, Waiting) && s.calls[c].id == m.replyTo != ""
    ensures var s := Run(INIT, ls).value;
            var end := Run(s, [Receive(m), Store, LookUp, SetEvent, Wake(c), Pop(c), Unregister(c)]);
            && end.Some? && At(end.value, c, Done(Some(m), true))
            && end.value.receiver == Ready && m.replyTo !in end.value.data && m.replyTo !in end.value.pending
  {
    hide DistinctIds, Step, Run;
    RunKeepsInv(INIT, ls);
    var s := Run(INIT, ls).value;
    WaiterIsPending(s, c);
    Dispatched(s, c, m);
    var there, back := [Receive(m), Store, LookUp, SetEvent], [Wake(c), Pop(c), Unregister(c)];
    Returned(Run(s, there).value, c, m);
    RunConcat(s, there, back);
    assert there + back == [Receive(m), Store, LookUp, SetEvent, Wake(c), Pop(c), Unregister(c)];
  }

  /** The receiver's four steps. */
  lemma Dispatched(s: State, c: nat, m: Message)
    requires s.receiver == Ready && At(s, c, Waiting) && s.calls[c].id == m.replyTo != ""
    requires m.replyTo in s.pending && s.pending[m.replyTo] == c
    ensures var t := Run(s, [Receive(m), Store, LookUp, SetEvent]);
            && t.Some? && t.value.calls == s.calls && t.value.receiver == Ready && c in t.value.events
            && t.value.data == s.data[m.replyTo := m] && t.value.pending == s.pending
  {
    hide Step, Run;
    ReceiveStore(s, c, m);
    var s2 := Step(Step(s, Receive(m)).value, Store).value;
    LookUpSet(s2, c, m);
    RunNone(Step(Step(s2, LookUp).value, SetEvent).value);
    RunCons(Step(s2, LookUp).value, SetEvent, []);
    RunCons(s2, LookUp, [SetEvent]);
    RunCons(Step(s, Receive(m)).value, Store, [LookUp, SetEvent]);
    RunCons(s, Receive(m), [Store, LookUp, SetEvent]);
    assert [SetEvent] + [] == [SetEvent] && [LookUp] + [SetEvent] == [LookUp, SetEvent];
    assert [Store] + [LookUp, SetEvent] == [Store, LookUp, SetEvent];
    assert [Receive(m)] + [Store, LookUp, SetEvent] == [Receive(m), Store, LookUp, SetEvent];
  }

  lemma RunNone(s: State)
    ensures Run(s, []) == Some(s)
  {
  }

  lemma ReceiveStore(s: State, c: nat, m: Message)
    requires s.receiver == Ready && m.replyTo != "" && m.replyTo in s.pending && s.pending[m.replyTo] == c
    ensures Step(s, Receive(m)).Some?
    ensures var t := Step(Step(s, Receive(m)).value, Store);
            && t.Some? && t.value.receiver == Receiver.Stored(m, c) && t.value.data == s.data[m.replyTo := m]
            && t.value.calls == s.calls && t.value.pending == s.pending
  {
  }

  lemma LookUpSet(s: State, c: nat, m: Message)
    requires s.receiver == Receiver.Stored(m, c) && m.replyTo in s.pending && s.pending[m.replyTo] == c
    ensures Step(s, LookUp).Some?
    ensures var t := Step(Step(s, LookUp).value, SetEvent);
            && t.Some? && t.value.receiver == Ready && t.value.events == s.events + {c}
            && t.value.calls == s.calls && t.value.pending == s.pending && t.value.data == s.data
  {
  }

  /** The caller's three. */
  lemma Returned(s: State, c: nat, m: Message)
    requires At(s, c, Waiting) && c in s.events && m.replyTo == s.calls[c].id
    requires m.replyTo in s.data && s.data[m.replyTo] == m
    ensures var t := Run(s, [Wake(c), Pop(c), Unregister(c)]);
            && t.Some? && At(t.value, c, Done(Some(m), true)) && t.value.receiver == s.receiver
            && m.replyTo !in t.value.data && m.replyTo !in t.value.pending
  {
    var s1 := Step(s, Wake(c)).value;
    var s2 := Step(s1, Pop(c)).value;
    RunCons(s2, Unregister(c), []);
    RunCons(s1, Pop(c), [Unregister(c)]);
    RunCons(s, Wake(c), [Pop(c), Unregister(c)]);
  }

  lemma {:induction false} RunConcat(s: State, a: seq<Label>, b: seq<Label>)
    requires Run(s, a).Some?
    ensures Run(s, a + b) == Run(Run(s, a).value, b)
    decreases |a|
  {
    if a == [] {
      assert a + b == b;
    } else {
      assert (a + b)[1..] == a[1..] + b;
      RunConcat(Step(s, a[0]).value, a[1..], b);
    }
  }

  lemma WaiterIsPending(s: State, c: nat)
    requires CallsDistinct(s) && PendingIsOpen(s) && At(s, c, Waiting)
    ensures s.calls[c].id in s.pending && s.pending[s.calls[c].id] == c
  {
  }

  lemma RunCons(s: State, l: Label, ls: seq<Label>)
    requires Step(s, l).Some?
    ensures Run(s, [l] + ls) == Run(Step(s, l).value, ls)
  {
    assert ([l] + ls)[1..] == ls;
  }

  /** The receiver dies looking the event up if and only if the call it is answering has left in the meantime. */
  lemma CrashIff(ls: seq<Label>)
    requires DistinctIds(ls) && Run(INIT, ls).Some?
    requires Run(INIT, ls).value.receiver.Stored?
    ensures var s := Run(INIT, ls).value;
            && s.receiver.found in s.calls
            && (Step(s, LookUp).value.receiver.Crashed? <==> s.calls[s.receiver.found].phase.Done?)
  {
    RunKeepsInv(INIT, ls);
  }

  /** An answer left behind by a call that is over stays in the dictionary for ever. */
  lemma {:induction false} OrphansStay(s: State, ls: seq<Label>, c: nat)
    requires Inv(s) && Run(s, ls).Some? && FreshRun(s, ls)
    requires c in s.calls && s.calls[c].phase.Done? && s.calls[c].id in s.data
    ensures s.calls[c].id in Run(s, ls).value.data
    decreases |ls|
  {
    hide Structure, Conserved, Step;
    if ls != [] {
      StepKeepsStructure(s, ls[0]);
      StepConserves(s, ls[0]);
      FreshTail(s, ls);
      OrphanStays(s, ls[0], c);
      OrphansStay(Step(s, ls[0]).value, ls[1..], c);
    }
  }

  lemma OrphanStays(s: State, l: Label, c: nat)
    requires Structure(s) && Step(s, l).Some?
    requires c in s.calls && s.calls[c].phase.Done? && s.calls[c].id in s.data
    ensures var t := Step(s, l).value; c in t.calls && t.calls[c] == s.calls[c] && t.calls[c].id in t.data
  {
  }

  lemma {:induction false} RunSnoc(s: State, ls: seq<Label>, l: Label)
    requires Run(s, ls).Some?
    ensures Run(s, ls + [l]) == Step(Run(s, ls).value, l)
    decreases |ls|
  {
    if ls == [] {
      assert ls + [l] == [l] && [l][1..] == ls;
    } else {
      RunSnoc(Step(s, ls[0]).value, ls[1..], l);
      assert (ls + [l])[1..] == ls[1..] + [l];
    }
  }

  /** A run in which the waiter times out between the store and the look-up: the receiver is killed and the
      answer is left behind. */
  lemma CrashHappens()
    ensures exists ls :: DistinctIds(ls) && Run(INIT, ls).Some? && Run(INIT, ls).value.receiver.Crashed?
                         && Run(INIT, ls).value.data != map[]
  {
    hide Run, Step;
    var m := Message(1, "a");
    var ls := AnswerStored(0, m);
    var steps := [TimeOut(0), Unregister(0), LookUp];
    CrashSteps(Run(INIT, ls).value, m);
    RunSnoc(INIT, ls, steps[0]);
    RunSnoc(INIT, ls + [steps[0]], steps[1]);
    RunSnoc(INIT, ls + [steps[0]] + [steps[1]], steps[2]);
    var all := ls + [steps[0]] + [steps[1]] + [steps[2]];
    assert forall i :: 0 < i < |all| ==> !all[i].Register?;
    assert DistinctIds(all);
  }

  lemma CrashSteps(s: State, m: Message)
    requires s.calls == map[0 := Call(m.replyTo, Waiting)] && s.events == {} && s.pending == map[m.replyTo := 0]
    requires s.data == map[m.replyTo := m] && s.receiver == Receiver.Stored(m, 0)
    ensures Step(s, TimeOut(0)).Some? && Step(Step(s, TimeOut(0)).value, Unregister(0)).Some?
    ensures var t := Step(Step(Step(s, TimeOut(0)).value, Unregister(0)).value, LookUp);
            t.Some? && t.value.receiver.Crashed? && t.value.data != map[]
  {
    assert m.replyTo in s.data;
  }

  /** One call is registered and sent, and its answer `m` is stored. */
  lemma AnswerStored(c: nat, m: Message) returns (ls: seq<Label>)
    requires m.replyTo != ""
    ensures ls == [Register(c, m.replyTo)] + [SendSucceeds(c)] + [Receive(m)] + [Store]
    ensures DistinctIds(ls) && Run(INIT, ls).Some?
    ensures var s := Run(INIT, ls).value;
            && s.calls == map[c := Call(m.replyTo, Waiting)] && s.pending == map[m.replyTo := c]
            && s.data == map[m.replyTo := m] && s.events == {} && s.receiver == Receiver.Stored(m, c)
  {
    ls := [Register(c, m.replyTo)];
    RunSnoc(INIT, [], Register(c, m.replyTo));
    assert [] + ls == ls;
    RunSnoc(INIT, ls, SendSucceeds(c));
    RunSnoc(INIT, ls + [SendSucceeds(c)], Receive(m));
    RunSnoc(INIT, ls + [SendSucceeds(c)] + [Receive(m)], Store);
    ls := ls + [SendSucceeds(c)] + [Receive(m)] + [Store];
  }
}

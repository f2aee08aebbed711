/** How the scheduler thread wakes executors: one-shot polls, messages between rings and posts to
  * a port, counted over whole runs.
  */
module WakeProtocol {

  // ---------- Messages ----------

  /** A completion: its result, and the user data that names an executor. */
  datatype Completion = Completion(res: int, data: nat)

  /** What a completion on the scheduler's ring means. */
  datatype Event =
    | PollIn(e: nat)       // a poll on executor `e` fired
    | Poll(e: nat)         // `e` asks for its next poll
    | Register(e: nat)
    | Unregister(e: nat)
    | Other                // a failed completion, or anything else

  /** The message flags, none of which is POLLIN. */
  const REGISTER := 0x400
  const UNREGISTER := 0x800
  const POLL := 0x1000

  function Bit(x: int, mask: nat): bool
    requires mask > 0
  {
    x / mask % 2 == 1
  }

  /** The tests of the dispatch loop, in their order. */
  function Decode(c: Completion): Event
  {
    if c.res < 0 then Other
    else if Bit(c.res, 1) then PollIn(c.data)
    else if Bit(c.res, POLL) then Poll(c.data)
    else if Bit(c.res, REGISTER) then Register(c.data)
    else if Bit(c.res, UNREGISTER) then Unregister(c.data)
    else Other
  }

  /** Messages are decoded as what they were sent as; a poll that found input as a poll, whatever else its
    * mask says; and one that only reports low flags, such as an error, as nothing. */
  lemma DecodeSent(data: nat, res: nat)
    ensures Decode(Completion(REGISTER, data)) == Register(data)
    ensures Decode(Completion(UNREGISTER, data)) == Unregister(data)
    ensures Decode(Completion(POLL, data)) == Poll(data)
    ensures REGISTER == 1024 && UNREGISTER == 2048 && POLL == 4096
    ensures res % 2 == 1 ==> Decode(Completion(res, data)) == PollIn(data)
    ensures res % 2 == 0 && res < REGISTER ==> Decode(Completion(res, data)) == Other
  {
  }

  function Events(cq: seq<Completion>): (events: seq<Event>)
    ensures |events| == |cq| && forall i :: 0 <= i < |cq| ==> events[i] == Decode(cq[i])
  {
    if cq == [] then [] else Events(cq[..|cq| - 1]) + [Decode(cq[|cq| - 1])]
  }

  lemma EventsAppend(a: seq<Completion>, b: seq<Completion>)
    ensures Events(a + b) == Events(a) + Events(b)
  {
    hide Decode, Events;
  }

  lemma EventsFirst(cq: seq<Completion>)
    requires cq != []
    ensures multiset(Events(cq)) == multiset{Decode(cq[0])} + multiset(Events(cq[1..]))
  {
    hide Decode, Events;
    assert cq == [cq[0]] + cq[1..];
    EventsAppend([cq[0]], cq[1..]);
    OneEvent(cq[0]);
  }

  // ---------- The world ----------

  /** An entry of the scheduler's submission queue. */
  datatype Entry = AddPoll(e: nat) | RemovePoll(e: nat)

  datatype Mode = Paused | Idle | Waking | Stopped

  /** An executor: its mode, the messages it has not submitted, the posts waiting at its port. */
  datatype Client = Client(mode: Mode, queue: seq<Event>, posts: nat)

  /** The scheduler's completions and submissions, the executors it knows, the polls the kernel
    * holds, and the executors. */
  datatype World = World(cq: seq<Completion>, sq: seq<Entry>, table: set<nat>, armed: multiset<nat>, clients: seq<Client>)

  datatype Step =
    | Fire(e: nat, res: nat)          // an armed poll ends with a mask of flags
    | Handle                          // one round of the dispatch loop
    | Execute                         // the kernel takes one submission
    | Activate(e: nat)                // executor_register_on_scheduler
    | Deactivate(e: nat, stop: bool)  // executor_unregister_from_scheduler
    | Wake(e: nat)                    // a post is delivered: executor_awake_begin, or nothing
    | Call(e: nat)                    // executor_call_native, executor_callback_to_native
    | Submit(e: nat)                  // executor_peek
    | Complete(e: nat)                // executor_awake_complete

  predicate Enabled(w: World, step: Step)
  {
    match step
    case Fire(e, res) => w.armed[e] > 0 && (res % 2 == 1 || res < REGISTER)
    case Handle => w.cq != []
    case Execute => w.sq != []
    case Activate(e) => e < |w.clients|
    case Deactivate(e, _) => e < |w.clients|
    case Wake(e) => e < |w.clients| && w.clients[e].posts > 0
    case Call(e) => e < |w.clients|
    case Submit(e) => e < |w.clients|
    case Complete(e) => e < |w.clients|
  }

  /** One completion: `executor_scheduler_listen`. */
  function Dispatch(w: World, event: Event): World
  {
    match event
    case PollIn(e) =>
      if e in w.table then Post(w, e) else w
    case Poll(e) =>
      if e in w.table then w.(sq := w.sq + [AddPoll(e)]) else w
    case Register(e) =>
      w.(sq := w.sq + [AddPoll(e)], table := w.table + {e})
    case Unregister(e) =>
      if e in w.table then Post(w.(sq := w.sq + [RemovePoll(e)], table := w.table - {e}), e) else w
    case Other => w
  }

  function Post(w: World, e: nat): World
  {
    if e < |w.clients| then w.(clients := w.clients[e := w.clients[e].(posts := w.clients[e].posts + 1)]) else w
  }

  /** The messages addressed to the scheduler. */
  function ToScheduler(q: seq<Event>): seq<Completion>
  {
    if q == [] then [] else (if q[0].Poll? then [Completion(POLL, q[0].e)] else []) + ToScheduler(q[1..])
  }

  /** The messages of a ring go where they are addressed. */
  function SubmitAll(w: World, e: nat, mode: Mode, extra: seq<Completion>): World
    requires e < |w.clients|
  {
    var c := w.clients[e];
    w.(cq := w.cq + ToScheduler(c.queue) + extra, clients := w.clients[e := Client(mode, [], c.posts)])
  }

  function Apply(w: World, step: Step): World
    requires Enabled(w, step)
  {
    match step
    case Fire(e, res) =>
      w.(armed := w.armed - multiset{e}, cq := w.cq + [Completion(res, e)])
    case Handle =>
      Dispatch(w.(cq := w.cq[1..]), Decode(w.cq[0]))
    case Execute =>
      var rest := w.(sq := w.sq[1..]);
      (match w.sq[0]
       case AddPoll(e) => rest.(armed := w.armed + multiset{e})
       case RemovePoll(e) => rest.(armed := w.armed - multiset{e}))
    case Activate(e) =>
      SubmitAll(w, e, Idle, [Completion(REGISTER, e)])
    case Deactivate(e, stop) =>
      SubmitAll(w, e, if stop then Stopped else Paused, [Completion(UNREGISTER, e)])
    case Wake(e) =>
      var c := w.clients[e];
      var d := if c.mode == Paused || c.mode == Stopped then c.(posts := c.posts - 1)
        else Client(Waking, c.queue + [Poll(e)], c.posts - 1);
      w.(clients := w.clients[e := d])
    case Call(e) =>
      var c := w.clients[e];
      if c.mode == Idle then SubmitAll(w, e, Idle, [])
      else w.(clients := w.clients[e := c.(queue := c.queue + [Other])])
    case Submit(e) =>
      SubmitAll(w, e, w.clients[e].mode, [])
    case Complete(e) =>
      SubmitAll(w, e, Idle, [])
  }

  /** An executor's unsubmitted messages: requests for its own next poll, and messages elsewhere. */
  ghost predicate OwnQueue(q: seq<Event>, e: nat)
  {
    forall i :: 0 <= i < |q| ==> q[i] == Poll(e) || q[i] == Other
  }

  ghost predicate Known(cq: seq<Completion>, n: nat)
  {
    forall i :: 0 <= i < |cq| ==> cq[i].data < n
  }

  /** Executors only ever name themselves. */
  ghost predicate Valid(w: World)
  {
    && (forall e :: 0 <= e < |w.clients| ==> OwnQueue(w.clients[e].queue, e))
    && (forall e :: e in w.table ==> e < |w.clients|)
    && Known(w.cq, |w.clients|)
    && (forall e :: w.armed[e] > 0 ==> e < |w.clients|)
    && (forall i :: 0 <= i < |w.sq| ==> w.sq[i].e < |w.clients|)
  }

  // ---------- Order ----------

  /** Something is added behind, or the first is taken. */
  ghost predicate Fifo<T>(q: seq<T>, q': seq<T>)
  {
    q <= q' || (q != [] && q' == q[1..])
  }

  /** Completions and submissions are taken in the order they came in; and what an executor sends with a
    * registration or its end comes behind all it sent before. */
  lemma StepFifo(w: World, step: Step)
    requires Enabled(w, step)
    ensures Fifo(w.cq, Apply(w, step).cq) && Fifo(w.sq, Apply(w, step).sq)
    ensures step.Activate? ==> Apply(w, step).cq == w.cq + ToScheduler(w.clients[step.e].queue) + [Completion(0x400, step.e)]
    ensures step.Deactivate? ==> Apply(w, step).cq == w.cq + ToScheduler(w.clients[step.e].queue) + [Completion(0x800, step.e)]
  {
    hide Decode, ToScheduler, Events;
  }

  /** The requests of an executor keep their order, too. */
  lemma {:induction false} RequestsInOrder(q: seq<Event>, more: seq<Event>)
    ensures ToScheduler(q + more) == ToScheduler(q) + ToScheduler(more)
    decreases |q|
  {
    if q == [] {
      assert q + more == more;
    } else {
      assert (q + more)[1..] == q[1..] + more;
      RequestsInOrder(q[1..], more);
    }
  }

  // ---------- A round of the scheduler ----------

  /** `n` completions, one after the other. */
  function HandleMany(w: World, n: nat): (r: World)
    requires n <= |w.cq|
    ensures r.cq == w.cq[n..]
    decreases n
  {
    if n == 0 then w
    else
      var v := HandleMany(w, n - 1);
      DispatchIgnoresQueue(v, Decode(v.cq[0]), v.cq[1..]);
      Apply(v, Handle)
  }

  lemma DispatchIgnoresQueue(w: World, event: Event, cq: seq<Completion>)
    ensures Dispatch(w, event).cq == w.cq
    ensures Dispatch(w.(cq := cq), event) == Dispatch(w, event).(cq := cq)
  {
  }

  /** One batch of the loop of `executor_scheduler_listen`: the completions are read in place and
    * released together at the end, which comes to the same as taking them one at a time. */
  method Round(w: World) returns (w': World)
    ensures w' == HandleMany(w, |w.cq|) && w'.cq == []
  {
    hide Dispatch;
    w' := w;
    var count := 0;
    while count < |w.cq|
      invariant count <= |w.cq| && w'.cq == w.cq
      invariant w'.(cq := w.cq[count..]) == HandleMany(w, count)
    {
      DispatchIgnoresQueue(w', Decode(w.cq[count]), w.cq[count + 1..]);
      assert w.cq[count..][1..] == w.cq[count + 1..];
      w' := Dispatch(w', Decode(w.cq[count]));
      count := count + 1;
    }
    w' := w'.(cq := w'.cq[count..]);
  }

  // ---------- Wake tokens ----------

  function Posts(w: World, e: nat): nat { if e < |w.clients| then w.clients[e].posts else 0 }

  function Queue(w: World, e: nat): seq<Event> { if e < |w.clients| then w.clients[e].queue else [] }

  /** Everything that leads to one more wake-up of `e`: a poll armed or about to be, a poll that
    * fired, a post, a request for the next poll. */
  ghost function Tokens(w: World, e: nat): nat
  {
    w.armed[e] + multiset(w.sq)[AddPoll(e)]
    + multiset(Events(w.cq))[PollIn(e)] + multiset(Events(w.cq))[Poll(e)]
    + Posts(w, e) + multiset(Queue(w, e))[Poll(e)]
  }

  lemma Shift<T>(s: seq<T>)
    requires s != []
    ensures multiset(s) == multiset{s[0]} + multiset(s[1..])
  {
    assert s == [s[0]] + s[1..];
  }

  /** Requests reach the scheduler, once each. */
  lemma {:induction false} ToSchedulerKeeps(q: seq<Event>, e: nat, x: nat)
    requires OwnQueue(q, e)
    ensures forall i :: 0 <= i < |ToScheduler(q)| ==> ToScheduler(q)[i] == Completion(POLL, e)
    ensures multiset(Events(ToScheduler(q)))[Poll(x)] == multiset(q)[Poll(x)]
    ensures multiset(Events(ToScheduler(q)))[PollIn(x)] == 0
    ensures x != e ==> multiset(q)[Poll(x)] == 0
  {
    hide Decode, Events, ToScheduler;
    NoEvents();
    if q != [] {
      Shift(q);
      ToSchedulerKeeps(q[1..], e, x);
      DecodeSent(e, 0);
      FirstMessage(q);
      if q[0].Poll? {
        EventsFirst(ToScheduler(q));
      }
    }
  }

  lemma FirstMessage(q: seq<Event>)
    requires q != []
    ensures q[0].Poll? ==> ToScheduler(q) != [] && ToScheduler(q)[0] == Completion(POLL, q[0].e) && ToScheduler(q)[1..] == ToScheduler(q[1..])
    ensures !q[0].Poll? ==> ToScheduler(q) == ToScheduler(q[1..])
  {
  }

  lemma NoEvents()
    ensures Events([]) == [] && ToScheduler([]) == []
  {
  }

  /** What one dispatched completion does to the tokens of an executor. */
  lemma DispatchTokens(w: World, event: Event, e: nat)
    requires e < |w.clients| && (event.Other? || event.e < |w.clients|)
    ensures Tokens(Dispatch(w, event), e) == Tokens(w, e)
        + (if event == Register(e) then 1
           else if e in w.table && (event == Unregister(e) || event == PollIn(e) || event == Poll(e)) then 1
           else 0)
  {
    hide Tokens, Post;
    match event
    case PollIn(x) => PostTokens(w, x, e);
    case Poll(x) => EntryTokens(w, AddPoll(x), w.table, e);
    case Register(x) => EntryTokens(w, AddPoll(x), w.table + {x}, e);
    case Unregister(x) =>
      EntryTokens(w, RemovePoll(x), w.table - {x}, e);
      PostTokens(w.(sq := w.sq + [RemovePoll(x)], table := w.table - {x}), x, e);
    case Other =>
  }

  lemma PostTokens(w: World, x: nat, e: nat)
    requires x < |w.clients|
    ensures Tokens(Post(w, x), e) == Tokens(w, e) + (if x == e then 1 else 0)
  {
  }

  lemma EntryTokens(w: World, entry: Entry, table: set<nat>, e: nat)
    ensures Tokens(w.(sq := w.sq + [entry], table := table), e) == Tokens(w, e) + (if entry == AddPoll(e) then 1 else 0)
  {
  }

  lemma SubmitTokens(w: World, e: nat, mode: Mode, extra: seq<Completion>, x: nat)
    requires e < |w.clients| && x < |w.clients| && Valid(w)
    requires extra == [] || extra == [Completion(REGISTER, e)] || extra == [Completion(UNREGISTER, e)]
    ensures Tokens(SubmitAll(w, e, mode, extra), x) == Tokens(w, x)
  {
    hide ToScheduler, Decode, Events;
    var sent := ToScheduler(w.clients[e].queue);
    ToSchedulerKeeps(w.clients[e].queue, e, x);
    EventsAppend(w.cq + sent, extra);
    EventsAppend(w.cq, sent);
    NoRequests(extra, e, x);
  }

  lemma NoRequests(extra: seq<Completion>, e: nat, x: nat)
    requires extra == [] || extra == [Completion(REGISTER, e)] || extra == [Completion(UNREGISTER, e)]
    ensures multiset(Events(extra))[Poll(x)] == 0 && multiset(Events(extra))[PollIn(x)] == 0
  {
  }

  lemma SubmitValid(w: World, e: nat, mode: Mode, extra: seq<Completion>)
    requires e < |w.clients| && Valid(w) && Known(extra, |w.clients|)
    ensures Valid(SubmitAll(w, e, mode, extra)) && |SubmitAll(w, e, mode, extra).clients| == |w.clients|
  {
    hide ToScheduler, Decode, Events, OwnQueue;
    NoQueue(e);
    assert OwnQueue(w.clients[e].queue, e);
    ToSchedulerKeeps(w.clients[e].queue, e, e);
  }

  lemma NoQueue(e: nat)
    ensures OwnQueue([], e)
  {
  }

  /** How a step changes the tokens of `e`. */
  function Change(w: World, step: Step, e: nat): int
    requires Enabled(w, step)
  {
    match step
    case Fire(x, res) =>
      if x == e && res % 2 == 0 then -1 else 0
    case Handle =>
      var event := Decode(w.cq[0]);
      if event == Register(e) || (event == Unregister(e) && e in w.table) then 1
      else if (event == PollIn(e) || event == Poll(e)) && e !in w.table then -1
      else 0
    case Execute =>
      if w.sq[0] == RemovePoll(e) && w.armed[e] > 0 then -1 else 0
    case Wake(x) =>
      if x == e && (w.clients[e].mode == Paused || w.clients[e].mode == Stopped) then -1 else 0
    case _ => 0
  }

  /** The law of wake tokens: they arise from a registration and from the farewell post only, and
    * vanish only where the protocol means them to. */
  lemma TokenStep(w: World, step: Step, e: nat)
    requires Valid(w) && Enabled(w, step) && e < |w.clients|
    ensures Tokens(Apply(w, step), e) == Tokens(w, e) + Change(w, step, e)
  {
    hide Tokens, SubmitAll, Dispatch, Valid;
    match step
    case Fire(x, res) => FireTokens(w, x, res, e);
    case Handle => HandleTokens(w, e);
    case Execute => ExecuteTokens(w, e);
    case Wake(x) => WakeTokens(w, x, e);
    case Activate(x) => SubmitTokens(w, x, Idle, [Completion(REGISTER, x)], e);
    case Deactivate(x, stop) => SubmitTokens(w, x, if stop then Stopped else Paused, [Completion(UNREGISTER, x)], e);
    case Call(x) => CallTokens(w, x, e);
    case Submit(x) => SubmitTokens(w, x, w.clients[x].mode, [], e);
    case Complete(x) => SubmitTokens(w, x, Idle, [], e);
  }

  lemma FireTokens(w: World, x: nat, res: nat, e: nat)
    requires Enabled(w, Fire(x, res)) && e < |w.clients|
    ensures Tokens(Apply(w, Fire(x, res)), e) == Tokens(w, e) + Change(w, Fire(x, res), e)
  {
    hide Decode, Events;
    DecodeSent(x, res);
    EventsAppend(w.cq, [Completion(res, x)]);
    OneEvent(Completion(res, x));
  }

  lemma OneEvent(c: Completion)
    ensures Events([c]) == [Decode(c)]
  {
  }

  lemma HandleTokens(w: World, e: nat)
    requires Valid(w) && Enabled(w, Handle) && e < |w.clients|
    ensures Tokens(Apply(w, Handle), e) == Tokens(w, e) + Change(w, Handle, e)
  {
    hide Dispatch, Events, Tokens, Decode;
    EventsFirst(w.cq);
    var rest := w.(cq := w.cq[1..]);
    DecodeNames(w.cq[0]);
    CompletionTokens(w, w.cq[1..], e);
    DispatchTokens(rest, Decode(w.cq[0]), e);
  }

  /** Poll events and requests among the completions are counted alike. */
  lemma CompletionTokens(w: World, cq: seq<Completion>, e: nat)
    ensures Tokens(w.(cq := cq), e) + multiset(Events(w.cq))[PollIn(e)] + multiset(Events(w.cq))[Poll(e)]
         == Tokens(w, e) + multiset(Events(cq))[PollIn(e)] + multiset(Events(cq))[Poll(e)]
  {
    hide Events;
  }

  lemma DecodeNames(c: Completion)
    ensures Decode(c).Other? || Decode(c).e == c.data
  {
  }

  lemma ExecuteTokens(w: World, e: nat)
    requires Enabled(w, Execute) && e < |w.clients|
    ensures Tokens(Apply(w, Execute), e) == Tokens(w, e) + Change(w, Execute, e)
  {
    hide Tokens;
    match w.sq[0]
    case AddPoll(x) => ExecuteAdd(w, x, e);
    case RemovePoll(x) => ExecuteRemove(w, x, e);
  }

  lemma ExecuteAdd(w: World, x: nat, e: nat)
    requires Enabled(w, Execute) && w.sq[0] == AddPoll(x)
    ensures Tokens(Apply(w, Execute), e) == Tokens(w, e)
  {
    hide Tokens;
    Shift(w.sq);
    PollTokens(w, w.sq[1..], w.armed + multiset{x}, e);
  }

  lemma ExecuteRemove(w: World, x: nat, e: nat)
    requires Enabled(w, Execute) && w.sq[0] == RemovePoll(x)
    ensures Tokens(Apply(w, Execute), e) == Tokens(w, e) - (if x == e && w.armed[e] > 0 then 1 else 0)
  {
    hide Tokens;
    Shift(w.sq);
    PollTokens(w, w.sq[1..], w.armed - multiset{x}, e);
  }

  /** Polls armed and about to be are counted alike. */
  lemma PollTokens(w: World, sq: seq<Entry>, armed: multiset<nat>, e: nat)
    ensures Tokens(w.(sq := sq, armed := armed), e) + w.armed[e] + multiset(w.sq)[AddPoll(e)]
         == Tokens(w, e) + armed[e] + multiset(sq)[AddPoll(e)]
  {
    hide Events;
  }

  lemma WakeTokens(w: World, x: nat, e: nat)
    requires Valid(w) && Enabled(w, Wake(x)) && e < |w.clients|
    ensures Tokens(Apply(w, Wake(x)), e) == Tokens(w, e) + Change(w, Wake(x), e)
  {
    hide Tokens, Valid;
    var c := w.clients[x];
    ClientTokens(w, x, c.(posts := c.posts - 1), e);
    ClientTokens(w, x, Client(Waking, c.queue + [Poll(x)], c.posts - 1), e);
  }

  lemma CallTokens(w: World, x: nat, e: nat)
    requires Valid(w) && Enabled(w, Call(x)) && e < |w.clients|
    ensures Tokens(Apply(w, Call(x)), e) == Tokens(w, e)
  {
    hide SubmitAll, Tokens, Valid;
    if w.clients[x].mode == Idle {
      SubmitTokens(w, x, Idle, [], e);
    } else {
      ClientTokens(w, x, w.clients[x].(queue := w.clients[x].queue + [Other]), e);
    }
  }

  /** Another state of an executor: its posts and requests are counted alike. */
  lemma ClientTokens(w: World, x: nat, c: Client, e: nat)
    requires x < |w.clients|
    ensures Tokens(w.(clients := w.clients[x := c]), e) + (if x == e then w.clients[x].posts + multiset(w.clients[x].queue)[Poll(e)] else 0)
         == Tokens(w, e) + (if x == e then c.posts + multiset(c.queue)[Poll(e)] else 0)
  {
    hide Events;
  }

  lemma StepValid(w: World, step: Step)
    requires Valid(w) && Enabled(w, step)
    ensures Valid(Apply(w, step)) && |Apply(w, step).clients| == |w.clients|
  {
    hide SubmitAll, Dispatch;
    match step
    case Fire(x, res) => FireValid(w, x, res);
    case Handle =>
      DecodeNames(w.cq[0]);
      DispatchValid(w.(cq := w.cq[1..]), Decode(w.cq[0]));
    case Activate(x) => SubmitValid(w, x, Idle, [Completion(REGISTER, x)]);
    case Deactivate(x, stop) => SubmitValid(w, x, if stop then Stopped else Paused, [Completion(UNREGISTER, x)]);
    case Call(x) => SubmitValid(w, x, Idle, []);
    case Submit(x) => SubmitValid(w, x, w.clients[x].mode, []);
    case Complete(x) => SubmitValid(w, x, Idle, []);
    case _ =>
  }

  /** A poll is only ever armed for an executor there is. */
  lemma FireValid(w: World, x: nat, res: nat)
    requires Valid(w) && Enabled(w, Fire(x, res))
    ensures Valid(Apply(w, Fire(x, res)))
  {
  }

  lemma DispatchValid(w: World, event: Event)
    requires Valid(w) && (event == Other || event.e < |w.clients|)
    ensures Valid(Dispatch(w, event)) && |Dispatch(w, event).clients| == |w.clients|
  {
  }

  // ---------- One registration ----------

  ghost predicate AllEnabled(w: World, steps: seq<Step>)
    decreases |steps|
  {
    steps == [] || (Enabled(w, steps[0]) && AllEnabled(Apply(w, steps[0]), steps[1..]))
  }

  function Run(w: World, steps: seq<Step>): World
    requires AllEnabled(w, steps)
    decreases |steps|
  {
    if steps == [] then w else Run(Apply(w, steps[0]), steps[1..])
  }

  /** Through these steps `e` stays registered, is not registered again, does not ignore posts because
    * it is paused or stopped, and no poll of it ends without input. */
  ghost predicate Stays(w: World, steps: seq<Step>, e: nat)
    requires AllEnabled(w, steps)
    decreases |steps|
  {
    && e in w.table
    && (steps != [] ==>
          && !(steps[0] == Handle && Decode(w.cq[0]) == Register(e))
          && !(steps[0].Fire? && steps[0].e == e && steps[0].res % 2 == 0)
          && (steps[0] == Wake(e) ==> w.clients[e].mode == Idle || w.clients[e].mode == Waking)
          && Stays(Apply(w, steps[0]), steps[1..], e))
  }

  /** A removal finds a poll armed, and takes it. */
  predicate TakesPoll(w: World, step: Step, e: nat)
  {
    step == Execute && w.sq != [] && w.sq[0] == RemovePoll(e) && w.armed[e] > 0
  }

  /** How many polls of `e` are taken by removals. */
  function Removed(w: World, steps: seq<Step>, e: nat): (n: nat)
    requires AllEnabled(w, steps)
    decreases |steps|
  {
    if steps == [] then 0
    else (if TakesPoll(w, steps[0], e) then 1 else 0) + Removed(Apply(w, steps[0]), steps[1..], e)
  }

  /** While `e` stays registered, a removal that finds a poll is all that changes its wake tokens, and the
    * removals get no more. */
  lemma StepStays(w: World, steps: seq<Step>, e: nat)
    requires Valid(w) && e < |w.clients| && AllEnabled(w, steps) && Stays(w, steps, e) && steps != []
    ensures Change(w, steps[0], e) == if TakesPoll(w, steps[0], e) then -1 else 0
    ensures multiset(Apply(w, steps[0]).sq)[RemovePoll(e)] + (if TakesPoll(w, steps[0], e) then 1 else 0)
         <= multiset(w.sq)[RemovePoll(e)]
  {
    hide SubmitAll, Valid, Decode, Events, Dispatch;
    StaysHere(w, steps, e);
    SubmitKeeps(w, e);
    if steps[0] == Execute {
      Shift(w.sq);
    } else if steps[0] == Handle {
      NoMoreRemovals(w.(cq := w.cq[1..]), Decode(w.cq[0]), e);
    }
  }

  lemma NoMoreRemovals(w: World, event: Event, e: nat)
    requires e in w.table && e in Dispatch(w, event).table
    ensures multiset(Dispatch(w, event).sq)[RemovePoll(e)] == multiset(w.sq)[RemovePoll(e)] && event != Unregister(e)
  {
  }

  /** The tokens at any moment of a registration are those at its beginning less the polls removed. */
  lemma {:induction false} TokensWhileRegistered(w: World, steps: seq<Step>, e: nat)
    requires Valid(w) && e < |w.clients| && AllEnabled(w, steps) && Stays(w, steps, e)
    ensures Tokens(Run(w, steps), e) == Tokens(w, e) - Removed(w, steps, e)
    ensures Removed(w, steps, e) <= multiset(w.sq)[RemovePoll(e)]
    decreases |steps|
  {
    hide Tokens, Apply, TakesPoll;
    if steps != [] {
      StaysHere(w, steps, e);
      TokenStep(w, steps[0], e);
      StepValid(w, steps[0]);
      StepStays(w, steps, e);
      TokensWhileRegistered(Apply(w, steps[0]), steps[1..], e);
    }
  }

  /** No poll that is armed or about to be is also about to be removed. */
  ghost predicate Undisturbed(w: World, e: nat)
  {
    || RemovePoll(e) !in w.sq
    || (w.armed[e] == 0 && forall i, j :: 0 <= i < j < |w.sq| && w.sq[i] == AddPoll(e) ==> w.sq[j] != RemovePoll(e))
  }

  lemma StepUndisturbed(w: World, step: Step, e: nat)
    requires Valid(w) && Enabled(w, step) && Undisturbed(w, e) && e in w.table && e in Apply(w, step).table
    ensures Undisturbed(Apply(w, step), e) && !TakesPoll(w, step, e)
  {
    hide SubmitAll, Dispatch, Tokens, Undisturbed, Valid;
    SubmitKeeps(w, e);
    match step
    case Handle => HandleUndisturbed(w, e);
    case Execute => ExecuteUndisturbed(w, e);
    case _ => OthersUndisturbed(w, Apply(w, step), e);
  }

  /** Polls that are armed already may fire. */
  lemma OthersUndisturbed(w: World, w': World, e: nat)
    requires Undisturbed(w, e) && w'.sq == w.sq && w'.armed[e] <= w.armed[e]
    ensures Undisturbed(w', e)
  {
  }

  lemma ExecuteUndisturbed(w: World, e: nat)
    requires Undisturbed(w, e) && Enabled(w, Execute)
    ensures Undisturbed(Apply(w, Execute), e) && !(w.sq[0] == RemovePoll(e) && w.armed[e] > 0)
  {
    if w.armed[e] == 0 && w.sq[0] == AddPoll(e) {
      assert forall j :: 0 < j < |w.sq| ==> w.sq[j] != RemovePoll(e);
    }
  }

  lemma HandleUndisturbed(w: World, e: nat)
    requires Undisturbed(w, e) && Enabled(w, Handle) && e in w.table && e in Apply(w, Handle).table
    ensures Undisturbed(Apply(w, Handle), e)
  {
    hide Decode;
  }

  lemma SubmitKeeps(w: World, e: nat)
    ensures forall x: nat, mode: Mode, extra: seq<Completion> :: x < |w.clients| ==>
      SubmitAll(w, x, mode, extra).sq == w.sq && SubmitAll(w, x, mode, extra).armed == w.armed
      && SubmitAll(w, x, mode, extra).table == w.table
  {
  }

  lemma {:induction false} NoneRemoved(w: World, steps: seq<Step>, e: nat)
    requires Valid(w) && e < |w.clients| && Undisturbed(w, e) && AllEnabled(w, steps) && Stays(w, steps, e)
    ensures Removed(w, steps, e) == 0
    decreases |steps|
  {
    hide Tokens, Undisturbed, Apply, TakesPoll;
    if steps != [] {
      StaysHere(w, steps, e);
      StepValid(w, steps[0]);
      StepUndisturbed(w, steps[0], e);
      NoneRemoved(Apply(w, steps[0]), steps[1..], e);
    }
  }

  lemma StaysHere(w: World, steps: seq<Step>, e: nat)
    requires AllEnabled(w, steps) && Stays(w, steps, e) && steps != []
    ensures e in w.table && e in Apply(w, steps[0]).table
  {
    hide Apply;
    assert Stays(Apply(w, steps[0]), steps[1..], e);
  }

  /** Registering adds one wake token to those left over, and every removal still to come that finds a
    * poll armed takes one; none does unless some poll is just being removed. */
  lemma TokensOfRegistration(w: World, steps: seq<Step>, e: nat)
    requires Valid(w) && w.cq != [] && Decode(w.cq[0]) == Register(e) && e < |w.clients|
    requires var w1 := Apply(w, Handle); AllEnabled(w1, steps) && Stays(w1, steps, e)
    ensures var removed := Removed(Apply(w, Handle), steps, e);
      && Tokens(Run(Apply(w, Handle), steps), e) == Tokens(w, e) + 1 - removed
      && removed <= multiset(w.sq)[RemovePoll(e)]
      && (RemovePoll(e) !in w.sq || Tokens(w, e) == 0 ==> removed == 0)
  {
    hide Tokens, Decode, Removed, Stays;
    var w1 := Apply(w, Handle);
    TokenStep(w, Handle, e);
    StepValid(w, Handle);
    TokensWhileRegistered(w1, steps, e);
    assert multiset(w1.sq)[RemovePoll(e)] == multiset(w.sq)[RemovePoll(e)];
    if RemovePoll(e) !in w.sq || Tokens(w, e) == 0 {
      RegisterUndisturbed(w, e);
      NoneRemoved(w1, steps, e);
    }
  }

  /** Through the whole of a registration, however it goes on, exactly one wake token exists if and only
    * if none was left over when it began. */
  lemma OneTokenPerRegistration(w: World, e: nat)
    requires Valid(w) && w.cq != [] && Decode(w.cq[0]) == Register(e) && e < |w.clients|
    ensures var w1 := Apply(w, Handle);
      (forall steps :: AllEnabled(w1, steps) && Stays(w1, steps, e) ==> Tokens(Run(w1, steps), e) == 1) <==>
      Tokens(w, e) == 0
  {
    hide Tokens, Decode;
    var w1 := Apply(w, Handle);
    if Tokens(w, e) == 0 {
      forall steps | AllEnabled(w1, steps) && Stays(w1, steps, e) ensures Tokens(Run(w1, steps), e) == 1 {
        TokensOfRegistration(w, steps, e);
      }
    } else {
      TokenStep(w, Handle, e);
      RegisterStays(w, e);
      assert Run(w1, []) == w1;
    }
  }

  lemma RegisterStays(w: World, e: nat)
    requires w.cq != [] && Decode(w.cq[0]) == Register(e)
    ensures AllEnabled(Apply(w, Handle), []) && Stays(Apply(w, Handle), [], e)
  {
    hide Decode;
  }

  /** None is left over exactly when every place a wake-up of `e` can come from is empty. */
  lemma NothingLeftOver(w: World, e: nat)
    requires e < |w.clients|
    ensures Tokens(w, e) == 0 <==>
      && w.armed[e] == 0 && AddPoll(e) !in w.sq
      && PollIn(e) !in Events(w.cq) && Poll(e) !in Events(w.cq)
      && w.clients[e].posts == 0 && Poll(e) !in w.clients[e].queue
  {
    hide Events;
  }

  /** Hence after an unregistration that left no poll, the next registration is clean as soon as nothing is
    * under way for `e` between scheduler and executor. */
  lemma CleanAfterGone(w: World, e: nat)
    requires Gone(w, e) && e < |w.clients| && w.clients[e].posts == 0 && w.clients[e].queue == []
    requires AddPoll(e) !in w.sq && RemovePoll(e) !in w.sq
    requires PollIn(e) !in Events(w.cq) && Poll(e) !in Events(w.cq)
    ensures Tokens(w, e) == 0
  {
    NetOfNothing(w.armed[e], w.sq, e);
    NothingLeftOver(w, e);
  }

  lemma RegisterUndisturbed(w: World, e: nat)
    requires Enabled(w, Handle) && Decode(w.cq[0]) == Register(e)
    requires RemovePoll(e) !in w.sq || Tokens(w, e) == 0
    ensures Undisturbed(Apply(w, Handle), e)
  {
    hide Decode, Events;
    if RemovePoll(e) in w.sq {
      assert AddPoll(e) !in w.sq;
    }
  }

  // ---------- After it ----------

  /** How many polls of `e` are armed once the queue is executed, starting from `a`. */
  function Net(a: nat, sq: seq<Entry>, e: nat): (n: nat)
    decreases |sq|
  {
    if sq == [] then a
    else if sq[0] == AddPoll(e) then Net(a + 1, sq[1..], e)
    else if sq[0] == RemovePoll(e) then Net(if a > 0 then a - 1 else 0, sq[1..], e)
    else Net(a, sq[1..], e)
  }

  lemma {:induction false} NetAppend(a: nat, sq: seq<Entry>, entry: Entry, e: nat)
    ensures Net(a, sq + [entry], e) ==
      if entry == AddPoll(e) then Net(a, sq, e) + 1
      else if entry == RemovePoll(e) then (if Net(a, sq, e) > 0 then Net(a, sq, e) - 1 else 0)
      else Net(a, sq, e)
    decreases |sq|
  {
    if sq == [] {
      assert sq + [entry] == [entry];
    } else {
      assert (sq + [entry])[1..] == sq[1..] + [entry];
      NetAppend(if sq[0] == AddPoll(e) then a + 1 else if sq[0] == RemovePoll(e) && a > 0 then a - 1 else a, sq[1..], entry, e);
    }
  }

  lemma {:induction false} NetMonotone(a: nat, b: nat, sq: seq<Entry>, e: nat)
    requires a <= b
    ensures Net(a, sq, e) <= Net(b, sq, e) <= b + multiset(sq)[AddPoll(e)]
    decreases |sq|
  {
    if sq != [] {
      Shift(sq);
      var add, remove := sq[0] == AddPoll(e), sq[0] == RemovePoll(e);
      NetMonotone(if add then a + 1 else if remove && a > 0 then a - 1 else a,
                  if add then b + 1 else if remove && b > 0 then b - 1 else b, sq[1..], e);
    }
  }

  /** `e` is not registered and no poll of it will be left armed. */
  ghost predicate Gone(w: World, e: nat)
  {
    e !in w.table && Net(w.armed[e], w.sq, e) == 0
  }

  /** Unregistering leaves no poll behind exactly when at most one would be armed otherwise, as is so
    * while there is at most one wake token. */
  lemma UnregisterLeaves(w: World, e: nat)
    requires Enabled(w, Handle) && Decode(w.cq[0]) == Unregister(e) && e in w.table
    ensures Gone(Apply(w, Handle), e) <==> Net(w.armed[e], w.sq, e) <= 1
    ensures Tokens(w, e) <= 1 ==> Gone(Apply(w, Handle), e)
  {
    hide Decode, Events, Net;
    NetMonotone(w.armed[e], w.armed[e], w.sq, e);
    NetAppend(w.armed[e], w.sq, RemovePoll(e), e);
  }

  lemma StepGone(w: World, step: Step, e: nat)
    requires Valid(w) && Enabled(w, step) && Gone(w, e) && !(step == Handle && Decode(w.cq[0]) == Register(e))
    ensures Gone(Apply(w, step), e)
  {
    hide SubmitAll, Tokens, Net, Dispatch, Valid, Decode, Events;
    SubmitKeeps(w, e);
    match step
    case Fire(x, _) =>
      if x == e {
        NetMonotone(w.armed[e] - 1, w.armed[e], w.sq, e);
      }
    case Handle =>
      DispatchGone(w.(cq := w.cq[1..]), Decode(w.cq[0]), e);
    case Execute =>
      NetStep(w.armed[e], w.sq, e);
    case _ =>
  }

  lemma NetStep(a: nat, sq: seq<Entry>, e: nat)
    requires sq != []
    ensures Net(a, sq, e) ==
      Net(if sq[0] == AddPoll(e) then a + 1 else if sq[0] == RemovePoll(e) && a > 0 then a - 1 else a, sq[1..], e)
  {
  }

  lemma DispatchGone(w: World, event: Event, e: nat)
    requires Gone(w, e) && event != Register(e)
    ensures Gone(Dispatch(w, event), e)
  {
    hide Net;
    if !event.Other? {
      NetAppend(w.armed[e], w.sq, AddPoll(event.e), e);
      NetAppend(w.armed[e], w.sq, RemovePoll(event.e), e);
    }
  }

  ghost predicate NotRegistered(w: World, steps: seq<Step>, e: nat)
    requires AllEnabled(w, steps)
    decreases |steps|
  {
    steps != [] ==>
      !(steps[0] == Handle && Decode(w.cq[0]) == Register(e)) && NotRegistered(Apply(w, steps[0]), steps[1..], e)
  }

  /** And none comes back until the next registration: whenever the scheduler has nothing left to
    * submit for `e`, the kernel holds no poll of it. */
  lemma {:induction false} NoPollAfterUnregister(w: World, steps: seq<Step>, e: nat)
    requires Valid(w) && Gone(w, e) && AllEnabled(w, steps) && NotRegistered(w, steps, e)
    ensures Gone(Run(w, steps), e)
    ensures AddPoll(e) !in Run(w, steps).sq && RemovePoll(e) !in Run(w, steps).sq ==> Run(w, steps).armed[e] == 0
    decreases |steps|
  {
    hide Apply;
    if steps == [] {
      NetOfNothing(w.armed[e], w.sq, e);
    } else {
      StepValid(w, steps[0]);
      StepGone(w, steps[0], e);
      NoPollAfterUnregister(Apply(w, steps[0]), steps[1..], e);
    }
  }

  lemma {:induction false} NetOfNothing(a: nat, sq: seq<Entry>, e: nat)
    ensures AddPoll(e) !in sq && RemovePoll(e) !in sq ==> Net(a, sq, e) == a
    decreases |sq|
  {
    if sq != [] {
      NetOfNothing(a, sq[1..], e);
    }
  }

  // ---------- Prompt submission ----------

  /** An idle executor has no message waiting to be submitted. */
  ghost predicate Prompt(w: World)
  {
    forall e :: 0 <= e < |w.clients| && w.clients[e].mode == Idle ==> w.clients[e].queue == []
  }

  lemma StepPrompt(w: World, step: Step)
    requires Enabled(w, step) && Prompt(w)
    ensures Prompt(Apply(w, step))
  {
    hide ToScheduler;
  }

  // ---------- Too quick ----------

  lemma RunOne(w: World, steps: seq<Step>, end: World)
    requires steps != [] && Enabled(w, steps[0])
    requires AllEnabled(Apply(w, steps[0]), steps[1..]) && Run(Apply(w, steps[0]), steps[1..]) == end
    ensures AllEnabled(w, steps) && Run(w, steps) == end
  {
  }

  /** Three steps and what follows them. */
  lemma RunThree(w: World, a: Step, x: World, b: Step, y: World, c: Step, z: World, steps: seq<Step>)
    requires Enabled(w, a) && Apply(w, a) == x && Enabled(x, b) && Apply(x, b) == y && Enabled(y, c) && Apply(y, c) == z
    requires AllEnabled(z, steps)
    ensures AllEnabled(w, [a, b, c] + steps) && Run(w, [a, b, c] + steps) == Run(z, steps)
  {
    hide Apply, Enabled;
    assert ([c] + steps)[1..] == steps && ([b, c] + steps)[1..] == [c] + steps;
    assert ([a, b, c] + steps)[1..] == [b, c] + steps;
    RunOne(y, [c] + steps, Run(z, steps));
    RunOne(x, [b, c] + steps, Run(z, steps));
    RunOne(w, [a, b, c] + steps, Run(z, steps));
  }

  /** A poll has fired when the executor unregisters and registers again at once. */
  const HASTY: seq<Step> := [Fire(0, 1), Deactivate(0, false), Activate(0)]

  const SERVED: seq<Step> := [Handle, Handle, Handle]

  /** Its farewell post and the old poll's post each wake it, and each wake-up asks for a poll, so that two
    * more are about to be armed when it unregisters again. */
  const WOKEN: seq<Step> := [Execute, Execute, Wake(0), Complete(0), Wake(0), Complete(0), Handle, Handle, Deactivate(0, false)]

  const GONE: seq<Step> := [Handle, Execute, Execute]

  function Start(): World { World([], [], {0}, multiset{0}, [Client(Idle, [], 0)]) }

  /** The world with these completions, submissions, registration, armed polls of executor 0 and its state. */
  function Scene(cq: seq<Completion>, sq: seq<Entry>, registered: bool, polls: nat, client: Client): World
  {
    World(cq, sq, if registered then {0} else {}, multiset{}[0 := polls], [client])
  }

  lemma WokenScenes()
    ensures var w, x := Scene([], [RemovePoll(0), AddPoll(0)], true, 0, Client(Idle, [], 2)), Scene([], [AddPoll(0)], true, 0, Client(Idle, [], 2));
      var y, z := Scene([], [], true, 1, Client(Idle, [], 2)), Scene([], [], true, 1, Client(Waking, [Poll(0)], 1));
      && Enabled(w, Execute) && Apply(w, Execute) == x && Enabled(x, Execute) && Apply(x, Execute) == y
      && Enabled(y, Wake(0)) && Apply(y, Wake(0)) == z
  {
    assert [] + [Poll(0)] == [Poll(0)];
    assert [Client(Idle, [], 2)][0 := Client(Waking, [Poll(0)], 1)] == [Client(Waking, [Poll(0)], 1)];
  }

  lemma WokenAgainScenes()
    ensures var q := Completion(POLL, 0);
      var w, x := Scene([], [], true, 1, Client(Waking, [Poll(0)], 1)), Scene([q], [], true, 1, Client(Idle, [], 1));
      var y, z := Scene([q], [], true, 1, Client(Waking, [Poll(0)], 0)), Scene([q, q], [], true, 1, Client(Idle, [], 0));
      && Enabled(w, Complete(0)) && Apply(w, Complete(0)) == x && Enabled(x, Wake(0)) && Apply(x, Wake(0)) == y
      && Enabled(y, Complete(0)) && Apply(y, Complete(0)) == z
  {
    var q := Completion(POLL, 0);
    assert [Poll(0)][1..] == [] && ToScheduler([Poll(0)]) == [q];
    assert [] + [q] + [] == [q] && [q] + [q] + [] == [q, q] && [] + [Poll(0)] == [Poll(0)];
    assert forall c, d: Client :: [c][0 := d] == [d];
  }

  lemma AskedScenes()
    ensures var q, u := Completion(POLL, 0), Completion(UNREGISTER, 0);
      var w, x := Scene([q, q], [], true, 1, Client(Idle, [], 0)), Scene([q], [AddPoll(0)], true, 1, Client(Idle, [], 0));
      var y := Scene([], [AddPoll(0), AddPoll(0)], true, 1, Client(Idle, [], 0));
      var z := Scene([u], [AddPoll(0), AddPoll(0)], true, 1, Client(Paused, [], 0));
      && Enabled(w, Handle) && Apply(w, Handle) == x && Enabled(x, Handle) && Apply(x, Handle) == y
      && Enabled(y, Deactivate(0, false)) && Apply(y, Deactivate(0, false)) == z
  {
  }

  lemma GoneScenes()
    ensures var u := Completion(UNREGISTER, 0);
      var w := Scene([u], [AddPoll(0), AddPoll(0)], true, 1, Client(Paused, [], 0));
      var x := Scene([], [AddPoll(0), AddPoll(0), RemovePoll(0)], false, 1, Client(Paused, [], 1));
      var y := Scene([], [AddPoll(0), RemovePoll(0)], false, 2, Client(Paused, [], 1));
      var z := Scene([], [RemovePoll(0)], false, 3, Client(Paused, [], 1));
      && Enabled(w, Handle) && Apply(w, Handle) == x && Enabled(x, Execute) && Apply(x, Execute) == y
      && Enabled(y, Execute) && Apply(y, Execute) == z
  {
    hide ToScheduler, Events, SubmitAll;
  }

  lemma LastRemoval()
    ensures var z := Scene([], [RemovePoll(0)], false, 3, Client(Paused, [], 1));
      Enabled(z, Execute) && Apply(z, Execute) == Scene([], [], false, 2, Client(Paused, [], 1))
  {
    hide ToScheduler, Events, SubmitAll;
  }

  lemma HastyScenes()
    ensures var p, u, r := Completion(1, 0), Completion(UNREGISTER, 0), Completion(REGISTER, 0);
      var w, x := Start(), Scene([p], [], true, 0, Client(Idle, [], 0));
      var y, z := Scene([p, u], [], true, 0, Client(Paused, [], 0)), Scene([p, u, r], [], true, 0, Client(Idle, [], 0));
      && Enabled(w, Fire(0, 1)) && Apply(w, Fire(0, 1)) == x
      && Enabled(x, Deactivate(0, false)) && Apply(x, Deactivate(0, false)) == y
      && Enabled(y, Activate(0)) && Apply(y, Activate(0)) == z
  {
  }

  lemma ServedScenes()
    ensures var p, u, r := Completion(1, 0), Completion(UNREGISTER, 0), Completion(REGISTER, 0);
      var w, x := Scene([p, u, r], [], true, 0, Client(Idle, [], 0)), Scene([u, r], [], true, 0, Client(Idle, [], 1));
      var y := Scene([r], [RemovePoll(0)], false, 0, Client(Idle, [], 2));
      var z := Scene([], [RemovePoll(0), AddPoll(0)], true, 0, Client(Idle, [], 2));
      && Enabled(w, Handle) && Apply(w, Handle) == x && Enabled(x, Handle) && Apply(x, Handle) == y
      && Enabled(y, Handle) && Apply(y, Handle) == z
  {
  }

  /** Unregistering and registering again before the scheduler has caught up leaves three wake
    * tokens: the poll that had fired, the farewell post, and the new poll. */
  lemma HastyReactivation()
    ensures Valid(Start()) && Tokens(Start(), 0) == 1 && AllEnabled(Start(), HASTY + SERVED)
    ensures Tokens(Run(Start(), HASTY + SERVED), 0) == 3
  {
    HastyRun();
    HastyTokens();
  }

  lemma HastyTokens()
    ensures Valid(Start()) && Tokens(Start(), 0) == 1
    ensures Tokens(Scene([], [RemovePoll(0), AddPoll(0)], true, 0, Client(Idle, [], 2)), 0) == 3
  {
  }

  lemma HastyRun()
    ensures AllEnabled(Start(), HASTY + SERVED)
    ensures Run(Start(), HASTY + SERVED) == Scene([], [RemovePoll(0), AddPoll(0)], true, 0, Client(Idle, [], 2))
  {
    hide Apply, Enabled, Start, Scene;
    HastyScenes();
    ServedScenes();
    var p, u, r := Completion(1, 0), Completion(UNREGISTER, 0), Completion(REGISTER, 0);
    var z := Scene([p, u, r], [], true, 0, Client(Idle, [], 0));
    var end := Scene([], [RemovePoll(0), AddPoll(0)], true, 0, Client(Idle, [], 2));
    RunThree(z, Handle, Scene([u, r], [], true, 0, Client(Idle, [], 1)), Handle,
      Scene([r], [RemovePoll(0)], false, 0, Client(Idle, [], 2)), Handle, end, []);
    assert SERVED + [] == SERVED;
    RunThree(Start(), Fire(0, 1), Scene([p], [], true, 0, Client(Idle, [], 0)), Deactivate(0, false),
      Scene([p, u], [], true, 0, Client(Paused, [], 0)), Activate(0), z, SERVED);
  }

  /** The same run goes on: every surplus post asks for one more poll, and when the executor unregisters
    * the one removal leaves two polls armed with nobody registered and nothing left to submit. */
  lemma PollsLeftArmed()
    ensures var steps := HASTY + SERVED + WOKEN + GONE + [Execute];
      && AllEnabled(Start(), steps)
      && var end := Run(Start(), steps);
         end.table == {} && end.sq == [] && end.cq == [] && end.armed[0] == 2
  {
    hide Apply, Enabled, Start;
    HastyRun();
    GoneRun();
    WokenRun();
    RunAppend(Start(), HASTY + SERVED, WOKEN);
    RunAppend(Start(), HASTY + SERVED + WOKEN, GONE + [Execute]);
    assert HASTY + SERVED + WOKEN + (GONE + [Execute]) == HASTY + SERVED + WOKEN + GONE + [Execute];
  }

  lemma {:induction false} RunAppend(w: World, a: seq<Step>, b: seq<Step>)
    requires AllEnabled(w, a) && AllEnabled(Run(w, a), b)
    ensures AllEnabled(w, a + b) && Run(w, a + b) == Run(Run(w, a), b)
    decreases |a|
  {
    hide Apply, Enabled;
    if a == [] {
      assert a + b == b;
    } else {
      assert (a + b)[1..] == a[1..] + b;
      RunAppend(Apply(w, a[0]), a[1..], b);
      RunOne(w, a + b, Run(Run(w, a), b));
    }
  }

  lemma WokenRun()
    ensures var w := Scene([], [RemovePoll(0), AddPoll(0)], true, 0, Client(Idle, [], 2));
      AllEnabled(w, WOKEN) &&
      Run(w, WOKEN) == Scene([Completion(UNREGISTER, 0)], [AddPoll(0), AddPoll(0)], true, 1, Client(Paused, [], 0))
  {
    hide Apply, Enabled, Scene;
    WokenScenes();
    WokenAgainScenes();
    AskedScenes();
    var q, u := Completion(POLL, 0), Completion(UNREGISTER, 0);
    var a, b := Scene([], [RemovePoll(0), AddPoll(0)], true, 0, Client(Idle, [], 2)), Scene([], [], true, 1, Client(Waking, [Poll(0)], 1));
    var c := Scene([q, q], [], true, 1, Client(Idle, [], 0));
    var d := Scene([u], [AddPoll(0), AddPoll(0)], true, 1, Client(Paused, [], 0));
    RunThree(c, Handle, Scene([q], [AddPoll(0)], true, 1, Client(Idle, [], 0)), Handle,
      Scene([], [AddPoll(0), AddPoll(0)], true, 1, Client(Idle, [], 0)), Deactivate(0, false), d, []);
    var last := [Handle, Handle, Deactivate(0, false)] + [];
    RunThree(b, Complete(0), Scene([q], [], true, 1, Client(Idle, [], 1)), Wake(0),
      Scene([q], [], true, 1, Client(Waking, [Poll(0)], 0)), Complete(0), c, last);
    var later := [Complete(0), Wake(0), Complete(0)] + last;
    RunThree(a, Execute, Scene([], [AddPoll(0)], true, 0, Client(Idle, [], 2)), Execute,
      Scene([], [], true, 1, Client(Idle, [], 2)), Wake(0), b, later);
    assert [Execute, Execute, Wake(0)] + later == WOKEN;
  }

  lemma GoneRun()
    ensures var w := Scene([Completion(UNREGISTER, 0)], [AddPoll(0), AddPoll(0)], true, 1, Client(Paused, [], 0));
      AllEnabled(w, GONE + [Execute]) && Run(w, GONE + [Execute]) == Scene([], [], false, 2, Client(Paused, [], 1))
  {
    hide Apply, Enabled, Scene;
    GoneScenes();
    LastRemoval();
    var w := Scene([Completion(UNREGISTER, 0)], [AddPoll(0), AddPoll(0)], true, 1, Client(Paused, [], 0));
    var x := Scene([], [AddPoll(0), AddPoll(0), RemovePoll(0)], false, 1, Client(Paused, [], 1));
    var z := Scene([], [RemovePoll(0)], false, 3, Client(Paused, [], 1));
    RunOne(z, [Execute], Scene([], [], false, 2, Client(Paused, [], 1)));
    RunThree(w, Handle, x, Execute, Scene([], [AddPoll(0), RemovePoll(0)], false, 2, Client(Paused, [], 1)), Execute, z, [Execute]);
  }
}

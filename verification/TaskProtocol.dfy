/** How tasks travel between rings: sent, run once, and returned to the ring they came from. */
module TaskProtocol {

  /** The ring of the storage, which serves and never sends; all others belong to executors. */
  const STORAGE := 0

  datatype Kind = Call | Callback

  /** A message: the ring it is addressed to, what it is, and the task it carries. */
  datatype Message = Message(target: nat, kind: Kind, task: nat)

  /** Where a task is: with the code of a ring, in a ring's submissions, in its completions, or being
    * worked on there. */
  datatype Place =
    | Held(r: nat)
    | Queued(r: nat)
    | Arrived(r: nat)
    | Working(r: nat)

  /** The fields the protocol uses; and, for reasoning, where the task is, where its trip began and how
    * often its method ran since. */
  datatype Task = Task(source: nat, target: nat, place: Place, origin: nat, runs: nat)

  /** The submissions and completions of each ring, and the tasks. */
  datatype World = World(sq: seq<seq<Message>>, cq: seq<seq<Message>>, tasks: seq<Task>)

  datatype Step =
    | Send(r: nat, task: nat, target: nat)  // executor_call_native
    | Deliver(r: nat)                       // io_uring_submit, one message
    | Serve(r: nat)                         // a completion in storage_executor_start
    | Take(r: nat)                          // a completion an executor processes
    | Reply(r: nat, task: nat)              // executor_callback_to_native

  predicate Enabled(w: World, step: Step)
    requires |w.sq| == |w.cq|
  {
    match step
    case Send(r, t, target) => r < |w.sq| && r != STORAGE && target < |w.sq| && t < |w.tasks| && w.tasks[t].place == Held(r)
    case Deliver(r) => r < |w.sq| && w.sq[r] != [] && w.sq[r][0].target < |w.sq|
    case Serve(r) => r < |w.sq| && r == STORAGE && w.cq[r] != [] && w.cq[r][0].task < |w.tasks|
    case Take(r) => r < |w.sq| && r != STORAGE && w.cq[r] != [] && w.cq[r][0].task < |w.tasks|
    case Reply(r, t) => r < |w.sq| && t < |w.tasks| && w.tasks[t].place == Working(r)
  }

  /** The task sets out: the sender is its source. */
  function Sent(task: Task, r: nat, target: nat): Task { Task(r, target, Queued(r), r, 0) }

  /** The task turns back to its source. */
  function Turned(task: Task, r: nat): Task
  {
    task.(source := r, target := task.source, place := Queued(r))
  }

  function Apply(w: World, step: Step): World
    requires |w.sq| == |w.cq| && Enabled(w, step)
  {
    match step
    case Send(r, t, target) =>
      w.(sq := w.sq[r := w.sq[r] + [Message(target, Call, t)]], tasks := w.tasks[t := Sent(w.tasks[t], r, target)])
    case Deliver(r) =>
      var m := w.sq[r][0];
      var w' := w.(sq := w.sq[r := w.sq[r][1..]], cq := w.cq[m.target := w.cq[m.target] + [m]]);
      if m.task < |w.tasks| then w'.(tasks := w.tasks[m.task := w.tasks[m.task].(place := Arrived(m.target))]) else w'
    case Serve(r) =>
      var t := w.cq[r][0].task;
      var ran := w.tasks[t].(runs := w.tasks[t].runs + 1);
      w.(cq := w.cq[r := w.cq[r][1..]],
         sq := w.sq[r := w.sq[r] + [Message(ran.source, Callback, t)]],
         tasks := w.tasks[t := Turned(ran, r)])
    case Take(r) =>
      var m := w.cq[r][0];
      w.(cq := w.cq[r := w.cq[r][1..]],
         tasks := w.tasks[m.task := w.tasks[m.task].(place := if m.kind == Call then Working(r) else Held(r))])
    case Reply(r, t) =>
      var ran := w.tasks[t].(runs := w.tasks[t].runs + 1);
      w.(sq := w.sq[r := w.sq[r] + [Message(ran.source, Callback, t)]], tasks := w.tasks[t := Turned(ran, r)])
  }

  // ---------- What every step keeps ----------

  /** A message on its way out of ring `r`. */
  ghost predicate Outgoing(w: World, r: nat, m: Message)
  {
    && m.task < |w.tasks| && m.target < |w.sq|
    && var t := w.tasks[m.task];
       && t.place == Queued(r) && t.target == m.target
       && t.origin != STORAGE
       && (m.kind == Call ==> t.source == t.origin == r && t.runs == 0)
       && (m.kind == Callback ==> t.origin == m.target && t.runs == 1)
  }

  /** A message that reached ring `r`. */
  ghost predicate Incoming(w: World, r: nat, m: Message)
  {
    && m.task < |w.tasks| && m.target == r
    && var t := w.tasks[m.task];
       && t.place == Arrived(r)
       && t.origin != STORAGE
       && (m.kind == Call ==> t.source == t.origin < |w.sq| && t.runs == 0)
       && (m.kind == Callback ==> t.origin == r && t.runs == 1)
  }

  ghost predicate OnceEach(q: seq<Message>)
  {
    forall i, j :: 0 <= i < j < |q| ==> q[i].task != q[j].task
  }

  ghost predicate Carries(q: seq<Message>, t: nat)
  {
    exists i :: 0 <= i < |q| && q[i].task == t
  }

  /** Every message carries a task that is where the message is, every task is where its place says,
    * and no queue carries one twice. */
  ghost predicate Inv(w: World)
  {
    && |w.sq| == |w.cq|
    && (forall r :: 0 <= r < |w.sq| ==> OnceEach(w.sq[r]) && OnceEach(w.cq[r]))
    && (forall r, i :: 0 <= r < |w.sq| && 0 <= i < |w.sq[r]| ==> Outgoing(w, r, w.sq[r][i]))
    && (forall r, i :: 0 <= r < |w.cq| && 0 <= i < |w.cq[r]| ==> Incoming(w, r, w.cq[r][i]))
    && (forall t :: 0 <= t < |w.tasks| ==> Placed(w, t))
  }

  ghost predicate Placed(w: World, t: nat)
    requires |w.sq| == |w.cq| && t < |w.tasks|
  {
    match w.tasks[t].place
    case Held(r) => r < |w.sq|
    case Queued(r) => r < |w.sq| && Carries(w.sq[r], t)
    case Arrived(r) => r < |w.sq| && Carries(w.cq[r], t)
    case Working(r) => r < |w.sq| && w.tasks[t].source == w.tasks[t].origin < |w.sq| && w.tasks[t].origin != STORAGE && w.tasks[t].runs == 0
  }

  /** A queue that grows by a task it does not carry, or loses its first. */
  lemma Grown(q: seq<Message>, m: Message)
    requires OnceEach(q) && !Carries(q, m.task)
    ensures OnceEach(q + [m]) && Carries(q + [m], m.task)
    ensures forall t :: t != m.task ==> (Carries(q + [m], t) <==> Carries(q, t))
  {
    assert (q + [m])[|q|] == m;
    forall t | t != m.task && Carries(q, t) ensures Carries(q + [m], t) {
      var i :| 0 <= i < |q| && q[i].task == t;
      assert (q + [m])[i] == q[i];
    }
  }

  lemma Shrunk(q: seq<Message>)
    requires OnceEach(q) && q != []
    ensures OnceEach(q[1..]) && !Carries(q[1..], q[0].task)
    ensures forall t :: t != q[0].task ==> (Carries(q[1..], t) <==> Carries(q, t))
  {
    forall t | t != q[0].task && Carries(q, t) ensures Carries(q[1..], t) {
      var i :| 0 <= i < |q| && q[i].task == t;
      assert q[1..][i - 1] == q[i];
    }
  }

  /** A task is in no queue but the one its place names. */
  lemma Elsewhere(w: World, t: nat)
    requires Inv(w) && t < |w.tasks|
    ensures forall r :: 0 <= r < |w.sq| && w.tasks[t].place != Queued(r) ==> !Carries(w.sq[r], t)
    ensures forall r :: 0 <= r < |w.cq| && w.tasks[t].place != Arrived(r) ==> !Carries(w.cq[r], t)
  {
  }

  /** Two queues carry the same tasks except perhaps `t`. */
  ghost predicate SameBut(q: seq<Message>, q': seq<Message>, t: nat)
  {
    && (forall m :: m in q' && m.task != t ==> m in q)
    && (forall u :: u != t ==> Carries(q, u) ==> Carries(q', u))
  }

  lemma SameButGrown(q: seq<Message>, m: Message)
    requires OnceEach(q) && !Carries(q, m.task)
    ensures SameBut(q, q + [m], m.task)
  {
    Grown(q, m);
  }

  lemma SameButShrunk(q: seq<Message>)
    requires OnceEach(q) && q != []
    ensures SameBut(q, q[1..], q[0].task)
  {
    Shrunk(q);
  }

  /** A step that moves one task keeps everything if it keeps that task's own affairs. */
  lemma OneMoved(w: World, w': World, t: nat)
    requires Inv(w) && t < |w.tasks| == |w'.tasks| && |w'.sq| == |w'.cq| == |w.sq|
    requires forall u :: 0 <= u < |w.tasks| && u != t ==> w'.tasks[u] == w.tasks[u]
    requires forall r :: 0 <= r < |w.sq| ==> OnceEach(w'.sq[r]) && OnceEach(w'.cq[r])
    requires forall r :: 0 <= r < |w.sq| ==> SameBut(w.sq[r], w'.sq[r], t) && SameBut(w.cq[r], w'.cq[r], t)
    requires forall r, m :: 0 <= r < |w.sq| && m in w'.sq[r] && m.task == t ==> Outgoing(w', r, m)
    requires forall r, m :: 0 <= r < |w.sq| && m in w'.cq[r] && m.task == t ==> Incoming(w', r, m)
    requires Placed(w', t)
    ensures Inv(w')
  {
    hide OnceEach, Carries;
    forall r, i | 0 <= r < |w'.sq| && 0 <= i < |w'.sq[r]| ensures Outgoing(w', r, w'.sq[r][i]) {
      var m := w'.sq[r][i];
      if m.task != t {
        var j :| 0 <= j < |w.sq[r]| && w.sq[r][j] == m;
        assert Outgoing(w, r, w.sq[r][j]);
      }
    }
    forall r, i | 0 <= r < |w'.cq| && 0 <= i < |w'.cq[r]| ensures Incoming(w', r, w'.cq[r][i]) {
      var m := w'.cq[r][i];
      if m.task != t {
        var j :| 0 <= j < |w.cq[r]| && w.cq[r][j] == m;
        assert Incoming(w, r, w.cq[r][j]);
      }
    }
    forall u | 0 <= u < |w'.tasks| ensures Placed(w', u) {
      assert Placed(w, u);
    }
  }

  lemma NotIn(q: seq<Message>, t: nat)
    requires !Carries(q, t)
    ensures forall m :: m in q ==> m.task != t
  {
  }

  lemma SendKeeps(w: World, r: nat, t: nat, target: nat)
    requires Inv(w) && Enabled(w, Send(r, t, target))
    ensures Inv(Apply(w, Send(r, t, target)))
  {
    hide Carries, OnceEach, SameBut;
    var m, w' := Message(target, Call, t), Apply(w, Send(r, t, target));
    Nowhere(w, t);
    Grown(w.sq[r], m);
    SameButGrown(w.sq[r], m);
    OneMoved(w, w', t);
  }

  lemma ReplyKeeps(w: World, r: nat, t: nat)
    requires Inv(w) && Enabled(w, Reply(r, t))
    ensures Inv(Apply(w, Reply(r, t)))
  {
    hide Carries, OnceEach, SameBut;
    var m, w' := Message(w.tasks[t].source, Callback, t), Apply(w, Reply(r, t));
    assert Placed(w, t);
    Nowhere(w, t);
    Grown(w.sq[r], m);
    SameButGrown(w.sq[r], m);
    OneMoved(w, w', t);
  }

  /** Where a task is not carried, and what its being elsewhere means for the queues. */
  lemma Nowhere(w: World, t: nat)
    requires Inv(w) && t < |w.tasks|
    ensures forall r :: 0 <= r < |w.sq| && w.tasks[t].place != Queued(r) ==>
      !Carries(w.sq[r], t) && forall m :: m in w.sq[r] ==> m.task != t
    ensures forall r :: 0 <= r < |w.cq| && w.tasks[t].place != Arrived(r) ==>
      !Carries(w.cq[r], t) && forall m :: m in w.cq[r] ==> m.task != t
    ensures forall r :: 0 <= r < |w.sq| ==> SameBut(w.sq[r], w.sq[r], t) && SameBut(w.cq[r], w.cq[r], t)
  {
    Elsewhere(w, t);
  }

  lemma DeliverKeeps(w: World, r: nat)
    requires Inv(w) && Enabled(w, Deliver(r))
    ensures Inv(Apply(w, Deliver(r)))
  {
    hide Carries, OnceEach, SameBut;
    var m, w' := w.sq[r][0], Apply(w, Deliver(r));
    assert Outgoing(w, r, m);
    Nowhere(w, m.task);
    Shrunk(w.sq[r]);
    SameButShrunk(w.sq[r]);
    NotIn(w.sq[r][1..], m.task);
    Grown(w.cq[m.target], m);
    SameButGrown(w.cq[m.target], m);
    OneMoved(w, w', m.task);
  }

  lemma ServeKeeps(w: World, r: nat)
    requires Inv(w) && Enabled(w, Serve(r))
    ensures Inv(Apply(w, Serve(r)))
  {
    hide Carries, OnceEach, SameBut;
    var t, w' := w.cq[r][0].task, Apply(w, Serve(r));
    var m := Message(w.tasks[t].source, Callback, t);
    assert Incoming(w, r, w.cq[r][0]);
    Nowhere(w, t);
    Shrunk(w.cq[r]);
    SameButShrunk(w.cq[r]);
    NotIn(w.cq[r][1..], t);
    Grown(w.sq[r], m);
    SameButGrown(w.sq[r], m);
    OneMoved(w, w', t);
  }

  lemma TakeKeeps(w: World, r: nat)
    requires Inv(w) && Enabled(w, Take(r))
    ensures Inv(Apply(w, Take(r)))
  {
    hide Carries, OnceEach, SameBut;
    var t, w' := w.cq[r][0].task, Apply(w, Take(r));
    assert Incoming(w, r, w.cq[r][0]);
    Nowhere(w, t);
    Shrunk(w.cq[r]);
    SameButShrunk(w.cq[r]);
    NotIn(w.cq[r][1..], t);
    OneMoved(w, w', t);
  }

  lemma StepKeeps(w: World, step: Step)
    requires Inv(w) && Enabled(w, step)
    ensures Inv(Apply(w, step)) && |Apply(w, step).tasks| == |w.tasks|
  {
    hide Inv;
    InvRings(w);
    match step
    case Send(r, t, target) => SendKeeps(w, r, t, target);
    case Deliver(r) => DeliverKeeps(w, r);
    case Serve(r) => ServeKeeps(w, r);
    case Take(r) => TakeKeeps(w, r);
    case Reply(r, t) => ReplyKeeps(w, r, t);
  }

  lemma InvRings(w: World)
    requires Inv(w)
    ensures |w.sq| == |w.cq|
  {
  }

  // ---------- Whole runs ----------

  ghost predicate AllEnabled(w: World, steps: seq<Step>)
    requires |w.sq| == |w.cq|
    decreases |steps|
  {
    steps == [] || (Enabled(w, steps[0]) && AllEnabled(Apply(w, steps[0]), steps[1..]))
  }

  ghost function Run(w: World, steps: seq<Step>): (r: World)
    requires |w.sq| == |w.cq| && AllEnabled(w, steps)
    ensures |r.sq| == |r.cq|
    decreases |steps|
  {
    if steps == [] then w else Run(Apply(w, steps[0]), steps[1..])
  }

  /** Nothing on its way, every task with some ring's code. */
  ghost predicate Fresh(w: World)
  {
    && |w.sq| == |w.cq|
    && (forall r :: 0 <= r < |w.sq| ==> w.sq[r] == [] && w.cq[r] == [])
    && (forall t :: 0 <= t < |w.tasks| ==> w.tasks[t].place.Held? && w.tasks[t].place.r < |w.sq|)
  }

  lemma {:induction false} RunKeeps(w: World, steps: seq<Step>)
    requires Inv(w) && AllEnabled(w, steps)
    ensures Inv(Run(w, steps)) && |Run(w, steps).tasks| == |w.tasks|
    decreases |steps|
  {
    hide Inv, Apply, Enabled;
    InvRings(w);
    if steps != [] {
      StepKeeps(w, steps[0]);
      RunKeeps(Apply(w, steps[0]), steps[1..]);
    }
  }

  /** In every state a run reaches, a task is carried by exactly the queue its place names, by none
    * when it is with some code, and never twice. */
  lemma OnePlace(w: World, steps: seq<Step>, t: nat)
    requires Fresh(w) && AllEnabled(w, steps) && t < |w.tasks|
    ensures var v := Run(w, steps);
      && |v.sq| == |v.cq| && t < |v.tasks|
      && (forall r :: 0 <= r < |v.sq| ==> (Carries(v.sq[r], t) <==> v.tasks[t].place == Queued(r)) && OnceEach(v.sq[r]))
      && (forall r :: 0 <= r < |v.cq| ==> (Carries(v.cq[r], t) <==> v.tasks[t].place == Arrived(r)) && OnceEach(v.cq[r]))
  {
    hide Carries, OnceEach, Run, Apply;
    FreshInv(w);
    RunKeeps(w, steps);
    var v := Run(w, steps);
    Elsewhere(v, t);
    assert Placed(v, t);
  }

  lemma FreshInv(w: World)
    requires Fresh(w)
    ensures Inv(w)
  {
  }

  // ---------- One trip ----------

  /** The trip of `t` began at ring `r`: away it is somewhere else than in hand; in hand again, it is
    * back at `r` and its method ran once. */
  ghost predicate OnTrip(w: World, t: nat, r: nat)
  {
    t < |w.tasks| && w.tasks[t].origin == r
    && (w.tasks[t].place.Held? ==> w.tasks[t].place == Held(r) && w.tasks[t].runs == 1)
  }

  lemma StepOnTrip(w: World, step: Step, t: nat, r: nat)
    requires Inv(w) && Enabled(w, step) && OnTrip(w, t, r)
    requires !(step.Send? && step.task == t)
    ensures OnTrip(Apply(w, step), t, r)
  {
    hide OnceEach, Carries;
    match step
    case Deliver(x) => assert Outgoing(w, x, w.sq[x][0]);
    case Serve(x) => assert Incoming(w, x, w.cq[x][0]);
    case Take(x) => assert Incoming(w, x, w.cq[x][0]);
    case _ =>
  }

  ghost predicate NotSent(steps: seq<Step>, t: nat)
  {
    forall i :: 0 <= i < |steps| ==> !(steps[i].Send? && steps[i].task == t)
  }

  /** A task that is sent comes back to the ring it was sent from, after its method ran exactly once,
    * or it is still on its way. */
  lemma {:induction false} TripHome(w: World, steps: seq<Step>, t: nat, r: nat)
    requires Inv(w) && AllEnabled(w, steps) && NotSent(steps, t) && OnTrip(w, t, r)
    ensures OnTrip(Run(w, steps), t, r)
    decreases |steps|
  {
    hide Inv, Apply, Enabled, OnTrip;
    InvRings(w);
    if steps != [] {
      StepKeeps(w, steps[0]);
      StepOnTrip(w, steps[0], t, r);
      TripHome(Apply(w, steps[0]), steps[1..], t, r);
    }
  }

  /** The same from the moment of sending. */
  lemma SentComesHome(w: World, r: nat, t: nat, target: nat, steps: seq<Step>)
    requires Inv(w) && Enabled(w, Send(r, t, target))
    requires AllEnabled(Apply(w, Send(r, t, target)), steps) && NotSent(steps, t)
    ensures var v := Run(Apply(w, Send(r, t, target)), steps);
      t < |v.tasks| && (v.tasks[t].place.Held? ==> v.tasks[t].place == Held(r) && v.tasks[t].runs == 1)
  {
    hide Inv;
    InvRings(w);
    StepKeeps(w, Send(r, t, target));
    TripHome(Apply(w, Send(r, t, target)), steps, t, r);
  }

  // ---------- Order ----------

  /** A queue stays, gains one message behind the others, or loses its first. */
  ghost predicate Fifo(q: seq<Message>, q': seq<Message>)
  {
    q' == q || (q' != [] && q' == q + [q'[|q'| - 1]]) || (q != [] && q' == q[1..])
  }

  /** Every queue is served in the order in which messages came into it, and a delivered message is the first that
    * was submitted. */
  lemma StepFifo(w: World, step: Step, r: nat)
    requires |w.sq| == |w.cq| && Enabled(w, step) && r < |w.sq|
    ensures |Apply(w, step).sq| == |Apply(w, step).cq| == |w.sq|
    ensures Fifo(w.sq[r], Apply(w, step).sq[r]) && Fifo(w.cq[r], Apply(w, step).cq[r])
    ensures step.Deliver? ==> var m := w.sq[step.r][0]; Apply(w, step).cq[m.target] == w.cq[m.target] + [m]
  {
  }

  // ---------- Where the work is done ----------

  /** Until its method has run a task that `r` sent to `target` is on its way there, or there. */
  ghost predicate BoundFor(w: World, t: nat, r: nat, target: nat)
  {
    t < |w.tasks| && (w.tasks[t].runs == 0 ==>
      match w.tasks[t].place
      case Held(_) => false
      case Queued(x) => x == r && w.tasks[t].target == target
      case Arrived(x) => x == target
      case Working(x) => x == target)
  }

  /** The step in which ring `target` runs the method of `t`. */
  ghost predicate RunsAt(w: World, step: Step, t: nat, target: nat)
    requires |w.sq| == |w.cq| && Enabled(w, step)
  {
    || step == Reply(target, t)
    || (step == Serve(target) && w.cq[target][0].task == t)
  }

  /** It stays so, and the method is run by ring `target` and by no other. */
  lemma StepBoundFor(w: World, step: Step, t: nat, r: nat, target: nat)
    requires Inv(w) && Enabled(w, step) && BoundFor(w, t, r, target)
    requires !(step.Send? && step.task == t)
    ensures BoundFor(Apply(w, step), t, r, target)
    ensures w.tasks[t].runs == 0 && Apply(w, step).tasks[t].runs != 0 <==> w.tasks[t].runs == 0 && RunsAt(w, step, t, target)
  {
    hide OnceEach, Carries;
    match step
    case Deliver(x) => assert Outgoing(w, x, w.sq[x][0]);
    case Serve(x) => assert Incoming(w, x, w.cq[x][0]);
    case Take(x) => assert Incoming(w, x, w.cq[x][0]);
    case _ =>
  }

  lemma {:induction false} TripBoundFor(w: World, steps: seq<Step>, t: nat, r: nat, target: nat)
    requires Inv(w) && AllEnabled(w, steps) && NotSent(steps, t) && BoundFor(w, t, r, target)
    ensures BoundFor(Run(w, steps), t, r, target)
    decreases |steps|
  {
    hide Inv, Apply, Enabled, BoundFor;
    InvRings(w);
    if steps != [] {
      StepKeeps(w, steps[0]);
      StepBoundFor(w, steps[0], t, r, target);
      TripBoundFor(Apply(w, steps[0]), steps[1..], t, r, target);
    }
  }

  /** A task that is sent is worked on where it was sent: through any run it is on its way there or there until
    * its method has run, and the step that runs the method is one of that ring. */
  lemma SentIsServedThere(w: World, r: nat, t: nat, target: nat, steps: seq<Step>, next: Step)
    requires Inv(w) && Enabled(w, Send(r, t, target))
    requires AllEnabled(Apply(w, Send(r, t, target)), steps) && NotSent(steps, t)
    requires Enabled(Run(Apply(w, Send(r, t, target)), steps), next) && !(next.Send? && next.task == t)
    ensures var v := Run(Apply(w, Send(r, t, target)), steps);
      && BoundFor(v, t, r, target)
      && (v.tasks[t].runs == 0 && Apply(v, next).tasks[t].runs != 0 <==> v.tasks[t].runs == 0 && RunsAt(v, next, t, target))
  {
    hide Inv, BoundFor, RunsAt;
    InvRings(w);
    var w1 := Apply(w, Send(r, t, target));
    StepKeeps(w, Send(r, t, target));
    SentIsBoundFor(w, r, t, target);
    TripBoundFor(w1, steps, t, r, target);
    RunKeeps(w1, steps);
    StepBoundFor(Run(w1, steps), next, t, r, target);
  }

  lemma SentIsBoundFor(w: World, r: nat, t: nat, target: nat)
    requires |w.sq| == |w.cq| && Enabled(w, Send(r, t, target))
    ensures BoundFor(Apply(w, Send(r, t, target)), t, r, target)
  {
  }

  // ---------- Nothing gets stuck ----------

  /** How many steps a task still has to go. */
  function Distance(task: Task): nat
  {
    match task.place
    case Held(_) => 0
    case Queued(_) => if task.runs == 0 then 5 else 2
    case Arrived(_) => if task.runs == 0 then 4 else 1
    case Working(_) => 3
  }

  function TotalDistance(tasks: seq<Task>): nat
  {
    if tasks == [] then 0 else Distance(tasks[0]) + TotalDistance(tasks[1..])
  }

  lemma {:induction false} DistanceUpdate(tasks: seq<Task>, t: nat, task: Task)
    requires t < |tasks|
    ensures TotalDistance(tasks[t := task]) == TotalDistance(tasks) - Distance(tasks[t]) + Distance(task)
    decreases t
  {
    if t == 0 {
      assert tasks[0 := task][1..] == tasks[1..];
    } else {
      assert tasks[t := task][1..] == tasks[1..][t - 1 := task];
      DistanceUpdate(tasks[1..], t - 1, task);
    }
  }

  /** Every step but a new sending brings one task closer to home. */
  lemma StepCloser(w: World, step: Step)
    requires Inv(w) && Enabled(w, step) && !step.Send?
    ensures TotalDistance(Apply(w, step).tasks) < TotalDistance(w.tasks)
  {
    hide OnceEach, Carries, TotalDistance;
    match step
    case Deliver(r) =>
      var m := w.sq[r][0];
      assert Outgoing(w, r, m);
      DistanceUpdate(w.tasks, m.task, w.tasks[m.task].(place := Arrived(m.target)));
    case Serve(r) =>
      var m := w.cq[r][0];
      assert Incoming(w, r, m);
      DistanceUpdate(w.tasks, m.task, Turned(w.tasks[m.task].(runs := w.tasks[m.task].runs + 1), r));
    case Take(r) =>
      var m := w.cq[r][0];
      assert Incoming(w, r, m);
      DistanceUpdate(w.tasks, m.task, w.tasks[m.task].(place := if m.kind == Call then Working(r) else Held(r)));
    case Reply(r, t) =>
      assert Placed(w, t);
      DistanceUpdate(w.tasks, t, Turned(w.tasks[t].(runs := w.tasks[t].runs + 1), r));
  }

  /** And as long as a task is away, some such step is possible. */
  lemma SomeStep(w: World, t: nat) returns (step: Step)
    requires Inv(w) && t < |w.tasks| && !w.tasks[t].place.Held?
    ensures Enabled(w, step) && !step.Send?
  {
    hide OnceEach;
    assert Placed(w, t);
    match w.tasks[t].place
    case Queued(r) =>
      assert Outgoing(w, r, w.sq[r][0]);
      step := Deliver(r);
    case Arrived(r) =>
      assert Incoming(w, r, w.cq[r][0]);
      step := if r == STORAGE then Serve(r) else Take(r);
    case Working(r) =>
      step := Reply(r, t);
  }

  /** A run without a new sending brings the tasks closer by a step's length each time, so it is no longer
    * than the distance they had to go. */
  lemma {:induction false} RunCloser(w: World, steps: seq<Step>)
    requires Inv(w) && |w.sq| == |w.cq| && AllEnabled(w, steps)
    requires forall i :: 0 <= i < |steps| ==> !steps[i].Send?
    ensures |steps| + TotalDistance(Run(w, steps).tasks) <= TotalDistance(w.tasks)
    decreases |steps|
  {
    hide Inv, Apply, Enabled, TotalDistance;
    InvRings(w);
    if steps != [] {
      StepKeeps(w, steps[0]);
      StepCloser(w, steps[0]);
      InvRings(Apply(w, steps[0]));
      RunCloser(Apply(w, steps[0]), steps[1..]);
    }
  }

  /** When nothing but new sendings can go on, every task is at home. */
  lemma {:induction false} RunEndsHome(w: World, steps: seq<Step>)
    requires Inv(w) && |w.sq| == |w.cq| && AllEnabled(w, steps)
    requires forall step :: Enabled(Run(w, steps), step) ==> step.Send?
    ensures forall t :: 0 <= t < |Run(w, steps).tasks| ==> Run(w, steps).tasks[t].place.Held?
    decreases |steps|
  {
    hide Inv, Apply, Enabled;
    if steps != [] {
      InvRings(w);
      StepKeeps(w, steps[0]);
      InvRings(Apply(w, steps[0]));
      RunEndsHome(Apply(w, steps[0]), steps[1..]);
    } else {
      forall t | 0 <= t < |w.tasks| ensures w.tasks[t].place.Held? {
        if !w.tasks[t].place.Held? {
          var step := SomeStep(w, t);
        }
      }
    }
  }

  /** From any state the rings can bring every task home without a new sending, in no more steps than the
    * distance they have to go. */
  lemma {:induction false} AllComeHome(w: World) returns (steps: seq<Step>)
    requires Inv(w)
    ensures |w.sq| == |w.cq| && AllEnabled(w, steps) && |steps| <= TotalDistance(w.tasks)
    ensures forall i :: 0 <= i < |steps| ==> !steps[i].Send?
    ensures forall t :: 0 <= t < |Run(w, steps).tasks| ==> Run(w, steps).tasks[t].place.Held?
    decreases TotalDistance(w.tasks)
  {
    hide Inv, Apply, Enabled, TotalDistance;
    InvRings(w);
    if t :| 0 <= t < |w.tasks| && !w.tasks[t].place.Held? {
      var step := SomeStep(w, t);
      StepKeeps(w, step);
      StepCloser(w, step);
      var rest := AllComeHome(Apply(w, step));
      steps := [step] + rest;
      assert steps[1..] == rest;
    } else {
      steps := [];
    }
  }

  // ---------- The storage ----------

  /** `n` completions of the storage's ring, one after the other. */
  ghost function ServeMany(w: World, n: nat): (r: World)
    requires Inv(w) && 0 < |w.cq| && n <= |w.cq[STORAGE]|
    ensures Inv(r) && |r.cq| == |w.cq| && r.cq[STORAGE] == w.cq[STORAGE][n..]
    decreases n
  {
    if n == 0 then w
    else
      var v := ServeMany(w, n - 1);
      assert Incoming(v, STORAGE, v.cq[STORAGE][0]);
      StepKeeps(v, Serve(STORAGE));
      Apply(v, Serve(STORAGE))
  }

  /** The batch loop of `storage_executor_start`: every completion's task is run and sent back, the
    * completions being released together at the end. */
  method ServeBatch(w: World) returns (w': World)
    requires Inv(w) && 0 < |w.cq|
    ensures w' == ServeMany(w, |w.cq[STORAGE]|) && Inv(w') && w'.cq[STORAGE] == []
  {
    hide Inv;
    InvRings(w);
    var sq, tasks, count := w.sq, w.tasks, 0;
    var batch := w.cq[STORAGE];
    assert w.cq[STORAGE := batch[0..]] == w.cq;
    while count < |batch|
      invariant count <= |batch| && |sq| == |w.cq|
      invariant World(sq, w.cq[STORAGE := batch[count..]], tasks) == ServeMany(w, count)
    {
      ghost var v := ServeMany(w, count);
      Known(v);
      assert batch[count..][1..] == batch[count + 1..];
      assert w.cq[STORAGE := batch[count..]][STORAGE := batch[count + 1..]] == w.cq[STORAGE := batch[count + 1..]];
      var t := batch[count].task;
      assert t == v.cq[STORAGE][0].task;
      var source := tasks[t].source;
      tasks := tasks[t := tasks[t].(runs := tasks[t].runs + 1)];
      tasks := tasks[t := Turned(tasks[t], STORAGE)];
      sq := sq[STORAGE := sq[STORAGE] + [Message(source, Callback, t)]];
      count := count + 1;
    }
    w' := World(sq, w.cq[STORAGE := batch[count..]], tasks);
  }

  lemma Known(w: World)
    requires Inv(w) && 0 < |w.cq| && w.cq[STORAGE] != []
    ensures |w.sq| == |w.cq| && w.cq[STORAGE][0].task < |w.tasks|
  {
    assert Incoming(w, STORAGE, w.cq[STORAGE][0]);
  }
}

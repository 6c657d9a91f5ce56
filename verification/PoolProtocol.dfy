/**
 The connection pool as a protocol: what one atomic step of a call does to the queue of
 connections, and what every interleaving of the steps of any number of calls keeps.
 */
module PoolProtocol {
  import opened Outcomes

  /** Connections are told apart by the order in which `_new_conn` made them. */
  type Conn = nat

  datatype Config = Config(maxsize: nat, block: bool)

  /** `self.pool` (None once closed; the top of the stack is last), the connections made and those not closed. */
  datatype Pool = Pool(queue: Option<seq<Option<Conn>>>, made: nat, open: set<Conn>)

  datatype PoolError = EmptyPool | ClosedPool | FullPool

  function NewPool(cfg: Config): Pool {
    Pool(Some(seq(cfg.maxsize, _ => None)), 0, {})
  }

  function CloseConn(p: Pool, conn: Option<Conn>): Pool {
    if conn.Some? then p.(open := p.open - {conn.value}) else p
  }

  /** `_get_conn`: the slot on top of the queue, or an error. A missing or dropped connection is made anew. */
  function GetConn(cfg: Config, p: Pool, dropped: bool): (Pool, Result<Conn, PoolError>) {
    if p.queue.None? then (p, Err(ClosedPool))
    else
      var q := p.queue.value;
      if q == [] && cfg.block then (p, Err(EmptyPool))
      else
        var slot := if q == [] then None else q[|q| - 1];
        var taken := p.(queue := Some(if q == [] then q else q[..|q| - 1]));
        match slot
        case Some(conn) => (if dropped then CloseConn(taken, slot) else taken, Ok(conn))
        case None => (taken.(made := p.made + 1), Ok(p.made))
  }

  /** `queue.Full`; a LifoQueue of maxsize 0 is never full. */
  predicate IsFull(cfg: Config, q: seq<Option<Conn>>) {
    0 < cfg.maxsize <= |q|
  }

  /** `_put_conn`: back on the queue, or closed when there is no room; true is the FullPoolError. */
  function PutConn(cfg: Config, p: Pool, conn: Option<Conn>): (Pool, bool) {
    if p.queue.None? then (CloseConn(p, conn), false)
    else if IsFull(cfg, p.queue.value) then (CloseConn(p, conn), cfg.block)
    else (p.(queue := Some(p.queue.value + [conn])), false)
  }

  /** `close`: the queued connections are closed and the queue is gone. */
  function ClosePool(p: Pool): Pool {
    if p.queue.None? then p else Pool(None, p.made, set c | c in p.open && Some(c) !in p.queue.value)
  }

  // ---------- one call of urlopen ----------

  datatype Ending = Returned | Raised

  /** Where a call is: about to get a connection, making its request, looking at the response, or over. */
  datatype Point = Getting | Requesting | Deciding | Ended(ending: Ending)

  /**
   A call: the connection its frame has taken and not put back, the connection its latest response
   holds (`response._connection`), and whether it met a FullPoolError.
   */
  datatype Call = Call(release: bool, at: Point, frame: Option<Conn>, response: Option<Conn>, full: bool)

  /** What comes of the request: a response, an exception that is retried or not, or any other exception. */
  datatype Fate = Answered | Broken(retried: bool) | Crashed

  /** What urlopen does with a response: return it, or drain it and then retry (or redirect) or raise. */
  datatype Decision = HandOver | Drain(clean: bool, again: bool)

  function Begin(release: bool): Call {
    Call(release, Getting, None, None, false)
  }

  /** `conn = self._get_conn(...)`; the request then connects it. */
  function GetStep(cfg: Config, p: Pool, c: Call, dropped: bool): (Pool, Call) {
    var (p', got) := GetConn(cfg, p, dropped);
    match got
    case Ok(conn) => (p'.(open := p'.open + {conn}), c.(at := Requesting, frame := Some(conn)))
    case Err(EmptyPool) => (p', c.(at := Ended(Raised)))
    case Err(_) =>
      // The finally block puts None back.
      var (p'', full) := PutConn(cfg, p', None);
      (p'', c.(at := Ended(Raised), full := c.full || full))
  }

  /** The timeout argument is rejected before a connection is taken; the finally block puts None back all the same. */
  function RejectStep(cfg: Config, p: Pool, c: Call): (Pool, Call) {
    var (p', full) := PutConn(cfg, p, None);
    (p', c.(at := Ended(Raised), full := c.full || full))
  }

  /** The end of the try statement, with its except and finally blocks. */
  function FinishStep(cfg: Config, p: Pool, c: Call, fate: Fate): (Pool, Call) {
    if fate.Answered? then
      if c.release then
        var (p', full) := PutConn(cfg, p, c.frame);
        var at' := if full then Ended(Raised) else Deciding;
        (p', c.(at := at', frame := None, response := None, full := c.full || full))
      else
        (p, c.(at := Deciding, frame := None, response := c.frame))
    else
      var (p', full) := PutConn(cfg, CloseConn(p, c.frame), None);
      var again := fate.Broken? && fate.retried && !full;
      (p', c.(at := if again then Getting else Ended(Raised), frame := None, full := c.full || full))
  }

  /** `release_conn` of the response, reached from the end of a read; an unclean read closes the connection first. */
  function ReleaseStep(cfg: Config, p: Pool, c: Call, clean: bool): (Pool, Call) {
    if c.response.None? then (p, c)
    else
      var (p', full) := PutConn(cfg, if clean then p else CloseConn(p, c.response), c.response);
      (p', if full then c.(full := true) else c.(response := None))
  }

  /** Redirect, status retry or return. */
  function DecideStep(cfg: Config, p: Pool, c: Call, decision: Decision): (Pool, Call) {
    match decision
    case HandOver => (p, c.(at := Ended(Returned)))
    case Drain(clean, again) =>
      var (p', c') := ReleaseStep(cfg, p, c, clean);
      (p', c'.(at := if again then Getting else Ended(Raised)))
  }

  // ---------- any number of calls ----------

  datatype World = World(pool: Pool, calls: seq<Call>)

  datatype Step =
    | Start(release: bool)
    | Reject(id: nat)
    | Get(id: nat, dropped: bool)
    | Finish(id: nat, fate: Fate)
    | Decide(id: nat, decision: Decision)
    | Release(id: nat, clean: bool)
    | Close

  /**
   A step of the call `id` when it is at the point the step starts from; the holder of a response may
   release it at any time.
   */
  function CallStep(cfg: Config, p: Pool, c: Call, step: Step): (Pool, Call) {
    match step
    case Reject(_) => if c.at.Getting? then RejectStep(cfg, p, c) else (p, c)
    case Get(_, dropped) => if c.at.Getting? then GetStep(cfg, p, c, dropped) else (p, c)
    case Finish(_, fate) => if c.at.Requesting? then FinishStep(cfg, p, c, fate) else (p, c)
    case Decide(_, decision) => if c.at.Deciding? then DecideStep(cfg, p, c, decision) else (p, c)
    case Release(_, clean) => if c.at.Ended? then ReleaseStep(cfg, p, c, clean) else (p, c)
    case _ => (p, c)
  }

  function Next(cfg: Config, w: World, step: Step): World {
    match step
    case Start(release) => w.(calls := w.calls + [Begin(release)])
    case Close => w.(pool := ClosePool(w.pool))
    case _ =>
      if step.id < |w.calls| then
        var (p, c) := CallStep(cfg, w.pool, w.calls[step.id], step);
        World(p, w.calls[step.id := c])
      else w
  }

  function RunFrom(cfg: Config, w: World, steps: seq<Step>): World {
    if steps == [] then w
    else Next(cfg, RunFrom(cfg, w, steps[..|steps| - 1]), steps[|steps| - 1])
  }

  function Run(cfg: Config, steps: seq<Step>): World {
    RunFrom(cfg, World(NewPool(cfg), []), steps)
  }

  // ---------- what is kept ----------

  /** How often the connection `k` is in a place, and how many slots the place takes. */
  function Copies(conn: Option<Conn>, k: Conn): nat {
    if conn == Some(k) then 1 else 0
  }

  function CopiesQueued(q: seq<Option<Conn>>, k: Conn): nat {
    if q == [] then 0 else CopiesQueued(q[..|q| - 1], k) + Copies(q[|q| - 1], k)
  }

  function InQueue(p: Pool, k: Conn): nat {
    if p.queue.Some? then CopiesQueued(p.queue.value, k) else 0
  }

  function HeldBy(c: Call, k: Conn): nat {
    Copies(c.frame, k) + Copies(c.response, k)
  }

  function Held(calls: seq<Call>, k: Conn): nat {
    if calls == [] then 0 else Held(calls[..|calls| - 1], k) + HeldBy(calls[|calls| - 1], k)
  }

  function SlotsOf(c: Call): nat {
    (if c.frame.Some? then 1 else 0) + (if c.response.Some? then 1 else 0)
  }

  /** The slots out of the queue: held by running calls and by responses that were not released. */
  function Slots(calls: seq<Call>): nat {
    if calls == [] then 0 else Slots(calls[..|calls| - 1]) + SlotsOf(calls[|calls| - 1])
  }

  /** A connection is in one place at most, and in exactly one while it is open: it is neither shared nor leaked. */
  predicate Placed(p: Pool, held: nat, k: Conn) {
    && InQueue(p, k) + held <= 1
    && (InQueue(p, k) + held == 1 ==> k < p.made)
    && (k in p.open ==> InQueue(p, k) + held == 1)
  }

  /** A blocking pool always has its `maxsize` slots, queued or held; another never queues more than `maxsize`. */
  predicate Conserved(cfg: Config, p: Pool, slots: nat) {
    p.queue.Some? ==>
      && (cfg.block ==> |p.queue.value| + slots == cfg.maxsize)
      && (cfg.maxsize > 0 ==> |p.queue.value| <= cfg.maxsize)
  }

  /** A call about to get a connection holds none, not even through an earlier response. */
  predicate Proper(c: Call) {
    && !c.full
    && (c.at.Getting? ==> c.frame.None? && c.response.None?)
    && (c.at.Requesting? <==> c.frame.Some?)
    && (c.at.Requesting? ==> c.response.None?)
  }

  /** The pool's state beside calls that hold `held` copies of `k` and `slots` slots. */
  predicate Good(cfg: Config, p: Pool, held: nat, slots: nat, k: Conn) {
    Placed(p, held, k) && Conserved(cfg, p, slots)
  }

  ghost predicate GoodWorld(cfg: Config, w: World, k: Conn) {
    && Good(cfg, w.pool, Held(w.calls, k), Slots(w.calls), k)
    && forall i :: 0 <= i < |w.calls| ==> Proper(w.calls[i])
  }

  lemma {:induction false} QueuedMember(q: seq<Option<Conn>>, k: Conn)
    ensures CopiesQueued(q, k) > 0 <==> Some(k) in q
  {
    if q != [] {
      QueuedMember(q[..|q| - 1], k);
      assert q == q[..|q| - 1] + [q[|q| - 1]];
    }
  }

  /** Giving back a connection that is held (or, with it closed, an empty slot) frees the holder and finds room. */
  lemma PutKeeps(cfg: Config, p: Pool, conn: Option<Conn>, one: Conn, held: nat, slots: nat, k: Conn)
    requires Good(cfg, p, Copies(Some(one), k) + held, 1 + slots, k)
    requires conn == Some(one) || (conn == None && one !in p.open)
    ensures var (p', full) := PutConn(cfg, p, conn); Good(cfg, p', held, slots, k) && !full
  {
    if p.queue.Some? {
      var q := p.queue.value;
      assert (q + [conn])[..|q|] == q;
    }
  }

  lemma GetKeeps(cfg: Config, p: Pool, dropped: bool, held: nat, slots: nat, k: Conn)
    requires Good(cfg, p, held, slots, k)
    ensures var (p', got) := GetConn(cfg, p, dropped);
            if got.Ok? then
              Good(cfg, p'.(open := p'.open + {got.value}), Copies(Some(got.value), k) + held, 1 + slots, k)
            else p' == p && (got.error == ClosedPool <==> p.queue.None?)
  {
  }

  lemma GetStepKeeps(cfg: Config, p: Pool, c: Call, dropped: bool, held: nat, slots: nat, k: Conn)
    requires Good(cfg, p, held, slots, k) && Proper(c) && c.at.Getting?
    ensures var (p', c') := GetStep(cfg, p, c, dropped);
            Good(cfg, p', HeldBy(c', k) + held, SlotsOf(c') + slots, k) && Proper(c')
  {
    GetKeeps(cfg, p, dropped, held, slots, k);
  }

  lemma FinishKeeps(cfg: Config, p: Pool, c: Call, fate: Fate, held: nat, slots: nat, k: Conn)
    requires Good(cfg, p, HeldBy(c, k) + held, SlotsOf(c) + slots, k) && Proper(c) && c.at.Requesting?
    ensures var (p', c') := FinishStep(cfg, p, c, fate);
            Good(cfg, p', HeldBy(c', k) + held, SlotsOf(c') + slots, k) && Proper(c')
  {
    if !fate.Answered? {
      PutKeeps(cfg, CloseConn(p, c.frame), None, c.frame.value, held, slots, k);
    } else if c.release {
      PutKeeps(cfg, p, c.frame, c.frame.value, held, slots, k);
    }
  }

  /** Releasing a response leaves it without a connection. */
  lemma ReleaseKeeps(cfg: Config, p: Pool, c: Call, clean: bool, held: nat, slots: nat, k: Conn)
    requires Good(cfg, p, HeldBy(c, k) + held, SlotsOf(c) + slots, k) && !c.full && c.frame.None?
    ensures var (p', c') := ReleaseStep(cfg, p, c, clean);
            Good(cfg, p', held, slots, k) && c' == c.(response := None)
  {
    if c.response.Some? {
      PutKeeps(cfg, if clean then p else CloseConn(p, c.response), c.response, c.response.value, held, slots, k);
    }
  }

  lemma DecideKeeps(cfg: Config, p: Pool, c: Call, decision: Decision, held: nat, slots: nat, k: Conn)
    requires Good(cfg, p, HeldBy(c, k) + held, SlotsOf(c) + slots, k) && Proper(c) && c.at.Deciding?
    ensures var (p', c') := DecideStep(cfg, p, c, decision);
            Good(cfg, p', HeldBy(c', k) + held, SlotsOf(c') + slots, k) && Proper(c')
  {
    if decision.Drain? {
      ReleaseKeeps(cfg, p, c, decision.clean, held, slots, k);
    }
  }

  /** The put without a get adds a slot, unless there is no queue or slots are not counted. */
  lemma RejectKeeps(cfg: Config, p: Pool, c: Call, held: nat, slots: nat, k: Conn)
    requires Good(cfg, p, held, slots, k) && Proper(c) && c.at.Getting?
    ensures var (p', c') := RejectStep(cfg, p, c);
            Good(cfg, p', HeldBy(c', k) + held, SlotsOf(c') + slots, k) && Proper(c') <==> !cfg.block || p.queue.None?
  {
    if p.queue.Some? {
      var q := p.queue.value;
      assert (q + [None])[..|q|] == q;
    }
  }

  /** A step that puts back a slot which was never taken, into a pool that counts its slots. */
  predicate Harmful(cfg: Config, p: Pool, c: Call, step: Step) {
    step.Reject? && c.at.Getting? && cfg.block && p.queue.Some?
  }

  lemma StepKeeps(cfg: Config, p: Pool, c: Call, step: Step, held: nat, slots: nat, k: Conn)
    requires Good(cfg, p, HeldBy(c, k) + held, SlotsOf(c) + slots, k) && Proper(c) && !Harmful(cfg, p, c, step)
    ensures var (p', c') := CallStep(cfg, p, c, step);
            Good(cfg, p', HeldBy(c', k) + held, SlotsOf(c') + slots, k) && Proper(c')
  {
    if step.Reject? && c.at.Getting? {
      RejectKeeps(cfg, p, c, held, slots, k);
    } else if step.Get? && c.at.Getting? {
      GetStepKeeps(cfg, p, c, step.dropped, held, slots, k);
    } else if step.Finish? && c.at.Requesting? {
      FinishKeeps(cfg, p, c, step.fate, held, slots, k);
    } else if step.Decide? && c.at.Deciding? {
      DecideKeeps(cfg, p, c, step.decision, held, slots, k);
    } else if step.Release? && c.at.Ended? {
      ReleaseKeeps(cfg, p, c, step.clean, held, slots, k);
    }
  }

  lemma CloseKeeps(cfg: Config, p: Pool, held: nat, slots: nat, k: Conn)
    requires Good(cfg, p, held, slots, k)
    ensures Good(cfg, ClosePool(p), held, slots, k)
  {
    if p.queue.Some? {
      QueuedMember(p.queue.value, k);
    }
  }

  lemma {:induction false} HeldSplit(calls: seq<Call>, i: nat, c: Call, k: Conn)
    requires i < |calls|
    ensures HeldBy(calls[i], k) <= Held(calls, k) && SlotsOf(calls[i]) <= Slots(calls)
    ensures Held(calls[i := c], k) == HeldBy(c, k) + (Held(calls, k) - HeldBy(calls[i], k))
    ensures Slots(calls[i := c]) == SlotsOf(c) + (Slots(calls) - SlotsOf(calls[i]))
  {
    var n := |calls| - 1;
    if i == n {
      assert calls[i := c][..n] == calls[..n];
    } else {
      HeldSplit(calls[..n], i, c, k);
      assert calls[i := c][..n] == calls[..n][i := c];
    }
  }

  lemma {:induction false} NewPoolQueue(q: seq<Option<Conn>>, k: Conn)
    requires forall i :: 0 <= i < |q| ==> q[i].None?
    ensures CopiesQueued(q, k) == 0
  {
    QueuedMember(q, k);
  }

  lemma CallKeeps(cfg: Config, w: World, id: nat, step: Step, k: Conn)
    requires GoodWorld(cfg, w, k) && id < |w.calls|
    ensures var (p, c) := CallStep(cfg, w.pool, w.calls[id], step);
            GoodWorld(cfg, World(p, w.calls[id := c]), k) <==> !Harmful(cfg, w.pool, w.calls[id], step)
  {
    var c := w.calls[id];
    var c' := CallStep(cfg, w.pool, c, step).1;
    var held, slots := Held(w.calls, k) - HeldBy(c, k), Slots(w.calls) - SlotsOf(c);
    HeldSplit(w.calls, id, c', k);
    assert w.calls[id := c'][id] == c';
    if Harmful(cfg, w.pool, c, step) {
      RejectKeeps(cfg, w.pool, c, held, slots, k);
    } else {
      StepKeeps(cfg, w.pool, c, step, held, slots, k);
    }
  }

  lemma StartKeeps(cfg: Config, w: World, release: bool, k: Conn)
    requires GoodWorld(cfg, w, k)
    ensures GoodWorld(cfg, World(w.pool, w.calls + [Begin(release)]), k)
  {
    assert (w.calls + [Begin(release)])[..|w.calls|] == w.calls;
  }

  lemma NextKeeps(cfg: Config, w: World, step: Step, k: Conn)
    requires GoodWorld(cfg, w, k)
    requires cfg.block ==> !step.Reject?
    ensures GoodWorld(cfg, Next(cfg, w, step), k)
  {
    match step {
      case Start(release) =>
        StartKeeps(cfg, w, release, k);
      case Close =>
        CloseKeeps(cfg, w.pool, Held(w.calls, k), Slots(w.calls), k);
      case _ =>
        if step.id < |w.calls| {
          CallKeeps(cfg, w, step.id, step, k);
        }
    }
  }

  /** No call passes a timeout that is rejected, if the pool counts its slots. */
  predicate ValidTimeouts(cfg: Config, steps: seq<Step>) {
    cfg.block ==> forall i :: 0 <= i < |steps| ==> !steps[i].Reject?
  }

  /**
   Pool conservation, in every interleaving: a blocking pool has its `maxsize` slots, each queued or
   held by one running call or one unreleased response; no call ever meets a FullPoolError; a call that
   (re)tries or follows a redirect has nothing of the pool's left in its hands; and no connection is
   shared, queued twice or left open outside the queue and the holders.
   */
  lemma {:induction false} RunKeeps(cfg: Config, steps: seq<Step>, k: Conn)
    requires ValidTimeouts(cfg, steps)
    ensures GoodWorld(cfg, Run(cfg, steps), k)
  {
    if steps == [] {
      NewPoolQueue(NewPool(cfg).queue.value, k);
    } else {
      RunKeeps(cfg, steps[..|steps| - 1], k);
      NextKeeps(cfg, Run(cfg, steps[..|steps| - 1]), steps[|steps| - 1], k);
    }
  }

  /** A connection held by one call (or its response) is held by no other and is not in the queue. */
  lemma NotShared(cfg: Config, steps: seq<Step>, i: nat, j: nat, k: Conn)
    requires ValidTimeouts(cfg, steps)
    requires i < |Run(cfg, steps).calls| && j < |Run(cfg, steps).calls| && i != j
    requires HeldBy(Run(cfg, steps).calls[i], k) > 0
    ensures HeldBy(Run(cfg, steps).calls[j], k) == 0 && InQueue(Run(cfg, steps).pool, k) == 0
  {
    var w := Run(cfg, steps);
    RunKeeps(cfg, steps, k);
    var without := w.calls[i := Begin(false)];
    HeldSplit(w.calls, i, Begin(false), k);
    HeldSplit(without, j, Begin(false), k);
  }

  /**
   A call whose timeout argument is rejected has taken nothing, yet its finally block puts an empty slot
   back: the pool's invariant survives that step exactly when the pool does not block or is closed.
   */
  lemma RejectedTimeout(cfg: Config, w: World, id: nat, k: Conn)
    requires GoodWorld(cfg, w, k) && id < |w.calls| && w.calls[id].at.Getting?
    ensures GoodWorld(cfg, Next(cfg, w, Reject(id)), k) <==> !cfg.block || w.pool.queue.None?
  {
    CallKeeps(cfg, w, id, Reject(id), k);
  }

  lemma RunStep(cfg: Config, steps: seq<Step>, step: Step)
    ensures Run(cfg, steps + [step]) == Next(cfg, Run(cfg, steps), step)
  {
    assert (steps + [step])[..|steps|] == steps;
  }

  /** A call that did nothing wrong meets a FullPoolError, because another's rejected timeout took its place. */
  lemma RejectedTimeoutHarms()
    ensures var w := Run(Config(1, true), [Start(true), Start(true), Get(0, false), Reject(1), Finish(0, Answered)]);
            |w.calls| == 2 && w.calls[0].full && w.calls[0].at == Ended(Raised)
  {
    var cfg := Config(1, true);
    var steps := [Start(true), Start(true), Get(0, false), Reject(1), Finish(0, Answered)];
    assert NewPool(cfg).queue.value == [None];
    assert steps[..0] + [steps[0]] == steps[..1] && steps[..1] + [steps[1]] == steps[..2];
    assert steps[..2] + [steps[2]] == steps[..3] && steps[..3] + [steps[3]] == steps[..4];
    assert steps[..4] + [steps[4]] == steps;
    RunStep(cfg, steps[..0], steps[0]);
    RunStep(cfg, steps[..1], steps[1]);
    RunStep(cfg, steps[..2], steps[2]);
    RunStep(cfg, steps[..3], steps[3]);
    RunStep(cfg, steps[..4], steps[4]);
    var began := Begin(true);
    assert Run(cfg, steps[..2]) == World(Pool(Some([None]), 0, {}), [began, began]);
    var took := began.(at := Requesting, frame := Some(0));
    assert Run(cfg, steps[..3]) == World(Pool(Some([]), 1, {0}), [took, began]);
    var after := Run(cfg, steps[..4]);
    assert after.pool.queue.value == [None] && |after.calls| == 2 && after.calls[0] == took;
  }

  // ---------- one call from beginning to end ----------

  /** What will happen to a call and to its retries: the environment's part of one urlopen. */
  datatype Plan = Plan(rejected: bool, dropped: bool, outcome: Outcome)
  datatype Outcome =
    | Response(next: Reaction)
    | Failure(retry: Option<Plan>)
    | Crash
  datatype Reaction = Keep | Discard(clean: bool, retry: Option<Plan>)

  function FateOf(o: Outcome): Fate {
    match o
    case Response(_) => Answered
    case Failure(retry) => Broken(retry.Some?)
    case Crash => Crashed
  }

  function DecisionOf(r: Reaction): Decision {
    match r
    case Keep => HandOver
    case Discard(clean, retry) => Drain(clean, retry.Some?)
  }

  /** The call run on its own to its end, in the steps of the protocol. */
  function Alone(cfg: Config, p: Pool, c: Call, plan: Plan): (r: (Pool, Call))
    requires c.at.Getting?
    ensures r.1.at.Ended?
    decreases plan
  {
    var (p1, c1) := if plan.rejected then RejectStep(cfg, p, c) else GetStep(cfg, p, c, plan.dropped);
    if c1.at.Ended? then (p1, c1)
    else
      var (p2, c2) := FinishStep(cfg, p1, c1, FateOf(plan.outcome));
      if c2.at.Getting? then Alone(cfg, p2, c2, plan.outcome.retry.value)
      else if c2.at.Deciding? then
        var (p3, c3) := DecideStep(cfg, p2, c2, DecisionOf(plan.outcome.next));
        if c3.at.Getting? then Alone(cfg, p3, c3, plan.outcome.next.retry.value) else (p3, c3)
      else (p2, c2)
  }

  lemma {:induction false} RunFromConcat(cfg: Config, w: World, a: seq<Step>, b: seq<Step>)
    ensures RunFrom(cfg, w, a + b) == RunFrom(cfg, RunFrom(cfg, w, a), b)
    decreases |b|
  {
    if b == [] {
      assert a + b == a;
    } else {
      RunFromConcat(cfg, w, a, b[..|b| - 1]);
      assert (a + b)[..|a + b| - 1] == a + b[..|b| - 1];
    }
  }

  lemma ThenStep(cfg: Config, w: World, steps: seq<Step>, id: nat, p: Pool, c: Call, step: Step)
    requires id < |w.calls| && RunFrom(cfg, w, steps) == World(p, w.calls[id := c])
    requires !step.Start? && !step.Close? && step.id == id
    ensures var (p', c') := CallStep(cfg, p, c, step);
            RunFrom(cfg, w, steps + [step]) == World(p', w.calls[id := c'])
  {
    assert (steps + [step])[..|steps|] == steps;
    var c' := CallStep(cfg, p, c, step).1;
    assert w.calls[id := c][id := c'] == w.calls[id := c'];
  }

  lemma ThenRun(cfg: Config, w: World, steps: seq<Step>, id: nat, p: Pool, c: Call, more: seq<Step>, p': Pool, c': Call)
    requires id < |w.calls| && RunFrom(cfg, w, steps) == World(p, w.calls[id := c])
    requires RunFrom(cfg, World(p, w.calls[id := c]), more) == World(p', w.calls[id := c][id := c'])
    ensures RunFrom(cfg, w, steps + more) == World(p', w.calls[id := c'])
  {
    RunFromConcat(cfg, w, steps, more);
    assert w.calls[id := c][id := c'] == w.calls[id := c'];
  }

  /** A call run on its own is one run of the protocol, so everything kept by runs is kept by it. */
  lemma {:induction false} AloneIsRun(cfg: Config, w: World, id: nat, plan: Plan) returns (steps: seq<Step>)
    requires id < |w.calls| && w.calls[id].at.Getting?
    ensures var (p, c) := Alone(cfg, w.pool, w.calls[id], plan);
            RunFrom(cfg, w, steps) == World(p, w.calls[id := c])
    decreases plan, 1
  {
    var c := w.calls[id];
    var get := if plan.rejected then Reject(id) else Get(id, plan.dropped);
    var finish := Finish(id, FateOf(plan.outcome));
    assert w.calls[id := c] == w.calls;
    ThenStep(cfg, w, [], id, w.pool, c, get);
    var (p1, c1) := CallStep(cfg, w.pool, c, get);
    steps := [] + [get];
    if c1.at.Requesting? {
      ThenStep(cfg, w, steps, id, p1, c1, finish);
      var (p2, c2) := FinishStep(cfg, p1, c1, FateOf(plan.outcome));
      steps := steps + [finish];
      if c2.at.Getting? {
        steps := AgainIsRun(cfg, w, id, steps, p2, c2, plan.outcome.retry.value);
      } else if c2.at.Deciding? {
        var decide := Decide(id, DecisionOf(plan.outcome.next));
        ThenStep(cfg, w, steps, id, p2, c2, decide);
        var (p3, c3) := DecideStep(cfg, p2, c2, DecisionOf(plan.outcome.next));
        steps := steps + [decide];
        if c3.at.Getting? {
          steps := AgainIsRun(cfg, w, id, steps, p3, c3, plan.outcome.next.retry.value);
        }
      }
    }
  }

  lemma {:induction false} AgainIsRun(cfg: Config, w: World, id: nat, steps: seq<Step>, p: Pool, c: Call, plan: Plan)
    returns (all: seq<Step>)
    requires id < |w.calls| && RunFrom(cfg, w, steps) == World(p, w.calls[id := c]) && c.at.Getting?
    ensures var (p', c') := Alone(cfg, p, c, plan);
            RunFrom(cfg, w, all) == World(p', w.calls[id := c'])
    decreases plan, 2
  {
    var now := World(p, w.calls[id := c]);
    var more := AloneIsRun(cfg, now, id, plan);
    var (p', c') := Alone(cfg, p, c, plan);
    ThenRun(cfg, w, steps, id, p, c, more, p', c');
    all := steps + more;
  }
}

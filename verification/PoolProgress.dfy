/** What calls achieve in the connection pool: retries get a connection again, and connections are reused. */
module PoolProgress {
  import opened Outcomes
  import opened PoolProtocol

  /** The connection put back last is the one taken next, and taking it undoes the put. */
  lemma LastPutIsNext(cfg: Config, p: Pool, conn: Conn)
    requires IsRoom(cfg, p)
    ensures PutConn(cfg, p, Some(conn)).1 == false
    ensures GetConn(cfg, PutConn(cfg, p, Some(conn)).0, false) == (p, Ok(conn))
  {
    var q := p.queue.value;
    assert (q + [Some(conn)])[..|q|] == q;
  }

  /** A finished request's connection is open and on top of the queue, so the next call takes it. */
  lemma FinishedIsReused(cfg: Config, p: Pool, c: Call, next: Call, conn: Conn)
    requires c.at.Requesting? && c.frame == Some(conn) && c.release && next.at.Getting?
    requires IsRoom(cfg, p)
    ensures var (p', c') := FinishStep(cfg, p, c, Answered);
            && c'.at == Deciding && c'.frame == None
            && GetStep(cfg, p', next, false)
               == (p.(open := p.open + {conn}), next.(at := Requesting, frame := Some(conn)))
  {
    LastPutIsNext(cfg, p, conn);
  }

  /**
   Connections of failed requests, and of responses that were not read to their end, are closed. Others are
   kept, unless there is no room for them, which never happens in a blocking pool.
   */
  lemma ClosedOrKept(cfg: Config, p: Pool, c: Call, conn: Conn)
    requires HasRoom(cfg, p) && conn in p.open
    ensures cfg.block ==> IsRoom(cfg, p)
    ensures c.at.Requesting? && c.frame == Some(conn) ==>
              && conn !in FinishStep(cfg, p, c, Broken(true)).0.open
              && conn !in FinishStep(cfg, p, c, Broken(false)).0.open
              && conn !in FinishStep(cfg, p, c, Crashed).0.open
              && (conn in FinishStep(cfg, p, c, Answered).0.open <==> !c.release || IsRoom(cfg, p))
    ensures c.response == Some(conn) ==>
              && conn !in ReleaseStep(cfg, p, c, false).0.open
              && (conn in ReleaseStep(cfg, p, c, true).0.open <==> IsRoom(cfg, p))
  {
  }

  predicate IsRoom(cfg: Config, p: Pool) {
    p.queue.Some? && (cfg.maxsize == 0 || |p.queue.value| < cfg.maxsize)
  }

  /** No attempt of the plan has an invalid timeout. */
  predicate ValidPlan(plan: Plan) {
    && !plan.rejected
    && match plan.outcome
       case Response(Discard(_, Some(again))) => ValidPlan(again)
       case Failure(Some(again)) => ValidPlan(again)
       case _ => true
  }

  /** Whether the attempts end in a response that is kept: broken and discarded ones are tried again. */
  predicate Succeeds(plan: Plan) {
    match plan.outcome
    case Response(Keep) => true
    case Response(Discard(_, Some(again))) => Succeeds(again)
    case Failure(Some(again)) => Succeeds(again)
    case _ => false
  }

  /** An open pool in which a call can get a connection and has room to put it back. */
  predicate HasSlot(cfg: Config, p: Pool) {
    && p.queue.Some? && (cfg.block ==> p.queue.value != [])
    && (cfg.maxsize > 0 ==> |p.queue.value| <= cfg.maxsize)
  }

  /** The pool while a call holds what it took. */
  predicate HasRoom(cfg: Config, p: Pool) {
    && p.queue.Some? && (cfg.maxsize > 0 ==> |p.queue.value| <= cfg.maxsize)
    && (cfg.block && cfg.maxsize > 0 ==> |p.queue.value| < cfg.maxsize)
  }

  lemma GetsOne(cfg: Config, p: Pool, c: Call, dropped: bool)
    requires HasSlot(cfg, p) && c.at.Getting?
    ensures var (p', c') := GetStep(cfg, p, c, dropped);
            c'.at == Requesting && c'.frame.Some? && c'.full == c.full && c'.release == c.release && HasRoom(cfg, p')
  {
  }

  lemma PutsOne(cfg: Config, p: Pool, conn: Option<Conn>)
    requires HasRoom(cfg, p)
    ensures var (p', full) := PutConn(cfg, p, conn); !full && HasSlot(cfg, p')
  {
  }

  /**
   A call of its own with valid timeouts, in a pool that has a slot for it: it returns exactly when some attempt
   gives a response that is kept and all before it were retried; no attempt fails for want of a connection.
   */
  lemma {:induction false} CallSucceeds(cfg: Config, p: Pool, c: Call, plan: Plan)
    requires HasSlot(cfg, p) && c.at.Getting? && !c.full && ValidPlan(plan)
    ensures var (p', c') := Alone(cfg, p, c, plan);
            && c'.at == Ended(if Succeeds(plan) then Returned else Raised) && !c'.full
            && (Succeeds(plan) && !c.release ==> c'.response.Some? && HasRoom(cfg, p'))
            && (!Succeeds(plan) || c.release ==> HasSlot(cfg, p'))
    decreases plan
  {
    var (p1, c1) := GetStep(cfg, p, c, plan.dropped);
    GetsOne(cfg, p, c, plan.dropped);
    var (p2, c2) := FinishStep(cfg, p1, c1, FateOf(plan.outcome));
    match plan.outcome {
      case Failure(retry) =>
        PutsOne(cfg, CloseConn(p1, c1.frame), None);
        if retry.Some? {
          CallSucceeds(cfg, p2, c2, retry.value);
        }
      case Crash =>
        PutsOne(cfg, CloseConn(p1, c1.frame), None);
      case Response(next) =>
        if c1.release {
          PutsOne(cfg, p1, c1.frame);
        }
        Reacts(cfg, p2, c2, next);
        if next.Discard? && next.retry.Some? {
          var (p3, c3) := DecideStep(cfg, p2, c2, DecisionOf(next));
          CallSucceeds(cfg, p3, c3, next.retry.value);
        }
    }
  }

  /** A discarded response gives its connection back before the next attempt. */
  lemma Reacts(cfg: Config, p: Pool, c: Call, next: Reaction)
    requires c.at.Deciding? && !c.full && (c.response.Some? <==> !c.release)
    requires if c.release then HasSlot(cfg, p) else HasRoom(cfg, p)
    ensures var (p', c') := DecideStep(cfg, p, c, DecisionOf(next));
            && !c'.full && c'.release == c.release
            && (next.Keep? ==> p' == p && c'.response == c.response && c'.at == Ended(Returned))
            && (next.Discard? ==>
                  && HasSlot(cfg, p') && c'.response == None
                  && c'.at == if next.retry.Some? then Getting else Ended(Raised))
  {
    if next.Discard? && !c.release {
      PutsOne(cfg, if next.clean then p else CloseConn(p, c.response), c.response);
    }
  }
}

/** What the master decides and when requests get through (kvstore/src/kvstore/TPCMaster.java), over the
    runs of two-phase commit. */
module CommitRuns {
  import opened Basics
  import opened TpcLog
  import opened Ring
  import opened TwoPhaseCommit

  // ---------------------------------------------------------------- the decision

  predicate SaysReady(step: Step) { step.Receive? && step.answer.reply.Ready? }

  predicate SaysAck(step: Step) { step.Receive? && step.answer.reply.Ack? }

  /** The steps that end a connection of the master, with an answer or without. */
  predicate Answers(step: Step) { step.Receive? || step.ConnectFails? || step.TimeOut? }

  /** The master's progress told by the labels of the steps alone. */
  lemma MasterMoves(s: State, step: Step)
    requires Enabled(s, step)
    ensures var m, m' := s.master, Do(s, step).master;
            && m'.op == (if step.Start? then step.op else m.op)
            && m'.startTag == (if step.Start? then m.nextTag else m.startTag)
            && (if step.Start? then m.pc.Idle? && m'.pc == Ask1
                else if !Answers(step) then m'.pc == m.pc
                else match m.pc
                  case Idle => false
                  case Ask1 => m'.pc == Ask2(SaysReady(step))
                  case Ask2(yes) => m'.pc == Tell1(yes && SaysReady(step))
                  case Tell1(c) => m'.pc == if SaysAck(step) then Tell2(c) else Tell1(c)
                  case Tell2(c) => m'.pc == if SaysAck(step) then Idle else Tell2(c))
            && m'.outcomes == (if m.pc.Tell2? && SaysAck(step)
                               then m.outcomes + [Outcome(m.op, m.r1, m.r2, m.pc.commit)] else m.outcomes)
  {
  }

  /** What each kind of step does to the master's cache: a commit writes it through, a GET fills it, an
      eviction may take any key out, and nothing else touches it. */
  lemma CacheMoves(s: State, step: Step)
    requires Enabled(s, step) && (!s.master.pc.Idle? ==> ValidRequest(s.master.op))
    ensures var m, cache, cache' := s.master, s.cache, Do(s, step).cache;
            if m.pc.Tell2? && m.pc.commit && SaysAck(step) then
              cache' == if m.op.Put? then cache[m.op.key.value := m.op.val.value] else cache - {m.op.key.value}
            else if step.Get? && step.returned.Some? then cache' == cache[step.key := step.returned.value]
            else if step.Evict? then cache' == cache - {step.key}
            else cache' == cache
  {
  }

  /** Trouble can come at any moment: any message under way can be lost, any slave can crash, the master can
      fail to connect and can give up waiting. */
  lemma TroubleAnyTime(s: State, r: Long, i: nat)
    requires r in s.replicas
    ensures Enabled(s, Crash(r)) && (i < |s.replicas[r].queue| ==> Enabled(s, Lose(r, i)))
    ensures !s.master.pc.Idle? ==> Enabled(s, if s.master.waiting.Some? then TimeOut else ConnectFails)
    ensures s.replicas[r].busy.Some? ==> Enabled(s, Act(r))
    ensures forall key :: Enabled(s, Evict(key))
  {
  }

  /** A GET is served at once unless the request at hand is for its key. */
  lemma GetAnyTime(s: State, key: Text)
    requires s.replicas.Keys != {} && (s.master.pc.Idle? || (s.master.op.Phase1?() && s.master.op.key != Some(key)))
    ensures Enabled(s, Get(key, GetAnswer(s, key)))
  {
  }

  /** How many requests are on record at moment k: the number of the one under way. */
  ghost function Number(trace: seq<State>, k: nat): nat
    requires k < |trace|
  {
    |trace[k].master.outcomes|
  }

  /** The request of the master at moment n began with step k0. */
  ghost predicate Began(trace: seq<State>, steps: seq<Step>, k0: nat, n: nat) {
    && k0 < n < |trace| == |steps| + 1
    && steps[k0] == Start(trace[n].master.op) && Number(trace, k0) == Number(trace, n)
  }

  lemma BeganGoesOn(trace: seq<State>, steps: seq<Step>, k0: nat, n: nat)
    requires IsRun(trace, steps) && n + 1 < |trace| && Began(trace, steps, k0, n)
    requires !trace[n].master.pc.Idle? && !trace[n + 1].master.pc.Idle?
    ensures Began(trace, steps, k0, n + 1)
  {
    MasterMoves(trace[n], steps[n]);
  }

  lemma {:induction false} AskedFirst(trace: seq<State>, steps: seq<Step>, n: nat) returns (k0: nat)
    requires IsRun(trace, steps) && n < |trace| && trace[n].master.pc.Ask1?
    ensures Began(trace, steps, k0, n)
  {
    assert n > 0;
    MasterMoves(trace[n - 1], steps[n - 1]);
    if steps[n - 1].Start? {
      k0 := n - 1;
    } else {
      k0 := AskedFirst(trace, steps, n - 1);
      BeganGoesOn(trace, steps, k0, n - 1);
    }
  }

  /** Step k is the one that took the master from asking the first slave to asking the second. */
  ghost predicate FirstVote(trace: seq<State>, steps: seq<Step>, k: nat) {
    k < |steps| == |trace| - 1 && trace[k].master.pc.Ask1? && trace[k + 1].master.pc.Ask2?
  }

  /** Step k is the one that took it from asking to telling. */
  ghost predicate SecondVote(trace: seq<State>, steps: seq<Step>, k: nat) {
    k < |steps| == |trace| - 1 && trace[k].master.pc.Ask2? && trace[k + 1].master.pc.Tell1?
  }

  lemma {:induction false} AskedSecond(trace: seq<State>, steps: seq<Step>, n: nat) returns (k0: nat, k1: nat)
    requires IsRun(trace, steps) && n < |trace| && trace[n].master.pc.Ask2?
    ensures Began(trace, steps, k0, n) && k0 < k1 < n && FirstVote(trace, steps, k1)
    ensures Number(trace, k1) == Number(trace, n)
    ensures trace[n].master.pc.vote1 <==> SaysReady(steps[k1])
  {
    assert n > 0;
    MasterMoves(trace[n - 1], steps[n - 1]);
    if trace[n - 1].master.pc.Ask1? {
      k0 := AskedFirst(trace, steps, n - 1);
      k1 := n - 1;
    } else {
      k0, k1 := AskedSecond(trace, steps, n - 1);
    }
    BeganGoesOn(trace, steps, k0, n - 1);
  }

  /** Request number i, for op, was begun with step k0 and voted on with steps k1 and k2; the decision is to
      commit if and only if both votes were READY. */
  ghost predicate VotedOn(trace: seq<State>, steps: seq<Step>, i: nat, op: Msg, commit: bool,
                          k0: nat, k1: nat, k2: nat) {
    && k0 < k1 < k2 < |steps| == |trace| - 1 && steps[k0] == Start(op)
    && FirstVote(trace, steps, k1) && SecondVote(trace, steps, k2)
    && Number(trace, k0) == Number(trace, k1) == Number(trace, k2) == i
    && (commit <==> SaysReady(steps[k1]) && SaysReady(steps[k2]))
  }

  /** The decision of every request of every run is made so. */
  lemma {:induction false} CommitIff(trace: seq<State>, steps: seq<Step>, n: nat) returns (k0: nat, k1: nat, k2: nat)
    requires IsRun(trace, steps) && n < |trace| && Telling(trace[n].master.pc)
    ensures Began(trace, steps, k0, n) && k2 < n
    ensures VotedOn(trace, steps, Number(trace, n), trace[n].master.op, trace[n].master.pc.commit, k0, k1, k2)
  {
    assert n > 0;
    MasterMoves(trace[n - 1], steps[n - 1]);
    if trace[n - 1].master.pc.Ask2? {
      k0, k1 := AskedSecond(trace, steps, n - 1);
      k2 := n - 1;
    } else {
      k0, k1, k2 := CommitIff(trace, steps, n - 1);
    }
    BeganGoesOn(trace, steps, k0, n - 1);
  }

  /** A request goes on record with the decision that the master was telling. */
  ghost predicate RecordGrows(ms: seq<Master>, k: nat) {
    k + 1 < |ms| ==>
      var m, m' := ms[k], ms[k + 1];
      || m'.outcomes == m.outcomes
      || (m.pc.Tell2? && m'.outcomes == m.outcomes + [Outcome(m.op, m.r1, m.r2, m.pc.commit)])
  }

  ghost function Masters(trace: seq<State>): (ms: seq<Master>)
    ensures |ms| == |trace| && forall k :: 0 <= k < |ms| ==> ms[k] == trace[k].master
  {
    seq(|trace|, k requires 0 <= k < |trace| => trace[k].master)
  }

  lemma RecordsGrow(trace: seq<State>, steps: seq<Step>)
    requires IsRun(trace, steps)
    ensures trace[0].master.outcomes == [] && forall k :: RecordGrows(Masters(trace), k)
  {
    forall k: nat
      ensures RecordGrows(Masters(trace), k)
    {
      if k < |steps| {
        MasterMoves(trace[k], steps[k]);
      }
    }
  }

  /** The moment from which a request is on record. */
  lemma {:induction false} RecordedAt(ms: seq<Master>, n: nat, i: nat) returns (k: nat)
    requires n < |ms| && ms[0].outcomes == [] && i < |ms[n].outcomes| && forall k :: RecordGrows(ms, k)
    ensures k < n && |ms[k].outcomes| == i && ms[k].pc.Tell2?
    ensures ms[n].outcomes[i].op == ms[k].op && ms[n].outcomes[i].commit == ms[k].pc.commit
  {
    assert n > 0 && RecordGrows(ms, n - 1);
    if i < |ms[n - 1].outcomes| {
      k := RecordedAt(ms, n - 1, i);
    } else {
      k := n - 1;
    }
  }

  /** So every request on record was begun, voted on by both slaves, and committed exactly when both said
      READY. */
  lemma OutcomeIff(trace: seq<State>, steps: seq<Step>, n: nat, i: nat) returns (k0: nat, k1: nat, k2: nat)
    requires IsRun(trace, steps) && n < |trace| && i < |trace[n].master.outcomes|
    ensures k2 < n
    ensures var o := trace[n].master.outcomes[i]; VotedOn(trace, steps, i, o.op, o.commit, k0, k1, k2)
  {
    RecordsGrow(trace, steps);
    var k := RecordedAt(Masters(trace), n, i);
    k0, k1, k2 := CommitIff(trace, steps, k);
  }

  // ---------------------------------------------------------------- requests get through

  /** The steps of a run in which nothing is lost, late or broken. */
  predicate Smooth(step: Step) { step.Start? || step.Send? || step.TakeMessage? || step.Act? || step.Receive? }

  /** The run (trace', steps') goes on from the run (trace, steps) with smooth steps only. */
  ghost predicate GoesOn(trace: seq<State>, steps: seq<Step>, trace': seq<State>, steps': seq<Step>) {
    && IsRun(trace', steps') && trace <= trace' && steps <= steps'
    && forall j :: |steps| <= j < |steps'| ==> Smooth(steps'[j])
  }

  ghost function End(trace: seq<State>): State
    requires trace != []
  {
    trace[|trace| - 1]
  }

  lemma Go(trace: seq<State>, steps: seq<Step>, trace0: seq<State>, steps0: seq<Step>, step: Step)
    returns (trace': seq<State>, steps': seq<Step>)
    requires GoesOn(trace0, steps0, trace, steps) && Enabled(End(trace), step) && Smooth(step)
    ensures GoesOn(trace0, steps0, trace', steps') && End(trace') == Do(End(trace), step)
  {
    trace', steps' := trace + [Do(End(trace), step)], steps + [step];
    forall n | 0 <= n < |steps'|
      ensures Enabled(trace'[n], steps'[n]) && trace'[n + 1] == Do(trace'[n], steps'[n])
    {
      assert n < |steps| ==> trace'[n] == trace[n] && trace'[n + 1] == trace[n + 1] && steps'[n] == steps[n];
    }
  }

  ghost predicate AllQuiet(replicas: map<Long, Replica>) {
    forall r {:trigger replicas[r]} :: r in replicas ==> Quiet(replicas[r])
  }

  /** What the slave that the master talks to would answer now. */
  ghost function Reaction(s: State): Option<Reply>
    requires Target(s.master) in s.replicas
  {
    var rep := s.replicas[Target(s.master)];
    Response(rep.store, Last(rep.log), Outgoing(s.master))
  }

  /** A slave that has handled msg: logged last, carried out by the rule of the handler, nothing left. */
  ghost predicate HasHandled(rep: Replica, rep': Replica, msg: Msg) {
    && Quiet(rep') && rep'.log == rep.log + [msg] && rep'.store == LiveStep(rep.store, Last(rep.log), msg)
  }

  /** One connection: the message goes out, is logged and handled, and its answer comes back. */
  lemma Exchange(trace: seq<State>, steps: seq<Step>, trace0: seq<State>, steps0: seq<Step>)
    returns (trace': seq<State>, steps': seq<Step>)
    requires GoesOn(trace0, steps0, trace, steps)
    requires var s := End(trace);
             && !s.master.pc.Idle? && s.master.waiting.None? && Target(s.master) in s.replicas
             && AllQuiet(s.replicas) && Reaction(s).Some?
    ensures GoesOn(trace0, steps0, trace', steps')
    ensures var s, s' := End(trace), End(trace');
            && s'.master == Received(Connected(s.master), Reaction(s).value)
            && s'.replicas.Keys == s.replicas.Keys && AllQuiet(s'.replicas)
            && (forall r :: r in s.replicas && r != Target(s.master) ==> s'.replicas[r] == s.replicas[r])
            && HasHandled(s.replicas[Target(s.master)], s'.replicas[Target(s.master)], Outgoing(s.master))
  {
    var s := End(trace);
    var r, tag := Target(s.master), s.master.nextTag;
    trace', steps' := Go(trace, steps, trace0, steps0, Send);
    var sent := End(trace').replicas[r];
    SlaveStepsAreHandler(sent);
    trace', steps' := Go(trace', steps', trace0, steps0, TakeMessage(r));
    trace', steps' := Go(trace', steps', trace0, steps0, Act(r));
    trace', steps' := Go(trace', steps', trace0, steps0, Receive(Answer(tag, Reaction(s).value)));
  }

  lemma EndInv(trace: seq<State>, steps: seq<Step>)
    requires IsRun(trace, steps)
    ensures Inv(End(trace))
  {
    RunInv(trace, steps, |steps|);
  }

  lemma IdleIsQuiet(s: State)
    requires Inv(s) && s.master.pc.Idle?
    ensures AllQuiet(s.replicas)
  {
    SettledIsQuiet(s.master);
  }

  /** A slave that the request at hand does not involve has nothing to do. */
  lemma SettledIsQuiet(m: Master)
    ensures forall r, rep {:trigger SlaveInv(m, r, rep)} ::
              SlaveInv(m, r, rep) && (m.pc.Idle? || (r != m.r1 && r != m.r2)) ==> Quiet(rep)
  {
  }

  /** A slave that is told COMMIT acknowledges, whether it has yet to carry the request out or has. */
  lemma CommitIsAcknowledged(m: Master, r: Long, rep: Replica)
    requires SlaveInv(m, r, rep) && Quiet(rep) && Telling(m.pc) && m.pc.commit && (r == m.r1 || r == m.r2)
    requires ValidRequest(m.op)
    ensures Response(rep.store, Last(rep.log), Commit) == Some(Ack)
  {
    RebuildIsLive(rep.log);
    assert rep.busy.None?;
    assert Committing(m, rep, CommittedOn(m.outcomes, r));
  }

  ghost predicate ReadyToTalk(s: State) {
    && !s.master.pc.Idle? && s.master.waiting.None? && AllQuiet(s.replicas)
    && s.master.r1 in s.replicas && s.master.r2 in s.replicas
  }

  /** Whatever the decision, the slave that is told it acknowledges. */
  lemma DecisionIsAcknowledged(m: Master)
    requires Telling(m.pc) && ValidRequest(m.op)
    ensures forall r, rep {:trigger SlaveInv(m, r, rep)} ::
              SlaveInv(m, r, rep) && Quiet(rep) && (r == m.r1 || r == m.r2) ==>
                Response(rep.store, Last(rep.log), Outgoing(m)) == Some(Ack)
  {
    forall r, rep {:trigger SlaveInv(m, r, rep)} | SlaveInv(m, r, rep) && Quiet(rep) && (r == m.r1 || r == m.r2)
      ensures Response(rep.store, Last(rep.log), Outgoing(m)) == Some(Ack)
    {
      if m.pc.commit {
        CommitIsAcknowledged(m, r, rep);
      }
    }
  }

  lemma TellingIsAcknowledged(trace: seq<State>, steps: seq<Step>)
    requires IsRun(trace, steps) && ReadyToTalk(End(trace)) && Telling(End(trace).master.pc)
    ensures Reaction(End(trace)) == Some(Ack)
  {
    EndInv(trace, steps);
    DecisionIsAcknowledged(End(trace).master);
  }

  lemma TellOne(trace: seq<State>, steps: seq<Step>, trace0: seq<State>, steps0: seq<Step>)
    returns (trace': seq<State>, steps': seq<Step>)
    requires GoesOn(trace0, steps0, trace, steps) && ReadyToTalk(End(trace)) && Telling(End(trace).master.pc)
    ensures GoesOn(trace0, steps0, trace', steps') && AllQuiet(End(trace').replicas)
    ensures End(trace').replicas.Keys == End(trace).replicas.Keys
    ensures End(trace').master == Told(Connected(End(trace).master), true)
  {
    TellingIsAcknowledged(trace, steps);
    trace', steps' := Exchange(trace, steps, trace0, steps0);
  }

  /** From the decision on, two exchanges end the request. */
  lemma TellBoth(trace: seq<State>, steps: seq<Step>, trace0: seq<State>, steps0: seq<Step>)
    returns (trace': seq<State>, steps': seq<Step>)
    requires GoesOn(trace0, steps0, trace, steps) && ReadyToTalk(End(trace)) && End(trace).master.pc.Tell1?
    ensures GoesOn(trace0, steps0, trace', steps') && End(trace').master.pc.Idle?
    ensures End(trace').replicas.Keys == End(trace).replicas.Keys
    ensures var m := End(trace).master;
            End(trace').master.outcomes == m.outcomes + [Outcome(m.op, m.r1, m.r2, m.pc.commit)]
  {
    trace', steps' := TellOne(trace, steps, trace0, steps0);
    trace', steps' := TellOne(trace', steps', trace0, steps0);
  }

  /** Asked for their votes one after the other, both slaves answer by the store they hold. */
  lemma AskBoth(trace: seq<State>, steps: seq<Step>, trace0: seq<State>, steps0: seq<Step>, yes: bool)
    returns (trace': seq<State>, steps': seq<Step>)
    requires GoesOn(trace0, steps0, trace, steps) && ReadyToTalk(End(trace)) && End(trace).master.pc.Ask1?
    requires var s := End(trace);
             && ValidRequest(s.master.op)
             && yes == Accepts(s.replicas[s.master.r1].store, s.master.op)
             && yes == Accepts(s.replicas[s.master.r2].store, s.master.op)
    ensures GoesOn(trace0, steps0, trace', steps') && ReadyToTalk(End(trace'))
    ensures End(trace').replicas.Keys == End(trace).replicas.Keys
    ensures var m, m' := End(trace).master, End(trace').master;
            m'.pc == Tell1(yes) && m'.op == m.op && m'.r1 == m.r1 && m'.r2 == m.r2 && m'.outcomes == m.outcomes
  {
    var s := End(trace);
    VoteIsAcceptance(s.replicas[s.master.r1].store, s.master.op);
    VoteIsAcceptance(s.replicas[s.master.r2].store, s.master.op);
    trace', steps' := Exchange(trace, steps, trace0, steps0);
    assert End(trace').replicas[s.master.r2].store == s.replicas[s.master.r2].store;
    trace', steps' := Exchange(trace', steps', trace0, steps0);
  }

  /** Between requests a slave of the key would accept a request exactly when the plain map would. */
  lemma AcceptsAsPlain(s: State, op: Msg, r: Long)
    requires Inv(s) && s.master.pc.Idle? && ValidRequest(op) && r in s.replicas
    requires var first := FirstReplica(s.replicas.Keys, KeyHash(op.key.value));
             r == first || r == Successor(s.replicas.Keys, first)
    ensures Accepts(s.replicas[r].store, op) <==> Accepts(Global(s.master.outcomes), op)
  {
    assert SlaveInv(s.master, r, s.replicas[r]);
    SlaveAtOther(s.master, s.replicas.Keys, r, s.replicas[r], op.key.value);
  }

  /** After any run that ends between requests, any valid request can go through with nothing lost, and
      then it is committed if and only if the plain map of the committed requests accepts it. */
  lemma RequestGetsThrough(trace: seq<State>, steps: seq<Step>, op: Msg)
    returns (trace': seq<State>, steps': seq<Step>)
    requires IsRun(trace, steps) && End(trace).master.pc.Idle? && End(trace).replicas.Keys != {} && ValidRequest(op)
    ensures GoesOn(trace, steps, trace', steps') && End(trace').master.pc.Idle?
    ensures End(trace').replicas.Keys == End(trace).replicas.Keys
    ensures var s := End(trace);
            var first := FirstReplica(s.replicas.Keys, KeyHash(op.key.value));
            End(trace').master.outcomes ==
            s.master.outcomes + [Outcome(op, first, Successor(s.replicas.Keys, first),
                                         Accepts(Global(s.master.outcomes), op))]
  {
    var s := End(trace);
    var first := FirstReplica(s.replicas.Keys, KeyHash(op.key.value));
    EndInv(trace, steps);
    IdleIsQuiet(s);
    AcceptsAsPlain(s, op, first);
    AcceptsAsPlain(s, op, Successor(s.replicas.Keys, first));
    trace', steps' := Go(trace, steps, trace, steps, Start(op));
    trace', steps' := AskBoth(trace', steps', trace, steps, Accepts(Global(s.master.outcomes), op));
    trace', steps' := TellBoth(trace', steps', trace, steps);
  }

  /** Both slaves of the key, and every GET, have this value for it, or none. */
  ghost predicate Visible(s: State, key: Text, value: Option<Text>) {
    && s.replicas.Keys != {}
    && var first := FirstReplica(s.replicas.Keys, KeyHash(key));
       && PlainGet(s.replicas[first].store, key) == value
       && PlainGet(s.replicas[Successor(s.replicas.Keys, first)].store, key) == value
       && GetAnswer(s, key) == value
  }

  lemma PlainIsVisible(trace: seq<State>, steps: seq<Step>, key: Text)
    requires IsRun(trace, steps) && End(trace).master.pc.Idle? && End(trace).replicas.Keys != {}
    ensures Visible(End(trace), key, PlainGet(Global(End(trace).master.outcomes), key))
  {
    RefinesPlainMap(trace, steps, |steps|, key);
    EndInv(trace, steps);
    AnswerIsPlain(End(trace), key);
  }

  lemma EffectOf(outcomes: seq<Outcome>, o: Outcome)
    requires ValidRequest(o.op) && o.commit
    ensures PlainGet(Global(outcomes + [o]), o.op.key.value) == if o.op.Put? then o.op.val else None
  {
    GlobalAppend(outcomes, o);
  }

  /** A request that the plain map accepts takes effect: both slaves of the key and every GET then have
      the value that was put, or none after a delete. */
  lemma RequestTakesEffect(trace: seq<State>, steps: seq<Step>, op: Msg)
    returns (trace': seq<State>, steps': seq<Step>)
    requires IsRun(trace, steps) && End(trace).master.pc.Idle? && End(trace).replicas.Keys != {}
    requires ValidRequest(op) && Accepts(Global(End(trace).master.outcomes), op)
    ensures GoesOn(trace, steps, trace', steps') && End(trace').master.pc.Idle?
    ensures Visible(End(trace'), op.key.value, if op.Put? then op.val else None)
  {
    trace', steps' := RequestGetsThrough(trace, steps, op);
    PlainIsVisible(trace', steps', op.key.value);
    var outcomes, outcomes' := End(trace).master.outcomes, End(trace').master.outcomes;
    EffectOf(outcomes, outcomes'[|outcomes|]);
  }

  // ---------------------------------------------------------------- no request blocks for ever

  /** A slave left to itself works off what has reached it. */
  lemma {:induction false} Drain(trace: seq<State>, steps: seq<Step>, trace0: seq<State>, steps0: seq<Step>, r: Long)
    returns (trace': seq<State>, steps': seq<Step>)
    requires GoesOn(trace0, steps0, trace, steps) && r in End(trace).replicas
    ensures GoesOn(trace0, steps0, trace', steps') && End(trace').master == End(trace).master
    ensures End(trace').replicas.Keys == End(trace).replicas.Keys && Quiet(End(trace').replicas[r])
    ensures forall q :: q in End(trace).replicas && q != r ==> End(trace').replicas[q] == End(trace).replicas[q]
    decreases |End(trace).replicas[r].queue|, End(trace).replicas[r].busy.Some?
  {
    var rep := End(trace).replicas[r];
    trace', steps' := trace, steps;
    if rep.busy.Some? {
      trace', steps' := Go(trace, steps, trace0, steps0, Act(r));
      trace', steps' := Drain(trace', steps', trace0, steps0, r);
    } else if rep.queue != [] {
      trace', steps' := Go(trace, steps, trace0, steps0, TakeMessage(r));
      trace', steps' := Drain(trace', steps', trace0, steps0, r);
    }
  }

  lemma OthersAreQuiet(s: State)
    requires Inv(s)
    ensures forall r {:trigger s.replicas[r]} ::
              r in s.replicas && r != s.master.r1 && r != s.master.r2 ==> Quiet(s.replicas[r])
  {
    SettledIsQuiet(s.master);
  }

  /** With the master waiting on nobody, all slaves can be brought to rest. */
  lemma Settle(trace: seq<State>, steps: seq<Step>, trace0: seq<State>, steps0: seq<Step>)
    returns (trace': seq<State>, steps': seq<Step>)
    requires GoesOn(trace0, steps0, trace, steps) && !End(trace).master.pc.Idle? && End(trace).master.waiting.None?
    ensures GoesOn(trace0, steps0, trace', steps') && ReadyToTalk(End(trace'))
    ensures End(trace').master == End(trace).master
  {
    EndInv(trace, steps);
    OthersAreQuiet(End(trace));
    var m := End(trace).master;
    trace', steps' := Drain(trace, steps, trace0, steps0, m.r1);
    trace', steps' := Drain(trace', steps', trace0, steps0, m.r2);
  }

  /** From there the request ends, committed or not. */
  lemma Finish(trace: seq<State>, steps: seq<Step>, trace0: seq<State>, steps0: seq<Step>)
    returns (trace': seq<State>, steps': seq<Step>)
    requires GoesOn(trace0, steps0, trace, steps) && ReadyToTalk(End(trace))
    ensures GoesOn(trace0, steps0, trace', steps') && End(trace').master.pc.Idle?
  {
    var pc := End(trace).master.pc;
    if pc.Tell2? {
      trace', steps' := TellOne(trace, steps, trace0, steps0);
    } else if pc.Tell1? {
      trace', steps' := TellBoth(trace, steps, trace0, steps0);
    } else {
      trace', steps' := AskOn(trace, steps, trace0, steps0);
      trace', steps' := TellBoth(trace', steps', trace0, steps0);
    }
  }

  lemma AskOne(trace: seq<State>, steps: seq<Step>, trace0: seq<State>, steps0: seq<Step>)
    returns (trace': seq<State>, steps': seq<Step>)
    requires GoesOn(trace0, steps0, trace, steps) && ReadyToTalk(End(trace)) && Asking(End(trace).master.pc)
    requires End(trace).master.op.Phase1?()
    ensures GoesOn(trace0, steps0, trace', steps') && ReadyToTalk(End(trace'))
    ensures End(trace').master.op == End(trace).master.op
    ensures if End(trace).master.pc.Ask1? then End(trace').master.pc.Ask2? else End(trace').master.pc.Tell1?
  {
    trace', steps' := Exchange(trace, steps, trace0, steps0);
  }

  lemma RequestIsPhase1(trace: seq<State>, steps: seq<Step>)
    requires IsRun(trace, steps) && !End(trace).master.pc.Idle?
    ensures End(trace).master.op.Phase1?()
  {
    EndInv(trace, steps);
  }

  /** The votes that are still missing come in. */
  lemma AskOn(trace: seq<State>, steps: seq<Step>, trace0: seq<State>, steps0: seq<Step>)
    returns (trace': seq<State>, steps': seq<Step>)
    requires GoesOn(trace0, steps0, trace, steps) && ReadyToTalk(End(trace)) && Asking(End(trace).master.pc)
    ensures GoesOn(trace0, steps0, trace', steps') && ReadyToTalk(End(trace')) && End(trace').master.pc.Tell1?
  {
    RequestIsPhase1(trace, steps);
    trace', steps' := AskOne(trace, steps, trace0, steps0);
    if End(trace').master.pc.Ask2? {
      trace', steps' := AskOne(trace', steps', trace0, steps0);
    }
  }

  /** No request blocks for ever: whatever was lost, late or crashed so far, once the connection that the
      master waits on has timed out every run can go on smoothly until no request is under way. */
  lemma EveryRequestCanEnd(trace: seq<State>, steps: seq<Step>)
    returns (trace1: seq<State>, steps1: seq<Step>, trace': seq<State>, steps': seq<Step>)
    requires IsRun(trace, steps)
    ensures IsRun(trace1, steps1) && trace <= trace1 && (steps1 == steps || steps1 == steps + [TimeOut])
    ensures GoesOn(trace1, steps1, trace', steps') && End(trace').master.pc.Idle?
  {
    trace1, steps1 := trace, steps;
    trace', steps' := trace, steps;
    var m := End(trace).master;
    if !m.pc.Idle? {
      if m.waiting.Some? {
        trace1, steps1 := TimesOut(trace, steps);
      }
      trace', steps' := Settle(trace1, steps1, trace1, steps1);
      trace', steps' := Finish(trace', steps', trace1, steps1);
    }
  }

  lemma TimesOut(trace: seq<State>, steps: seq<Step>) returns (trace': seq<State>, steps': seq<Step>)
    requires IsRun(trace, steps) && Enabled(End(trace), TimeOut)
    ensures IsRun(trace', steps') && trace <= trace' && steps' == steps + [TimeOut]
    ensures !End(trace').master.pc.Idle? && End(trace').master.waiting.None?
  {
    trace', steps' := trace + [Do(End(trace), TimeOut)], steps + [TimeOut];
    forall n | 0 <= n < |steps'|
      ensures Enabled(trace'[n], steps'[n]) && trace'[n + 1] == Do(trace'[n], steps'[n])
    {
      assert n < |steps| ==> trace'[n] == trace[n] && trace'[n + 1] == trace[n + 1] && steps'[n] == steps[n];
    }
  }
}

/** Two-phase commit as a step system: the master of kvstore/src/kvstore/TPCMaster.java and its
    slaves of kvstore/src/kvstore/TPCMasterHandler.java, with message loss, time-outs, failed
    connections, and slaves that crash between any two steps and rebuild from their log. */
module TwoPhaseCommit {
  import opened Basics
  import opened TpcLog
  import opened Ring

  /** A message on its own connection; tags number the connections. */
  datatype Packet = Packet(tag: nat, msg: Msg)

  datatype Answer = Answer(tag: nat, reply: Reply)

  /** One slave.  Its single worker takes connections in order.  `busy` is the message it has
      logged but not yet acted on, with the last log entry before it; `sent` holds the answers it
      has given. */
  datatype Replica = Replica(log: seq<Msg>, store: Store, applied: seq<Msg>,
                             busy: Option<(Packet, Option<Msg>)>, queue: seq<Packet>, sent: set<Answer>)

  /** Where `handleTPCRequest` stands: asking the first and second slave for a vote, then telling
      each the decision until it acknowledges. */
  datatype Pc = Idle | Ask1 | Ask2(vote1: bool) | Tell1(commit: bool) | Tell2(commit: bool)

  /** A finished request. */
  datatype Outcome = Outcome(op: Msg, r1: Long, r2: Long, commit: bool)

  /** The master: its request, the connection it waits on, the next connection number, the number
      at which the request began, and the finished requests. */
  datatype Master = Master(pc: Pc, op: Msg, r1: Long, r2: Long, waiting: Option<nat>,
                           nextTag: nat, startTag: nat, outcomes: seq<Outcome>)

  datatype State = State(master: Master, replicas: map<Long, Replica>, cache: Store)

  datatype Step =
    | Start(op: Msg)
    | Send
    | ConnectFails
    | TimeOut
    | Receive(answer: Answer)
    | Lose(r: Long, i: nat)
    | TakeMessage(r: Long)
    | Act(r: Long)
    | Crash(r: Long)
    | Get(key: Text, returned: Option<Text>)
    | Evict(key: Text)

  predicate Asking(pc: Pc) { pc.Ask1? || pc.Ask2? }
  predicate Telling(pc: Pc) { pc.Tell1? || pc.Tell2? }

  /** The slave the master is talking to, and what it sends. */
  function Target(m: Master): Long { if m.pc.Ask1? || m.pc.Tell1? then m.r1 else m.r2 }

  function Outgoing(m: Master): Msg {
    if Asking(m.pc) then m.op else if Telling(m.pc) && m.pc.commit then Commit else Abort
  }

  // ---------------------------------------------------------------- steps of the master

  /** What the master does with a vote. */
  function Voted(m: Master, yes: bool): Master
    requires Asking(m.pc)
  {
    m.(pc := if m.pc.Ask1? then Ask2(yes) else Tell1(m.pc.vote1 && yes), waiting := None)
  }

  /** What it does with an acknowledgement or its absence. */
  function Told(m: Master, ack: bool): Master
    requires Telling(m.pc)
  {
    if !ack then m.(waiting := None)
    else if m.pc.Tell1? then m.(pc := Tell2(m.pc.commit), waiting := None)
    else m.(pc := Idle, waiting := None, outcomes := m.outcomes + [Outcome(m.op, m.r1, m.r2, m.pc.commit)])
  }

  function GaveUp(m: Master): Master
    requires !m.pc.Idle?
  {
    if Asking(m.pc) then Voted(m, false) else Told(m, false)
  }

  function Received(m: Master, reply: Reply): Master
    requires !m.pc.Idle?
  {
    if Asking(m.pc) then Voted(m, reply.Ready?) else Told(m, reply.Ack?)
  }

  /** The choice of slaves at the start of `handleTPCRequest`. */
  ghost function Started(m: Master, ids: set<Long>, op: Msg): Master
    requires ids != {} && ValidRequest(op)
  {
    var first := FirstReplica(ids, KeyHash(op.key.value));
    m.(pc := Ask1, op := op, r1 := first, r2 := Successor(ids, first), waiting := None, startTag := m.nextTag)
  }

  /** The master's cache when a request returns. */
  function CacheAfter(cache: Store, m: Master): Store {
    if !(m.pc.Tell2? && m.pc.commit && ValidRequest(m.op)) then cache
    else if m.op.Put? then cache[m.op.key.value := m.op.val.value]
    else cache - {m.op.key.value}
  }

  // ---------------------------------------------------------------- steps of a slave

  /** The slave's answer to the message it has logged. */
  function Respond(rep: Replica): Option<Reply>
    requires rep.busy.Some?
  {
    Response(rep.store, rep.busy.value.1, rep.busy.value.0.msg)
  }

  function Acted(rep: Replica): Replica
    requires rep.busy.Some?
  {
    var (p, prev) := rep.busy.value;
    var reply := Respond(rep);
    var done := rep.(busy := None, sent := if reply.Some? then rep.sent + {Answer(p.tag, reply.value)} else rep.sent);
    if p.msg.Commit? && prev.Some? && prev.value.Phase1?() && Accepts(rep.store, prev.value)
    then done.(store := Apply(rep.store, prev.value), applied := rep.applied + [prev.value])
    else done
  }

  /** After a crash everything but the log is gone and the store is rebuilt from it. */
  function Rebuilt(rep: Replica): Replica {
    match Replay(rep.log)
    case Some(v) => Replica(rep.log, v.store, v.applied, None, [], rep.sent)
    case None => Replica(rep.log, map[], [], None, [], rep.sent)
  }

  function Delivered(rep: Replica, p: Packet): Replica { rep.(queue := rep.queue + [p]) }

  function Without(rep: Replica, i: nat): Replica
    requires i < |rep.queue|
  {
    rep.(queue := rep.queue[..i] + rep.queue[i + 1..])
  }

  function Took(rep: Replica): Replica
    requires rep.queue != []
  {
    rep.(log := rep.log + [rep.queue[0].msg], busy := Some((rep.queue[0], Last(rep.log))), queue := rep.queue[1..])
  }

  /** Logging a message and then acting on it is one call of the slave's handler. */
  lemma SlaveStepsAreHandler(rep: Replica)
    requires rep.busy.None? && rep.queue != []
    ensures var m, done := rep.queue[0].msg, Acted(Took(rep));
            && done.log == rep.log + [m] && done.queue == rep.queue[1..]
            && done.store == LiveStep(rep.store, Last(rep.log), m)
            && Respond(Took(rep)) == Response(rep.store, Last(rep.log), m)
  {
  }

  // ---------------------------------------------------------------- the whole system

  ghost predicate Enabled(s: State, step: Step) {
    var m := s.master;
    match step
    case Start(op) => m.pc.Idle? && ValidRequest(op) && s.replicas.Keys != {}
    case Send => !m.pc.Idle? && m.waiting.None? && Target(m) in s.replicas
    case ConnectFails => !m.pc.Idle? && m.waiting.None?
    case TimeOut => !m.pc.Idle? && m.waiting.Some?
    case Receive(a) =>
      && !m.pc.Idle? && m.waiting == Some(a.tag)
      && Target(m) in s.replicas && a in s.replicas[Target(m)].sent
    case Lose(r, i) => r in s.replicas && i < |s.replicas[r].queue|
    case TakeMessage(r) => r in s.replicas && s.replicas[r].busy.None? && s.replicas[r].queue != []
    case Act(r) => r in s.replicas && s.replicas[r].busy.Some?
    case Crash(r) => r in s.replicas
    case Get(key, returned) => !Locked(m, key) && s.replicas.Keys != {} && returned == GetAnswer(s, key)
    case Evict(key) => true
  }

  function WithSlave(s: State, r: Long, rep: Replica): State { s.(replicas := s.replicas[r := rep]) }

  /** The master opens a connection to its target and sends its message. */
  function Connected(m: Master): Master { m.(waiting := Some(m.nextTag), nextTag := m.nextTag + 1) }

  function MessageSent(m: Master, replicas: map<Long, Replica>): (r: map<Long, Replica>)
    requires Target(m) in replicas
    ensures r.Keys == replicas.Keys
  {
    replicas[Target(m) := Delivered(replicas[Target(m)], Packet(m.nextTag, Outgoing(m)))]
  }

  function Sent(s: State): State
    requires Target(s.master) in s.replicas
  {
    State(Connected(s.master), MessageSent(s.master, s.replicas), s.cache)
  }

  function Answered(s: State, reply: Reply): State
    requires !s.master.pc.Idle?
  {
    s.(master := Received(s.master, reply), cache := if reply.Ack? then CacheAfter(s.cache, s.master) else s.cache)
  }

  /** The request at hand has locked the key; a GET for it waits. */
  predicate Locked(m: Master, key: Text) { !m.pc.Idle? && m.op.Phase1?() && m.op.key == Some(key) }

  /** What `handleGet` returns: the cache's value, else what the key's first slave answers, from a store
      that it may be changing for another key; None stands for ERROR_NO_SUCH_KEY. */
  ghost function GetAnswer(s: State, key: Text): Option<Text>
    requires s.replicas.Keys != {}
  {
    var store := s.replicas[FirstReplica(s.replicas.Keys, KeyHash(key))].store;
    if key in s.cache then Some(s.cache[key])
    else if ValidKey(Some(key)) && key in store then Some(store[key])
    else None
  }

  /** A value found is left in the cache. */
  ghost function Got(s: State, key: Text): State
    requires s.replicas.Keys != {}
  {
    var answer := GetAnswer(s, key);
    if answer.Some? then s.(cache := s.cache[key := answer.value]) else s
  }

  ghost function Do(s: State, step: Step): State
    requires Enabled(s, step)
  {
    match step
    case Start(op) => s.(master := Started(s.master, s.replicas.Keys, op))
    case Send => Sent(s)
    case ConnectFails => s.(master := GaveUp(s.master))
    case TimeOut => s.(master := GaveUp(s.master))
    case Receive(a) => Answered(s, a.reply)
    case Lose(r, i) => WithSlave(s, r, Without(s.replicas[r], i))
    case TakeMessage(r) => WithSlave(s, r, Took(s.replicas[r]))
    case Act(r) => WithSlave(s, r, Acted(s.replicas[r]))
    case Crash(r) => WithSlave(s, r, Rebuilt(s.replicas[r]))
    case Get(key, _) => Got(s, key)
    case Evict(key) => s.(cache := s.cache - {key})
  }

  ghost predicate Init(s: State) {
    && s.master.pc.Idle? && s.master.waiting.None? && s.master.outcomes == [] && s.cache == map[]
    && s.master.startTag == s.master.nextTag == 0
    && forall r :: r in s.replicas ==> s.replicas[r] == Replica([], map[], [], None, [], {})
  }

  /** A run: states linked by enabled steps from an initial state. */
  ghost predicate IsRun(trace: seq<State>, steps: seq<Step>) {
    && |trace| == |steps| + 1 && Init(trace[0])
    && forall i :: 0 <= i < |steps| ==> Enabled(trace[i], steps[i]) && trace[i + 1] == Do(trace[i], steps[i])
  }

  // ---------------------------------------------------------------- invariant

  /** The operations of the committed requests that involve slave r, in order. */
  function CommittedOn(outcomes: seq<Outcome>, r: Long): seq<Msg> {
    if outcomes == [] then []
    else
      var o := outcomes[|outcomes| - 1];
      var before := CommittedOn(outcomes[..|outcomes| - 1], r);
      if o.commit && (o.r1 == r || o.r2 == r) then before + [o.op] else before
  }

  /** Live state and log agree at every moment, also between logging and acting. */
  ghost predicate LogAgrees(rep: Replica) {
    && NoForeign(rep.log)
    && Replay(rep.log).Some?
    && match rep.busy
       case None => Replay(rep.log).value.store == rep.store && Replay(rep.log).value.applied == rep.applied
       case Some((p, prev)) =>
         && rep.log != [] && rep.log[|rep.log| - 1] == p.msg && prev == Last(rep.log[..|rep.log| - 1])
         && Replay(rep.log[..|rep.log| - 1]).Some?
         && Replay(rep.log[..|rep.log| - 1]).value.store == rep.store
         && Replay(rep.log[..|rep.log| - 1]).value.applied == rep.applied
  }

  ghost function Pending(log: seq<Msg>): Option<Msg>
    requires Replay(log).Some?
  {
    Replay(log).value.pending
  }

  ghost function Logged(log: seq<Msg>): seq<Msg>
    requires Replay(log).Some?
  {
    Replay(log).value.applied
  }

  /** The messages a slave has received but not answered, oldest first. */
  ghost function InFlight(rep: Replica): seq<Packet> {
    (if rep.busy.Some? then [rep.busy.value.0] else []) + rep.queue
  }

  ghost predicate Quiet(rep: Replica) { InFlight(rep) == [] }

  ghost predicate Carries(flight: seq<Packet>, allowed: set<Msg>) {
    forall p :: p in flight ==> p.msg in allowed
  }

  /** Tags on one slave: increasing in order of arrival, and answered ones are gone. */
  ghost predicate TagsOrdered(bound: nat, flight: seq<Packet>, sent: set<Answer>) {
    && (forall p :: p in flight ==> p.tag < bound)
    && (forall i, j :: 0 <= i < j < |flight| ==> flight[i].tag < flight[j].tag)
    && (forall a :: a in sent ==> a.tag < bound)
    && (forall a, p :: a in sent && p in flight ==> a.tag < p.tag)
  }

  /** The slave sent a READY vote in the current request. */
  ghost predicate SaidReady(m: Master, sent: set<Answer>) {
    exists a :: a in sent && a.reply.Ready? && m.startTag <= a.tag
  }

  /** Nothing in flight, no vote pending, every committed operation applied once. */
  ghost predicate Settled(rep: Replica, base: seq<Msg>)
    requires Replay(rep.log).Some?
  {
    Quiet(rep) && Pending(rep.log) == None && Logged(rep.log) == base
  }

  /** The slave has logged the request last, voted READY, and its server will accept it. */
  ghost predicate Prepared(m: Master, rep: Replica)
    requires Replay(rep.log).Some?
  {
    SaidReady(m, rep.sent) && Pending(rep.log) == Some(m.op) && Accepts(Replay(rep.log).value.store, m.op)
  }

  ghost predicate Undecided(m: Master, rep: Replica, base: seq<Msg>, allowed: set<Msg>)
    requires Replay(rep.log).Some?
  {
    && Carries(InFlight(rep), allowed) && Logged(rep.log) == base
    && (Pending(rep.log) == None || Pending(rep.log) == Some(m.op))
  }

  ghost predicate AppliedOnce(m: Master, rep: Replica, base: seq<Msg>)
    requires Replay(rep.log).Some?
  {
    Pending(rep.log) == None && Logged(rep.log) == base + [m.op]
  }

  ghost predicate Committing(m: Master, rep: Replica, base: seq<Msg>)
    requires Replay(rep.log).Some?
  {
    && Carries(InFlight(rep), {Commit}) && SaidReady(m, rep.sent)
    && ((Prepared(m, rep) && Logged(rep.log) == base) || AppliedOnce(m, rep, base))
  }

  ghost predicate InPhase(m: Master, r: Long, rep: Replica, base: seq<Msg>)
    requires Replay(rep.log).Some?
  {
    if m.pc.Idle? || (r != m.r1 && r != m.r2) then Settled(rep, base)
    else match m.pc
      case Ask1 => Undecided(m, rep, base, {m.op})
      case Ask2(yes) =>
        && Undecided(m, rep, base, {m.op})
        && (yes && r == m.r1 ==> Prepared(m, rep) && (m.r1 != m.r2 ==> Quiet(rep)))
      case Tell1(c) => if c then Committing(m, rep, base) else Undecided(m, rep, base, {m.op, Abort})
      case Tell2(c) =>
        if c then
          && Committing(m, rep, base)
          && (r == m.r1 ==> AppliedOnce(m, rep, base) && (m.r1 != m.r2 ==> Quiet(rep)))
        else
          && Undecided(m, rep, base, {m.op, Abort})
          && (r == m.r1 && m.r1 != m.r2 ==> Settled(rep, base))
  }

  /** What the message and the answer on the current connection can be. */
  ghost predicate Current(m: Master, r: Long, rep: Replica)
    requires Replay(rep.log).Some?
  {
    m.waiting.Some? && r == Target(m) ==>
      && CurrentPackets(m, InFlight(rep))
      && forall a :: a in rep.sent && a.tag == m.waiting.value ==> Meaning(m, rep, a.reply)
  }

  ghost predicate CurrentPackets(m: Master, flight: seq<Packet>)
    requires m.waiting.Some?
  {
    forall p :: p in flight && p.tag == m.waiting.value ==> p.msg == Outgoing(m)
  }

  /** What an answer on the current connection tells the master. */
  ghost predicate Meaning(m: Master, rep: Replica, reply: Reply)
    requires Replay(rep.log).Some?
  {
    && (Asking(m.pc) && reply.Ready? ==> Prepared(m, rep))
    && (Telling(m.pc) && reply.Ack? ==> Pending(rep.log) == None)
  }

  ghost predicate SlaveInv(m: Master, r: Long, rep: Replica) {
    && LogAgrees(rep) && TagsOrdered(m.nextTag, InFlight(rep), rep.sent)
    && (forall p :: p in InFlight(rep) ==> m.startTag <= p.tag)
    && InPhase(m, r, rep, CommittedOn(m.outcomes, r))
    && Current(m, r, rep)
  }

  ghost predicate MasterInv(m: Master, ids: set<Long>) {
    && m.startTag <= m.nextTag
    && (m.waiting.Some? ==> m.waiting.value + 1 == m.nextTag)
    && (!m.pc.Idle? ==>
          && ids != {} && ValidRequest(m.op)
          && m.r1 == FirstReplica(ids, KeyHash(m.op.key.value)) && m.r2 == Successor(ids, m.r1))
    && (ids != {} ==> forall i :: 0 <= i < |m.outcomes| ==> Placed(m.outcomes[i], ids))
    && (ids == {} ==> m.outcomes == [])
  }

  /** A finished request went to the two slaves of its key. */
  ghost predicate Placed(o: Outcome, ids: set<Long>)
    requires ids != {}
  {
    && ValidRequest(o.op)
    && o.r1 == FirstReplica(ids, KeyHash(o.op.key.value)) && o.r2 == Successor(ids, o.r1)
  }

  /** One plain map on which every committed request is carried out. */
  function Global(outcomes: seq<Outcome>): Store {
    if outcomes == [] then map[]
    else
      var o, before := outcomes[|outcomes| - 1], Global(outcomes[..|outcomes| - 1]);
      if o.commit then Performed(before, o.op) else before
  }

  function Performed(store: Store, op: Msg): Store {
    match op
    case Put(Some(k), Some(v)) => store[k := v]
    case Del(Some(k)) => store - {k}
    case _ => store
  }

  ghost predicate CacheInv(cache: Store, outcomes: seq<Outcome>) {
    forall k :: k in cache ==> k in Global(outcomes) && cache[k] == Global(outcomes)[k]
  }

  ghost predicate SlavesInv(m: Master, replicas: map<Long, Replica>) {
    forall r :: r in replicas ==> SlaveInv(m, r, replicas[r])
  }

  ghost predicate Inv(s: State) {
    && MasterInv(s.master, s.replicas.Keys) && CacheInv(s.cache, s.master.outcomes)
    && SlavesInv(s.master, s.replicas)
  }

  // ---------------------------------------------------------------- slave steps keep it

  /** Deciding what to log and acting on it later agree with replaying the log. */
  lemma ActAgrees(rep: Replica)
    requires LogAgrees(rep) && rep.busy.Some?
    ensures LogAgrees(Acted(rep))
  {
    RebuildIsLive(rep.log[..|rep.log| - 1]);
  }

  /** g is f without the packet at index k. */
  ghost predicate Lost(f: seq<Packet>, g: seq<Packet>, k: int) {
    0 <= k < |f| && |g| == |f| - 1 && forall j :: 0 <= j < |g| ==> g[j] == f[if j < k then j else j + 1]
  }

  lemma LostTags(bound: nat, f: seq<Packet>, g: seq<Packet>, k: int, sent: set<Answer>)
    requires Lost(f, g, k) && TagsOrdered(bound, f, sent)
    ensures TagsOrdered(bound, g, sent) && forall p :: p in g ==> p in f
  {
    forall i, j | 0 <= i < j < |g|
      ensures g[i].tag < g[j].tag
    {
      assert f[if i < k then i else i + 1].tag < f[if j < k then j else j + 1].tag;
    }
  }

  /** Fewer messages in flight cannot hurt. */
  lemma FewerInFlight(m: Master, r: Long, rep: Replica, now: Replica)
    requires SlaveInv(m, r, rep) && LogAgrees(now) && now.log == rep.log && now.sent == rep.sent
    requires forall p :: p in InFlight(now) ==> p in InFlight(rep)
    requires TagsOrdered(m.nextTag, InFlight(now), rep.sent)
    ensures SlaveInv(m, r, now)
  {
    assert InFlight(now) != [] ==> InFlight(now)[0] in InFlight(now);
  }

  lemma CrashSlave(m: Master, r: Long, rep: Replica)
    requires SlaveInv(m, r, rep)
    ensures SlaveInv(m, r, Rebuilt(rep))
  {
    FewerInFlight(m, r, rep, Rebuilt(rep));
  }

  lemma LostAt(rep: Replica, i: nat)
    requires i < |rep.queue|
    ensures Lost(InFlight(rep), InFlight(Without(rep, i)), |InFlight(rep)| - |rep.queue| + i)
  {
  }

  lemma LoseSlave(m: Master, r: Long, rep: Replica, i: nat)
    requires SlaveInv(m, r, rep) && i < |rep.queue|
    ensures SlaveInv(m, r, Without(rep, i))
  {
    var f, g := InFlight(rep), InFlight(Without(rep, i));
    LostAt(rep, i);
    LostTags(m.nextTag, f, g, |f| - |rep.queue| + i, rep.sent);
    FewerInFlight(m, r, rep, Without(rep, i));
  }

  /** A log that still replays after one more entry keeps agreeing with the live slave. */
  lemma TookAgrees(rep: Replica)
    requires LogAgrees(rep) && rep.busy.None? && rep.queue != []
    requires !rep.queue[0].msg.Other? && Replay(rep.log + [rep.queue[0].msg]).Some?
    ensures LogAgrees(Took(rep)) && InFlight(Took(rep)) == InFlight(rep)
  {
    var now := Took(rep);
    assert now.log[..|now.log| - 1] == rep.log;
    assert InFlight(now) == [rep.queue[0]] + rep.queue[1..] == rep.queue;
  }

  lemma TakeUndecided(m: Master, rep: Replica, base: seq<Msg>, allowed: set<Msg>)
    requires LogAgrees(rep) && rep.busy.None? && rep.queue != [] && m.op.Phase1?()
    requires Undecided(m, rep, base, allowed) && allowed <= {m.op, Abort}
    ensures LogAgrees(Took(rep)) && InFlight(Took(rep)) == InFlight(rep)
    ensures Undecided(m, Took(rep), base, allowed)
    ensures Prepared(m, rep) && rep.queue[0].msg == m.op ==> Prepared(m, Took(rep))
  {
    var msg := rep.queue[0].msg;
    assert InFlight(rep)[0] == rep.queue[0];
    assert rep.queue[0] in InFlight(rep);
    ReplayAppend(rep.log, msg);
    TookAgrees(rep);
  }

  lemma TakeCommitting(m: Master, rep: Replica, base: seq<Msg>)
    requires LogAgrees(rep) && rep.busy.None? && rep.queue != []
    requires Committing(m, rep, base)
    ensures LogAgrees(Took(rep)) && InFlight(Took(rep)) == InFlight(rep)
    ensures Committing(m, Took(rep), base)
    ensures AppliedOnce(m, rep, base) ==> AppliedOnce(m, Took(rep), base)
  {
    assert InFlight(rep)[0] == rep.queue[0];
    assert rep.queue[0] in InFlight(rep);
    ReplayAppend(rep.log, Commit);
    TookAgrees(rep);
  }

  /** Logging the next message: it stays in flight, and the log still replays. */
  lemma TakeSlave(m: Master, r: Long, rep: Replica)
    requires SlaveInv(m, r, rep) && rep.busy.None? && rep.queue != []
    requires !m.pc.Idle? ==> m.op.Phase1?()
    requires m.waiting.Some? ==> m.waiting.value + 1 == m.nextTag
    ensures SlaveInv(m, r, Took(rep))
  {
    var base, p := CommittedOn(m.outcomes, r), rep.queue[0];
    assert InFlight(rep)[0] == p;
    assert p in InFlight(rep);
    if Asking(m.pc) {
      TakeUndecided(m, rep, base, {m.op});
    } else if m.pc.commit {
      TakeCommitting(m, rep, base);
    } else {
      TakeUndecided(m, rep, base, {m.op, Abort});
    }
    assert forall a :: a in rep.sent ==> a.tag < p.tag;
  }

  lemma ActedTags(bound: nat, p: Packet, g: seq<Packet>, sent: set<Answer>, a: Answer)
    requires TagsOrdered(bound, [p] + g, sent) && a.tag == p.tag
    ensures TagsOrdered(bound, g, sent) && TagsOrdered(bound, g, sent + {a})
  {
    LostTags(bound, [p] + g, g, 0, sent);
    assert ([p] + g)[0] in [p] + g;
    forall q | q in g
      ensures p.tag < q.tag
    {
      OldestFirst(bound, p, g, sent, q);
    }
    MoreAnswers(bound, g, sent, a);
  }

  lemma OldestFirst(bound: nat, p: Packet, g: seq<Packet>, sent: set<Answer>, q: Packet)
    requires TagsOrdered(bound, [p] + g, sent) && q in g
    ensures p.tag < q.tag
  {
    var i :| 0 <= i < |g| && g[i] == q;
    var f := [p] + g;
    assert f[0].tag < f[i + 1].tag;
  }

  lemma MoreAnswers(bound: nat, g: seq<Packet>, sent: set<Answer>, a: Answer)
    requires TagsOrdered(bound, g, sent) && a.tag < bound && forall q :: q in g ==> a.tag < q.tag
    ensures TagsOrdered(bound, g, sent + {a})
  {
  }

  /** What the answer to the message just logged means. */
  lemma ActMeaning(m: Master, r: Long, rep: Replica)
    requires SlaveInv(m, r, rep) && rep.busy.Some? && Respond(rep).Some? && ValidRequest(m.op)
    requires rep.busy.value.0.msg == Outgoing(m)
    ensures Meaning(m, Acted(rep), Respond(rep).value)
  {
    var p := rep.busy.value.0;
    assert InFlight(rep)[0] == p && p in InFlight(rep);
    RebuildIsLive(rep.log);
    assert Last(rep.log) == Some(p.msg);
    if Asking(m.pc) && Respond(rep) == Some(Ready) {
      var before := rep.log[..|rep.log| - 1];
      assert rep.log == before + [m.op];
      ReplayAppend(before, m.op);
      assert Answer(p.tag, Ready) in Acted(rep).sent;
    }
  }

  lemma ActPhase(m: Master, r: Long, rep: Replica, now: Replica, base: seq<Msg>)
    requires LogAgrees(rep) && InPhase(m, r, rep, base)
    requires now.log == rep.log && rep.sent <= now.sent
    requires !Quiet(rep) && forall p :: p in InFlight(now) ==> p in InFlight(rep)
    ensures InPhase(m, r, now, base)
  {
  }

  lemma ActSlave(m: Master, r: Long, rep: Replica)
    requires SlaveInv(m, r, rep) && rep.busy.Some? && (!m.pc.Idle? ==> ValidRequest(m.op))
    ensures SlaveInv(m, r, Acted(rep))
  {
    var now, p := Acted(rep), rep.busy.value.0;
    ActAgrees(rep);
    assert InFlight(rep) == [p] + InFlight(now);
    assert p in InFlight(rep) && forall q :: q in InFlight(now) ==> q in InFlight(rep);
    ActedTags(m.nextTag, p, InFlight(now), rep.sent,
              Answer(p.tag, if Respond(rep).Some? then Respond(rep).value else Ack));
    ActPhase(m, r, rep, now, CommittedOn(m.outcomes, r));
    if m.waiting == Some(p.tag) && r == Target(m) && Respond(rep).Some? {
      ActMeaning(m, r, rep);
    }
    ActCurrent(m, r, rep);
  }

  lemma ActCurrent(m: Master, r: Long, rep: Replica)
    requires SlaveInv(m, r, rep) && rep.busy.Some? && LogAgrees(Acted(rep))
    requires InFlight(rep) == [rep.busy.value.0] + InFlight(Acted(rep))
    requires m.waiting == Some(rep.busy.value.0.tag) && r == Target(m) && Respond(rep).Some? ==>
               Meaning(m, Acted(rep), Respond(rep).value)
    ensures Current(m, r, Acted(rep))
  {
    var now := Acted(rep);
    if m.waiting.Some? && r == Target(m) {
      forall a | a in now.sent && a.tag == m.waiting.value
        ensures Meaning(m, now, a.reply)
      {
        if a in rep.sent {
          assert Meaning(m, rep, a.reply);
        }
      }
    }
  }

  // ---------------------------------------------------------------- master steps keep it

  lemma StartSlave(m: Master, ids: set<Long>, op: Msg, r: Long, rep: Replica)
    requires SlaveInv(m, r, rep) && m.pc.Idle? && ids != {} && ValidRequest(op)
    ensures SlaveInv(Started(m, ids, op), r, rep)
  {
  }

  lemma SendOther(m: Master, r: Long, rep: Replica)
    requires SlaveInv(m, r, rep) && r != Target(m) && !m.pc.Idle?
    ensures SlaveInv(Connected(m), r, rep)
  {
  }

  lemma DeliveredFlight(bound: nat, f: seq<Packet>, p: Packet, sent: set<Answer>)
    requires TagsOrdered(bound, f, sent) && p.tag == bound
    ensures TagsOrdered(bound + 1, f + [p], sent)
  {
    var g := f + [p];
    forall i, j | 0 <= i < j < |g|
      ensures g[i].tag < g[j].tag
    {
      assert g[i] == f[i] && f[i] in f;
    }
  }

  lemma SendPhase(m: Master, m': Master, r: Long, rep: Replica, now: Replica, base: seq<Msg>)
    requires Replay(rep.log).Some? && InPhase(m, r, rep, base) && r == Target(m) && !m.pc.Idle?
    requires m' == m.(waiting := m'.waiting, nextTag := m'.nextTag)
    requires now.log == rep.log && now.sent == rep.sent
    requires forall p :: p in InFlight(now) ==> p in InFlight(rep) || p.msg == Outgoing(m)
    ensures InPhase(m', r, now, base)
  {
  }

  lemma SendTarget(m: Master, r: Long, rep: Replica)
    requires SlaveInv(m, r, rep) && r == Target(m) && !m.pc.Idle? && m.startTag <= m.nextTag
    ensures SlaveInv(Connected(m), r, Delivered(rep, Packet(m.nextTag, Outgoing(m))))
  {
    var p, m' := Packet(m.nextTag, Outgoing(m)), Connected(m);
    var now, f := Delivered(rep, p), InFlight(rep);
    assert InFlight(now) == f + [p];
    DeliveredFlight(m.nextTag, f, p, rep.sent);
    SendPhase(m, m', r, rep, now, CommittedOn(m.outcomes, r));
    assert Current(m', r, now) by {
      assert forall q :: q in f + [p] ==> q in f || q == p;
    }
    assert forall q :: q in f + [p] ==> m.startTag <= q.tag;
  }

  lemma GaveUpSlave(m: Master, r: Long, rep: Replica)
    requires SlaveInv(m, r, rep) && !m.pc.Idle?
    ensures SlaveInv(GaveUp(m), r, rep)
  {
  }

  /** An answer on the current connection means everything sent before it has been handled. */
  lemma AnswerMeansQuiet(m: Master, rep: Replica, a: Answer)
    requires TagsOrdered(m.nextTag, InFlight(rep), rep.sent)
    requires a in rep.sent && m.waiting == Some(a.tag) && a.tag + 1 == m.nextTag
    ensures Quiet(rep)
  {
    var f := InFlight(rep);
    if f != [] {
      SomePacket(f);
    }
  }

  lemma SomePacket(f: seq<Packet>)
    requires f != []
    ensures exists p :: p in f
  {
    assert f[0] in f;
  }

  lemma VoteSlave(m: Master, r: Long, rep: Replica, reply: Reply)
    requires SlaveInv(m, r, rep) && Asking(m.pc)
    requires r == Target(m) ==> Quiet(rep) && Meaning(m, rep, reply)
    ensures SlaveInv(Received(m, reply), r, rep)
  {
  }

  lemma AckSlave(m: Master, r: Long, rep: Replica, reply: Reply)
    requires SlaveInv(m, r, rep) && Telling(m.pc)
    requires r == Target(m) ==> Quiet(rep) && Meaning(m, rep, reply)
    ensures SlaveInv(Received(m, reply), r, rep)
  {
    var o := Outcome(m.op, m.r1, m.r2, m.pc.commit);
    assert (m.outcomes + [o])[..|m.outcomes|] == m.outcomes;
  }

  // ---------------------------------------------------------------- the replicated map

  /** What a sequence of operations leaves in an empty store. */
  function OpsStore(ops: seq<Msg>): Store {
    if ops == [] then map[] else Performed(OpsStore(ops[..|ops| - 1]), ops[|ops| - 1])
  }

  lemma {:induction false} ReplayStore(log: seq<Msg>)
    requires Replay(log).Some?
    ensures Replay(log).value.store == OpsStore(Replay(log).value.applied)
  {
    if log != [] {
      var before := log[..|log| - 1];
      ReplayStore(before);
      var r := Replay(before).value;
      if log[|log| - 1].Commit? && r.pending.Some? {
        assert (r.applied + [r.pending.value])[..|r.applied|] == r.applied;
      }
    }
  }

  ghost predicate SameAt(a: Store, b: Store, key: Text) {
    (key in a <==> key in b) && (key in a ==> a[key] == b[key])
  }

  /** An operation on another key leaves a key alone; the same operation treats equal values equally. */
  lemma PerformedAt(a: Store, b: Store, op: Msg, key: Text)
    requires ValidRequest(op)
    ensures op.key.value != key ==> SameAt(Performed(a, op), a, key)
    ensures SameAt(a, b, key) ==> SameAt(Performed(a, op), Performed(b, op), key)
  {
  }

  /** Each of a key's two slaves holds exactly the value the plain map holds. */
  lemma {:induction false} SlaveHoldsGlobal(outcomes: seq<Outcome>, ids: set<Long>, r: Long, key: Text)
    requires ids != {} && forall i :: 0 <= i < |outcomes| ==> Placed(outcomes[i], ids)
    requires r == FirstReplica(ids, KeyHash(key)) || r == Successor(ids, FirstReplica(ids, KeyHash(key)))
    ensures SameAt(OpsStore(CommittedOn(outcomes, r)), Global(outcomes), key)
  {
    if outcomes != [] {
      var before, o := outcomes[..|outcomes| - 1], outcomes[|outcomes| - 1];
      SlaveHoldsGlobal(before, ids, r, key);
      assert Placed(o, ids);
      var c := CommittedOn(before, r);
      OpsStoreAppend(c, o.op);
      PerformedAt(OpsStore(c), Global(before), o.op, key);
      PerformedAt(Global(before), Global(before), o.op, key);
    }
  }

  lemma OpsStoreAppend(ops: seq<Msg>, op: Msg)
    ensures OpsStore(ops + [op]) == Performed(OpsStore(ops), op)
  {
    assert (ops + [op])[..|ops|] == ops;
  }

  // ---------------------------------------------------------------- all runs

  lemma InitInv(s: State)
    requires Init(s)
    ensures Inv(s)
  {
  }

  lemma SlaveStepInv(s: State, r: Long, rep: Replica)
    requires Inv(s) && r in s.replicas && SlaveInv(s.master, r, rep)
    ensures Inv(WithSlave(s, r, rep))
  {
    assert s.replicas[r := rep].Keys == s.replicas.Keys;
  }

  lemma StartSlaves(m: Master, replicas: map<Long, Replica>, op: Msg)
    requires SlavesInv(m, replicas) && m.pc.Idle? && replicas.Keys != {} && ValidRequest(op)
    ensures SlavesInv(Started(m, replicas.Keys, op), replicas)
  {
    forall r | r in replicas
      ensures SlaveInv(Started(m, replicas.Keys, op), r, replicas[r])
    {
      StartSlave(m, replicas.Keys, op, r, replicas[r]);
    }
  }

  lemma SendSlaves(m: Master, replicas: map<Long, Replica>)
    requires SlavesInv(m, replicas) && !m.pc.Idle? && m.startTag <= m.nextTag && Target(m) in replicas
    ensures SlavesInv(Connected(m), MessageSent(m, replicas))
  {
    var t := MessageSent(m, replicas);
    forall r | r in t
      ensures SlaveInv(Connected(m), r, t[r])
    {
      if r == Target(m) {
        SendTarget(m, r, replicas[r]);
      } else {
        SendOther(m, r, replicas[r]);
      }
    }
  }

  lemma GaveUpSlaves(m: Master, replicas: map<Long, Replica>)
    requires SlavesInv(m, replicas) && !m.pc.Idle?
    ensures SlavesInv(GaveUp(m), replicas)
  {
    forall r | r in replicas
      ensures SlaveInv(GaveUp(m), r, replicas[r])
    {
      GaveUpSlave(m, r, replicas[r]);
    }
  }

  lemma ReceiveSlaves(m: Master, replicas: map<Long, Replica>, a: Answer)
    requires SlavesInv(m, replicas) && !m.pc.Idle? && Target(m) in replicas && a in replicas[Target(m)].sent
    requires m.waiting == Some(a.tag) && a.tag + 1 == m.nextTag
    ensures SlavesInv(Received(m, a.reply), replicas)
  {
    forall r | r in replicas
      ensures SlaveInv(Received(m, a.reply), r, replicas[r])
    {
      if r == Target(m) {
        AnswerMeansQuiet(m, replicas[r], a);
      }
      if Asking(m.pc) {
        VoteSlave(m, r, replicas[r], a.reply);
      } else {
        AckSlave(m, r, replicas[r], a.reply);
      }
    }
  }

  lemma ReturnMaster(m: Master, ids: set<Long>, reply: Reply)
    requires MasterInv(m, ids) && !m.pc.Idle?
    ensures MasterInv(Received(m, reply), ids)
  {
    var o, m' := Outcome(m.op, m.r1, m.r2, Telling(m.pc) && m.pc.commit), Received(m, reply);
    assert Placed(o, ids);
    assert m'.outcomes == m.outcomes || m'.outcomes == m.outcomes + [o];
  }

  /** When a request returns, the finished requests and the cache move together. */
  lemma ReturnCache(m: Master, cache: Store, reply: Reply)
    requires CacheInv(cache, m.outcomes) && !m.pc.Idle? && ValidRequest(m.op)
    ensures CacheInv(if reply.Ack? then CacheAfter(cache, m) else cache, Received(m, reply).outcomes)
  {
    if m.pc.Tell2? && reply.Ack? {
      GlobalAppend(m.outcomes, Outcome(m.op, m.r1, m.r2, m.pc.commit));
    }
  }

  lemma GlobalAppend(outcomes: seq<Outcome>, o: Outcome)
    ensures Global(outcomes + [o]) == if o.commit then Performed(Global(outcomes), o.op) else Global(outcomes)
  {
    assert (outcomes + [o])[..|outcomes|] == outcomes;
  }

  /** What a slave's log says it has applied, in the middle of a request too. */
  lemma PhaseLogged(m: Master, r: Long, rep: Replica, base: seq<Msg>)
    requires Replay(rep.log).Some? && InPhase(m, r, rep, base) && (!m.pc.Idle? ==> ValidRequest(m.op))
    ensures Logged(rep.log) == base || (!m.pc.Idle? && Logged(rep.log) == base + [m.op])
    ensures rep.busy.Some? && rep.busy.value.0.msg.Commit? && Pending(rep.log).None? ==>
              !m.pc.Idle? && Logged(rep.log) == base + [m.op]
  {
    if rep.busy.Some? {
      assert rep.busy.value.0 in InFlight(rep);
    }
  }

  /** A logged COMMIT is the one message whose effect the store may still lack. */
  lemma BusyLogged(rep: Replica)
    requires LogAgrees(rep) && rep.busy.Some?
    ensures Logged(rep.log) == rep.applied ||
            (&& rep.busy.value.0.msg.Commit? && Pending(rep.log).None? && |Logged(rep.log)| > 0
             && Logged(rep.log)[..|Logged(rep.log)| - 1] == rep.applied)
  {
    var before := rep.log[..|rep.log| - 1];
    assert Replay(rep.log) == ReplayEntry(Replay(before).value, rep.busy.value.0.msg);
  }

  lemma StoreIsApplied(rep: Replica)
    requires LogAgrees(rep)
    ensures rep.store == OpsStore(rep.applied)
  {
    ReplayStore(if rep.busy.Some? then rep.log[..|rep.log| - 1] else rep.log);
  }

  /** Also in the middle of a request a slave has applied its committed operations, at most followed by
      the request itself. */
  lemma AppliedSoFar(m: Master, r: Long, rep: Replica)
    requires SlaveInv(m, r, rep) && (!m.pc.Idle? ==> ValidRequest(m.op))
    ensures rep.store == OpsStore(rep.applied)
    ensures var base := CommittedOn(m.outcomes, r);
            rep.applied == base || (!m.pc.Idle? && rep.applied == base + [m.op])
  {
    StoreIsApplied(rep);
    PhaseLogged(m, r, rep, CommittedOn(m.outcomes, r));
    if rep.busy.Some? {
      BusyLogged(rep);
    }
  }

  /** So for a key that the request does not lock, the store is as between requests. */
  lemma SlaveAtOther(m: Master, ids: set<Long>, r: Long, rep: Replica, key: Text)
    requires MasterInv(m, ids) && ids != {} && SlaveInv(m, r, rep) && !Locked(m, key)
    requires r == FirstReplica(ids, KeyHash(key)) || r == Successor(ids, FirstReplica(ids, KeyHash(key)))
    ensures SameAt(rep.store, Global(m.outcomes), key)
  {
    var base := CommittedOn(m.outcomes, r);
    AppliedSoFar(m, r, rep);
    SlaveHoldsGlobal(m.outcomes, ids, r, key);
    if rep.applied != base {
      OpsStoreAppend(base, m.op);
      PerformedAt(OpsStore(base), OpsStore(base), m.op, key);
    }
  }

  /** No key that the servers refuse ever gets into the plain map. */
  lemma {:induction false} GlobalIsValid(outcomes: seq<Outcome>, ids: set<Long>, key: Text)
    requires ids != {} && (forall i :: 0 <= i < |outcomes| ==> Placed(outcomes[i], ids)) && key in Global(outcomes)
    ensures ValidKey(Some(key))
  {
    if outcomes != [] {
      var before, o := outcomes[..|outcomes| - 1], outcomes[|outcomes| - 1];
      assert Placed(o, ids);
      if key in Global(before) {
        GlobalIsValid(before, ids, key);
      }
    }
  }

  function PlainGet(store: Store, key: Text): Option<Text> { if key in store then Some(store[key]) else None }

  lemma AnswerIsPlain(s: State, key: Text)
    requires Inv(s) && !Locked(s.master, key) && s.replicas.Keys != {}
    ensures GetAnswer(s, key) == PlainGet(Global(s.master.outcomes), key)
  {
    var ids, outcomes := s.replicas.Keys, s.master.outcomes;
    var r := FirstReplica(ids, KeyHash(key));
    assert SlaveInv(s.master, r, s.replicas[r]);
    SlaveAtOther(s.master, ids, r, s.replicas[r], key);
    if key in Global(outcomes) {
      GlobalIsValid(outcomes, ids, key);
    }
  }

  lemma GetReturns(s: State, step: Step)
    requires Inv(s) && step.Get? && Enabled(s, step)
    ensures step.returned == PlainGet(Global(s.master.outcomes), step.key)
  {
    AnswerIsPlain(s, step.key);
  }

  lemma GetInv(s: State, key: Text)
    requires Inv(s) && !Locked(s.master, key) && s.replicas.Keys != {}
    ensures Inv(Got(s, key))
  {
    AnswerIsPlain(s, key);
  }

  lemma SendMaster(m: Master, ids: set<Long>)
    requires MasterInv(m, ids)
    ensures MasterInv(Connected(m), ids)
  {
  }

  lemma SendInv(s: State)
    requires Inv(s) && Enabled(s, Send)
    ensures Inv(Sent(s))
  {
    SendSlaves(s.master, s.replicas);
    SendMaster(s.master, s.replicas.Keys);
  }

  lemma StartInv(s: State, op: Msg)
    requires Inv(s) && Enabled(s, Start(op))
    ensures Inv(s.(master := Started(s.master, s.replicas.Keys, op)))
  {
    StartSlaves(s.master, s.replicas, op);
  }

  lemma GaveUpInv(s: State)
    requires Inv(s) && !s.master.pc.Idle?
    ensures Inv(s.(master := GaveUp(s.master)))
  {
    GaveUpSlaves(s.master, s.replicas);
  }

  lemma ReceiveInv(s: State, a: Answer)
    requires Inv(s) && Enabled(s, Receive(a))
    ensures Inv(Answered(s, a.reply))
  {
    ReceiveSlaves(s.master, s.replicas, a);
    ReturnMaster(s.master, s.replicas.Keys, a.reply);
    ReturnCache(s.master, s.cache, a.reply);
  }

  lemma MasterStepInv(s: State, step: Step)
    requires Inv(s) && Enabled(s, step)
    requires (step.Start? || step.Send? || step.ConnectFails? || step.TimeOut? || step.Receive?)
    ensures Inv(Do(s, step))
  {
    match step
    case Start(op) => StartInv(s, op);
    case Send => SendInv(s);
    case ConnectFails => GaveUpInv(s);
    case TimeOut => GaveUpInv(s);
    case Receive(a) => ReceiveInv(s, a);
  }

  lemma StepInv(s: State, step: Step)
    requires Inv(s) && Enabled(s, step)
    ensures Inv(Do(s, step))
  {
    var m := s.master;
    match step
    case Lose(r, i) =>
      LoseSlave(m, r, s.replicas[r], i);
      SlaveStepInv(s, r, Without(s.replicas[r], i));
    case TakeMessage(r) =>
      TakeSlave(m, r, s.replicas[r]);
      SlaveStepInv(s, r, Took(s.replicas[r]));
    case Act(r) =>
      ActSlave(m, r, s.replicas[r]);
      SlaveStepInv(s, r, Acted(s.replicas[r]));
    case Crash(r) =>
      CrashSlave(m, r, s.replicas[r]);
      SlaveStepInv(s, r, Rebuilt(s.replicas[r]));
    case Get(key, _) => GetInv(s, key);
    case Evict(key) =>
    case _ => MasterStepInv(s, step);
  }

  lemma {:induction false} RunInv(trace: seq<State>, steps: seq<Step>, n: nat)
    requires IsRun(trace, steps) && n < |trace|
    ensures Inv(trace[n])
  {
    if n == 0 {
      InitInv(trace[0]);
    } else {
      RunInv(trace, steps, n - 1);
      StepInv(trace[n - 1], steps[n - 1]);
    }
  }

  // ---------------------------------------------------------------- theorems

  /** COMMIT is sent only when both slaves have voted READY on this request. */
  lemma CommitNeedsBothVotes(trace: seq<State>, steps: seq<Step>, n: nat)
    requires IsRun(trace, steps) && n < |trace|
    requires Telling(trace[n].master.pc) && trace[n].master.pc.commit
    ensures var m, replicas := trace[n].master, trace[n].replicas;
            && m.r1 in replicas && SaidReady(m, replicas[m.r1].sent)
            && m.r2 in replicas && SaidReady(m, replicas[m.r2].sent)
  {
    RunInv(trace, steps, n);
    var m, replicas := trace[n].master, trace[n].replicas;
    assert SlaveInv(m, m.r1, replicas[m.r1]);
    assert SlaveInv(m, m.r2, replicas[m.r2]);
  }

  /** Whenever no request is running, every slave has applied exactly the committed operations of
      its keys, each once and in order, so both slaves of a request applied it or neither did. */
  lemma AllOrNothing(trace: seq<State>, steps: seq<Step>, n: nat, r: Long)
    requires IsRun(trace, steps) && n < |trace| && trace[n].master.pc.Idle? && r in trace[n].replicas
    ensures trace[n].replicas[r].applied == CommittedOn(trace[n].master.outcomes, r)
    ensures trace[n].replicas[r].store == OpsStore(CommittedOn(trace[n].master.outcomes, r))
  {
    RunInv(trace, steps, n);
    var rep := trace[n].replicas[r];
    assert SlaveInv(trace[n].master, r, rep);
    ReplayStore(rep.log);
  }

  /** Whenever no request is running, the replicated store is one plain map: both slaves of every
      key, and the master's cache where it holds the key, agree with it. */
  lemma RefinesPlainMap(trace: seq<State>, steps: seq<Step>, n: nat, key: Text)
    requires IsRun(trace, steps) && n < |trace| && trace[n].master.pc.Idle? && trace[n].replicas.Keys != {}
    ensures var s := trace[n];
            var first := FirstReplica(s.replicas.Keys, KeyHash(key));
            && SameAt(s.replicas[first].store, Global(s.master.outcomes), key)
            && SameAt(s.replicas[Successor(s.replicas.Keys, first)].store, Global(s.master.outcomes), key)
            && (key in s.cache ==> key in Global(s.master.outcomes) && s.cache[key] == Global(s.master.outcomes)[key])
  {
    RunInv(trace, steps, n);
    var ids, outcomes := trace[n].replicas.Keys, trace[n].master.outcomes;
    var first := FirstReplica(ids, KeyHash(key));
    AllOrNothing(trace, steps, n, first);
    AllOrNothing(trace, steps, n, Successor(ids, first));
    SlaveHoldsGlobal(outcomes, ids, first, key);
    SlaveHoldsGlobal(outcomes, ids, Successor(ids, first), key);
  }

  /** Every GET of every run, also one in the middle of a request for another key, returns what the plain
      map of the requests committed so far holds, or ERROR_NO_SUCH_KEY exactly when it holds nothing. */
  lemma GetsArePlain(trace: seq<State>, steps: seq<Step>, i: nat)
    requires IsRun(trace, steps) && i < |steps| && steps[i].Get?
    ensures steps[i].returned == PlainGet(Global(trace[i].master.outcomes), steps[i].key)
  {
    RunInv(trace, steps, i);
    GetReturns(trace[i], steps[i]);
  }

  /** At every moment of every run a crash loses nothing: the rebuilt store is the live one, with
      the message at hand carried out if it was already logged. */
  lemma CrashLosesNothing(trace: seq<State>, steps: seq<Step>, n: nat, r: Long)
    requires IsRun(trace, steps) && n < |trace| && r in trace[n].replicas
    ensures var rep := trace[n].replicas[r];
            && Replay(rep.log).Some?
            && Rebuilt(rep).store == (if rep.busy.Some? then Acted(rep) else rep).store
            && Rebuilt(rep).applied == (if rep.busy.Some? then Acted(rep) else rep).applied
  {
    RunInv(trace, steps, n);
    var rep := trace[n].replicas[r];
    assert SlaveInv(trace[n].master, r, rep);
    if rep.busy.Some? {
      ActAgrees(rep);
    }
  }
}

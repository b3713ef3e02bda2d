/** The slave's side of two-phase commit: the durable log and its replay
    (kvstore/src/kvstore/TPCLog.java) and the message handler that writes it
    (kvstore/src/kvstore/TPCMasterHandler.java), over the acceptance rules of
    kvstore/src/kvstore/KVServer.java. */
module TpcLog {
  import opened Basics

  type Store = map<Text, Text>

  /** What the master can send besides GET.  A Java null key or value is None; Other stands for
      every other message type. */
  datatype Msg =
    | Put(key: Option<Text>, val: Option<Text>)
    | Del(key: Option<Text>)
    | Commit
    | Abort
    | Other
  {
    predicate Phase1?() { Put? || Del? }
  }

  datatype Reply = Ready | Aborted | Ack | Resp

  const MAX_KEY_SIZE := 256
  const MAX_VAL_SIZE := 256 * 1024

  predicate ValidKey(key: Option<Text>) { key.Some? && 0 < |key.value| <= MAX_KEY_SIZE }

  /** KVServer.put and KVServer.del carry the operation out exactly when this holds; otherwise
      they throw a KVException and change nothing. */
  predicate Accepts(store: Store, op: Msg) {
    match op
    case Put(k, v) => ValidKey(k) && v.Some? && 0 < |v.value| <= MAX_VAL_SIZE
    case Del(k) => ValidKey(k) && k.value in store
    case _ => false
  }

  function Apply(store: Store, op: Msg): Store
    requires Accepts(store, op)
  {
    if op.Put? then store[op.key.value := op.val.value] else store - {op.key.value}
  }

  function Last(log: seq<Msg>): Option<Msg> {
    if log == [] then None else Some(log[|log| - 1])
  }

  /** The state of `rebuildServer` after some entries: the server, the operations carried out on
      it, and phase1Entry. */
  datatype Replayed = Replayed(store: Store, applied: seq<Msg>, pending: Option<Msg>)

  /** One iteration of `rebuildServer`; None when the server throws. */
  function ReplayEntry(r: Replayed, m: Msg): Option<Replayed> {
    if m.Phase1?() then Some(r.(pending := Some(m)))
    else if m.Commit? && r.pending.Some? then
      if Accepts(r.store, r.pending.value)
      then Some(Replayed(Apply(r.store, r.pending.value), r.applied + [r.pending.value], None))
      else None
    else if m.Abort? then Some(r.(pending := None))
    else Some(r)
  }

  function Replay(log: seq<Msg>): Option<Replayed> {
    if log == [] then Some(Replayed(map[], [], None))
    else
      var r := Replay(log[..|log| - 1]);
      if r.None? then None else ReplayEntry(r.value, log[|log| - 1])
  }

  lemma ReplayAppend(log: seq<Msg>, m: Msg)
    ensures Replay(log + [m]) == if Replay(log).None? then None else ReplayEntry(Replay(log).value, m)
  {
    assert (log + [m])[..|log|] == log;
  }

  /** The live slave: the store after handling the messages of a log one by one with the rule of
      the message handler, which looks only at the last entry before the new one. */
  function LiveStep(store: Store, last: Option<Msg>, m: Msg): Store {
    if m.Commit? && last.Some? && last.value.Phase1?() && Accepts(store, last.value)
    then Apply(store, last.value)
    else store
  }

  function LiveStore(log: seq<Msg>): Store {
    if log == [] then map[]
    else
      var before := log[..|log| - 1];
      LiveStep(LiveStore(before), Last(before), log[|log| - 1])
  }

  /** The COMMIT at the end of log reached a server that refused the operation. */
  predicate RefusedCommit(log: seq<Msg>) {
    && log != [] && log[|log| - 1].Commit?
    && var before := log[..|log| - 1];
       && Last(before).Some? && Last(before).value.Phase1?()
       && !Accepts(LiveStore(before), Last(before).value)
  }

  ghost predicate NoForeign(log: seq<Msg>) { forall i :: 0 <= i < |log| ==> !log[i].Other? }

  /** Without foreign messages, replay's pending entry is exactly the handler's last entry, so
      rebuilding gives the live store; it fails exactly when some live COMMIT was refused. */
  lemma {:induction false} RebuildIsLive(log: seq<Msg>)
    requires NoForeign(log)
    ensures Replay(log).Some? <==> forall n :: 0 <= n <= |log| ==> !RefusedCommit(log[..n])
    ensures Replay(log).Some? ==>
              && Replay(log).value.store == LiveStore(log)
              && Replay(log).value.pending == (if Last(log).Some? && Last(log).value.Phase1?() then Last(log) else None)
  {
    if log == [] {
      assert log[..0] == [];
    } else {
      var before := log[..|log| - 1];
      RebuildIsLive(before);
      assert log[..|log|] == log;
      assert forall n :: 0 <= n <= |before| ==> before[..n] == log[..n];
    }
  }

  /** A foreign message between the vote and the COMMIT breaks the agreement: the live slave then
      ignores the COMMIT, but rebuilding applies it. */
  lemma ForeignMessageDiverges()
    ensures exists log: seq<Msg> :: Replay(log).Some? && Replay(log).value.store != LiveStore(log)
  {
    var put := Put(Some([107]), Some([118]));
    var log := [put, Other, Commit];
    var voted, foreign := [put], [put, Other];
    assert voted[..0] == [] && foreign[..1] == voted && log[..2] == foreign;
    assert LiveStore(voted) == LiveStep(LiveStore([]), None, put) == map[];
    assert LiveStore(foreign) == LiveStep(LiveStore(voted), Some(put), Other) == map[];
    assert LiveStore(log) == LiveStep(LiveStore(foreign), Some(Other), Commit) == map[];
    assert Replay(voted) == ReplayEntry(Replayed(map[], [], None), put);
    assert Replay(foreign) == ReplayEntry(Replay(voted).value, Other);
    assert Replay(log) == ReplayEntry(Replay(foreign).value, Commit);
    assert [107] in Replay(log).value.store;
  }

  /** The last entry that is not foreign: all that replay goes by. */
  function LastReal(log: seq<Msg>): Option<Msg> {
    if log == [] then None
    else if log[|log| - 1].Other? then LastReal(log[..|log| - 1])
    else Last(log)
  }

  /** A foreign message hides a pending vote from the message handler. */
  predicate HiddenVote(log: seq<Msg>) {
    log != [] && log[|log| - 1].Other? && LastReal(log).Some? && LastReal(log).value.Phase1?()
  }

  function LiveApplied(log: seq<Msg>): seq<Msg> {
    if log == [] then []
    else
      var before := log[..|log| - 1];
      var last := Last(before);
      LiveApplied(before) +
      if log[|log| - 1].Commit? && last.Some? && last.value.Phase1?() && Accepts(LiveStore(before), last.value)
      then [last.value] else []
  }

  ghost predicate RefusedBefore(log: seq<Msg>, n: nat)
    requires n <= |log|
  {
    exists k :: 0 <= k <= n && RefusedCommit(log[..k])
  }

  /** Rebuilding from log carries out what the live slave carried out, and fails exactly when the
      live slave had refused a COMMIT. */
  ghost predicate Agrees(log: seq<Msg>) {
    && (Replay(log).None? <==> RefusedBefore(log, |log|))
    && (Replay(log).Some? ==>
          Replay(log).value.store == LiveStore(log) && Replay(log).value.applied == LiveApplied(log))
  }

  ghost predicate AllAgree(log: seq<Msg>) { forall n :: 0 <= n <= |log| ==> Agrees(log[..n]) }

  /** A COMMIT at n that reaches a slave whose vote is hidden, on a log that still replays. */
  ghost predicate HiddenCommit(log: seq<Msg>, n: nat)
    requires n < |log|
  {
    log[n].Commit? && HiddenVote(log[..n]) && !RefusedBefore(log, n)
  }

  lemma {:induction false} PendingIs(log: seq<Msg>)
    requires Replay(log).Some?
    ensures Replay(log).value.pending ==
            if LastReal(log).Some? && LastReal(log).value.Phase1?() then LastReal(log) else None
  {
    if log != [] {
      PendingIs(log[..|log| - 1]);
    }
  }

  lemma RefusedPrefix(log: seq<Msg>, n: nat)
    requires n <= |log|
    ensures RefusedBefore(log[..n], n) <==> RefusedBefore(log, n)
  {
    assert forall k :: 0 <= k <= n ==> log[..n][..k] == log[..k];
  }

  lemma RefusedLast(log: seq<Msg>)
    requires log != []
    ensures RefusedBefore(log, |log|) <==> RefusedBefore(log[..|log| - 1], |log| - 1) || RefusedCommit(log)
  {
    RefusedPrefix(log, |log| - 1);
    assert log[..|log|] == log;
    assert RefusedCommit(log) ==> RefusedCommit(log[..|log|]);
  }

  /** After a log that agrees, one more entry agrees unless it is a COMMIT on a hidden vote. */
  lemma AgreesStep(log: seq<Msg>)
    requires log != [] && Agrees(log[..|log| - 1])
    ensures Agrees(log) <==> !HiddenCommit(log, |log| - 1)
  {
    var before := log[..|log| - 1];
    RefusedLast(log);
    RefusedPrefix(log, |log| - 1);
    if Replay(before).Some? {
      PendingIs(before);
    }
  }

  /** Live slave and rebuilt slave agree at every point of a history if and only if no COMMIT
      arrives while a foreign message hides the vote it belongs to. */
  lemma {:induction false} RebuildIsLiveIff(log: seq<Msg>)
    ensures AllAgree(log) <==> forall n :: 0 <= n < |log| ==> !HiddenCommit(log, n)
  {
    if log == [] {
      assert log[..0] == [];
    } else {
      var before := log[..|log| - 1];
      RebuildIsLiveIff(before);
      AgreementSplits(log);
      if AllAgree(before) {
        assert before[..|before|] == before;
        AgreesStep(log);
      }
    }
  }

  lemma AgreementSplits(log: seq<Msg>)
    requires log != []
    ensures var before := log[..|log| - 1];
            && (AllAgree(log) <==> AllAgree(before) && Agrees(log))
            && forall n :: 0 <= n < |before| ==> (HiddenCommit(before, n) <==> HiddenCommit(log, n))
  {
    var before := log[..|log| - 1];
    assert log[..|log|] == log;
    assert forall n :: 0 <= n <= |before| ==> before[..n] == log[..n];
    forall n | 0 <= n < |before|
      ensures HiddenCommit(before, n) <==> HiddenCommit(log, n)
    {
      RefusedPrefix(before, n);
      RefusedPrefix(log, n);
    }
  }

  /** Votes of phase 1. */
  function Vote(store: Store, m: Msg): Reply
    requires m.Phase1?()
  {
    if m.key.None? || |m.key.value| > MAX_KEY_SIZE then Aborted
    else if m.Del? && m.key.value !in store then Aborted
    else Ready
  }

  /** Requests whose key and value KVServer would accept. */
  predicate ValidRequest(op: Msg) {
    match op
    case Put(k, v) => ValidKey(k) && v.Some? && 0 < |v.value| <= MAX_VAL_SIZE
    case Del(k) => ValidKey(k)
    case _ => false
  }

  /** Requests that phase 1 always votes down: a null or oversized key, or deleting the empty key. */
  predicate NeverReady(op: Msg)
    requires op.Phase1?()
  {
    op.key.None? || |op.key.value| > MAX_KEY_SIZE || (op.Del? && op.key.value == [])
  }

  /** A READY vote is a promise that the server will carry the operation out, for every store
      without an empty key, exactly when the request is a valid one. */
  lemma ReadyKeepsPromiseIff(op: Msg)
    requires op.Phase1?()
    ensures (forall store: Store :: [] !in store && Vote(store, op).Ready? ==> Accepts(store, op))
            <==> ValidRequest(op) || NeverReady(op)
  {
    var empty: Store := map[];
    if op.Put? && op.key.Some? && |op.key.value| <= MAX_KEY_SIZE && !ValidRequest(op) {
      assert Vote(empty, op).Ready? && !Accepts(empty, op);
    }
    if op.Del? && op.key.Some? && op.key.value == [] {
      assert |op.key.value| == 0;
    }
  }

  /** For a valid request the vote is READY exactly when the server would carry the request out now. */
  lemma VoteIsAcceptance(store: Store, op: Msg)
    requires ValidRequest(op)
    ensures Vote(store, op) == if Accepts(store, op) then Ready else Aborted
  {
  }

  /** For any request at all: READY if and only if its key is not null and has at most 256 units and,
      for a delete, is in the store.  What a Put would overwrite and its value do not matter. */
  lemma VoteIff(store: Store, op: Msg)
    requires op.Phase1?()
    ensures Vote(store, op).Ready? || Vote(store, op).Aborted?
    ensures Vote(store, op).Ready? <==>
            op.key.Some? && |op.key.value| <= 256 && (op.Del? ==> op.key.value in store)
  {
  }

  /** Committing a Put that phase 1 let through although the server refuses it leaves a log from
      which no slave can be rebuilt. */
  lemma UnkeptPromiseBlocksRebuild(op: Msg)
    requires op.Phase1?() && Vote(map[], op).Ready? && !Accepts(map[], op)
    ensures Replay([op, Commit]).None?
  {
    assert [op, Commit][..1] == [op] && [op][..0] == [];
    assert Replay([op]) == Some(Replayed(map[], [], Some(op)));
  }

  predicate RefusedBy(store: Store, last: Msg) { last.Phase1?() && !Accepts(store, last) }

  /** The handler's answer, given the last entry before the message; None when it dies on a null
      entry. */
  function Response(store: Store, last: Option<Msg>, m: Msg): Option<Reply> {
    match m
    case Put(_, _) => Some(Vote(store, m))
    case Del(_) => Some(Vote(store, m))
    case Commit => if last.None? then None else Some(if RefusedBy(store, last.value) then Aborted else Ack)
    case Abort => Some(Ack)
    case Other => Some(Resp)
  }

  /** TPCLog and MasterHandler of one slave. */
  class Slave {
    var entries: seq<Msg>
    var disk: seq<Msg>
    var store: Store

    /** A slave that starts on the log left on disk, or nothing if rebuilding threw. */
    constructor (left: seq<Msg>)
      ensures entries == disk == left
      ensures Replay(left).Some? ==> store == Replay(left).value.store
    {
      entries, disk := left, left;
      store := map[];
      new;
      var ok := RebuildServer();
    }

    /** After it the whole log is on disk with the entry last, so a slave restarted there replays
        one entry more than one restarted on the old log. */
    method AppendAndFlush(m: Msg)
      modifies this`entries, this`disk
      ensures entries == old(entries) + [m] && disk == entries
      ensures Last(disk) == Some(m)
      ensures Replay(disk) == if Replay(old(entries)).None? then None else ReplayEntry(Replay(old(entries)).value, m)
    {
      ReplayAppend(entries, m);
      entries := entries + [m];
      FlushToDisk();
    }

    method FlushToDisk()
      modifies this`disk
      ensures disk == entries
    {
      disk := entries;
    }

    /** `rebuildServer` on an empty server: false stands for the KVException it passes on. */
    method RebuildServer() returns (ok: bool)
      requires store == map[]
      modifies this`store
      ensures ok <==> Replay(entries).Some?
      ensures ok ==> store == Replay(entries).value.store
    {
      var phase1Entry: Option<Msg> := None;
      ghost var applied: seq<Msg> := [];
      var i := 0;
      while i < |entries|
        invariant 0 <= i <= |entries|
        invariant Replay(entries[..i]) == Some(Replayed(store, applied, phase1Entry))
      {
        var curr := entries[i];
        assert entries[..i + 1] == entries[..i] + [curr];
        ReplayAppend(entries[..i], curr);
        if curr.Phase1?() {
          phase1Entry := Some(curr);
        } else if curr.Commit? && phase1Entry.Some? {
          if !Accepts(store, phase1Entry.value) {
            ReplayStaysFailed(entries, i + 1);
            return false;
          }
          store := Apply(store, phase1Entry.value);
          applied := applied + [phase1Entry.value];
          phase1Entry := None;
        } else if curr.Abort? {
          phase1Entry := None;
        }
        i := i + 1;
      }
      assert entries[..|entries|] == entries;
      ok := true;
    }

    /** `MasterHandler.run` for a message other than GET; None when the handler dies on a null
        log entry without answering. */
    method Handle(request: Msg) returns (response: Option<Reply>)
      modifies this
      ensures entries == disk == old(entries) + [request]
      ensures store == LiveStep(old(store), Last(old(entries)), request)
      ensures response == Response(old(store), Last(old(entries)), request)
      ensures request.Phase1?() ==>
                response == Some(if && request.key.Some? && |request.key.value| <= 256
                                    && (request.Del? ==> request.key.value in old(store)) then Ready else Aborted)
      ensures request.Commit? ==>
                && (response.None? <==> old(entries) == [])
                && (response == Some(Ack) <==>
                    Last(old(entries)).Some? &&
                    (Last(old(entries)).value.Phase1?() ==> Accepts(old(store), Last(old(entries)).value)))
      ensures request.Abort? ==> response == Some(Ack) && store == old(store)
    {
      var phase1 := Last(entries);
      AppendAndFlush(request);
      match request
      case Put(k, v) =>
        response := Some(if k.None? || |k.value| > 256 then Aborted else Ready);
      case Del(k) =>
        if k.None? || |k.value| > 256 {
          response := Some(Aborted);
        } else if k.value !in store {
          response := Some(Aborted);
        } else {
          response := Some(Ready);
        }
      case Commit =>
        if phase1.None? {
          return None;
        }
        if phase1.value.Phase1?() {
          if !Accepts(store, phase1.value) {
            return Some(Aborted);
          }
          store := Apply(store, phase1.value);
        }
        response := Some(Ack);
      case Abort =>
        response := Some(Ack);
      case Other =>
        response := Some(Resp);
    }
  }


  lemma {:induction false} ReplayStaysFailed(log: seq<Msg>, n: nat)
    requires n <= |log| && Replay(log[..n]).None?
    ensures Replay(log).None?
    decreases |log|
  {
    if n == |log| {
      assert log[..n] == log;
    } else {
      assert log[..|log| - 1][..n] == log[..n];
      ReplayStaysFailed(log[..|log| - 1], n);
    }
  }
}

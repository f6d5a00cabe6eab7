/** The session store and its operations (libmhtml/session.c). */
module Sessions {
  import opened Options

  /** What is stored under a session identifier. Times are seconds, the timeout is minutes. */
  datatype Info = Info(key: string, start: int, access: int, timeout: int, data: string)

  type Store = map<string, Info>

  /** `SESSION_TIMEOUT`. */
  const DEFAULT_TIMEOUT := 61

  /** The session has been idle for its timeout; one with timeout 0 never is. */
  predicate Expired(info: Info, now: int) {
    info.timeout != 0 && now - info.access >= info.timeout * 60
  }

  // ---------------------------------------------------------------- what each operation does

  /** One call. The caller's clock and the identifier that `session_create_sid` makes up are part
      of the call; `Begin` may reap at a later time than it stores. */
  datatype Op = Begin(key: string, allowMultiple: bool, newSid: string, reapAt: int)
              | Access(sid: string)
              | Get(sid: string)
              | Put(sid: string, timeout: int, start: int, data: string)
              | Restore(sid: string, info: Info)
              | End(sid: string)
              | Find(key: string)
              | Reap

  datatype Call = Call(op: Op, now: int)

  function Live(db: Store, now: int): Store {
    map sid | sid in db && !Expired(db[sid], now) :: db[sid]
  }

  predicate HasKey(db: Store, key: string) {
    exists sid :: sid in db && db[sid].key == key
  }

  /** The store after a call; `reaping` is the flag of the same name. */
  function After(db: Store, call: Call, reaping: bool): Store {
    match call.op
    case Begin(key, allowMultiple, newSid, reapAt) =>
      var db' := if allowMultiple || !HasKey(db, key)
                 then db[newSid := Info(key, call.now, call.now, DEFAULT_TIMEOUT, "")] else db;
      if reaping then Live(db', reapAt) else db'
    case Access(sid) => if sid in db && Expired(db[sid], call.now) then db - {sid} else db
    case Get(sid) => if sid in db && Expired(db[sid], call.now) then db - {sid} else db
    case Put(sid, timeout, start, data) =>
      if sid in db then db[sid := Info(db[sid].key, start, call.now, timeout, data)] else db
    case Restore(sid, info) => db[sid := (if sid in db then db[sid] else info).(access := call.now)]
    case End(sid) => db - {sid}
    case Find(_) => db
    case Reap => if reaping then Live(db, call.now) else db
  }

  function Run(db: Store, calls: seq<Call>, reaping: bool): Store
    decreases |calls|
  {
    if calls == [] then db else Run(After(db, calls[0], reaping), calls[1..], reaping)
  }

  /** The session `session_get_info` answers. */
  function Lookup(db: Store, sid: string, now: int): Option<Info> {
    if sid in db && !Expired(db[sid], now) then Some(db[sid]) else None
  }

  // ---------------------------------------------------------------- how long a session lives

  /** The clock of a run starts at `from`, never goes back, and is at most `to`. */
  predicate Clocked(calls: seq<Call>, from: int, to: int)
    decreases |calls|
  {
    if calls == [] then from <= to
    else
      var last := if calls[0].op.Begin? then calls[0].op.reapAt else calls[0].now;
      from <= calls[0].now <= last && Clocked(calls[1..], last, to)
  }

  lemma ClockedBounds(calls: seq<Call>, from: int, to: int)
    requires Clocked(calls, from, to)
    ensures from <= to
    decreases |calls|
  {
    if calls != [] {
      ClockedBounds(calls[1..], if calls[0].op.Begin? then calls[0].op.reapAt else calls[0].now, to);
    }
  }

  /** The call writes or ends the session `sid`. */
  predicate Names(op: Op, sid: string) {
    match op
    case Begin(_, _, newSid, _) => newSid == sid
    case Put(s, _, _, _) => s == sid
    case Restore(s, _) => s == sid
    case End(s) => s == sid
    case _ => false
  }

  predicate Untouched(calls: seq<Call>, sid: string) {
    forall k :: 0 <= k < |calls| ==> !Names(calls[k].op, sid)
  }

  /** The session is as it was, or gone because its time was up by `now`. */
  predicate Lasting(db: Store, sid: string, info: Info, now: int) {
    if sid in db then db[sid] == info else Expired(info, now)
  }

  lemma LastingStep(db: Store, call: Call, reaping: bool, sid: string, info: Info)
    requires !Names(call.op, sid) && Lasting(db, sid, info, call.now)
    requires call.op.Begin? ==> call.now <= call.op.reapAt
    ensures Lasting(After(db, call, reaping), sid, info, if call.op.Begin? then call.op.reapAt else call.now)
  {
  }

  lemma {:induction false} LastingRun(db: Store, calls: seq<Call>, reaping: bool, sid: string, info: Info, from: int,
                                         to: int)
    requires Untouched(calls, sid) && Clocked(calls, from, to) && Lasting(db, sid, info, from)
    ensures Lasting(Run(db, calls, reaping), sid, info, to)
    decreases |calls|
  {
    ClockedBounds(calls, from, to);
    if calls != [] {
      var call := calls[0];
      LastingStep(db, call, reaping, sid, info);
      LastingRun(After(db, call, reaping), calls[1..], reaping, sid, info,
                 if call.op.Begin? then call.op.reapAt else call.now, to);
    }
  }

  /** A session last written at `t` is answered at every time before its timeout is over and never
      from then on, whatever lookups, accesses, reaps and calls for other sessions come between; one
      with timeout 0 is answered until it is ended. */
  lemma SessionLifetime(db: Store, sid: string, calls: seq<Call>, reaping: bool, now: int)
    requires sid in db && Untouched(calls, sid) && Clocked(calls, db[sid].access, now)
    ensures var info := db[sid];
            Lookup(Run(db, calls, reaping), sid, now) ==
            if info.timeout == 0 || now < info.access + 60 * info.timeout then Some(info) else None
  {
    LastingRun(db, calls, reaping, sid, db[sid], db[sid].access, now);
  }

  // ---------------------------------------------------------------- what the calls store

  /** What a session is answered as at `now`, if `info` is what was last stored. */
  function Answered(info: Info, now: int): Option<Info> {
    if info.timeout == 0 || now < info.access + 60 * info.timeout then Some(info) else None
  }

  /** A run after one call. */
  function RunAfter(db: Store, op: Op, t: int, calls: seq<Call>, reaping: bool): Store {
    Run(db, [Call(op, t)] + calls, reaping)
  }

  lemma LastsFrom(db: Store, op: Op, t: int, calls: seq<Call>, reaping: bool, sid: string, info: Info, now: int)
    requires var last := if op.Begin? then op.reapAt else t;
             Lasting(After(db, Call(op, t), reaping), sid, info, last) && Clocked(calls, last, now)
    requires Untouched(calls, sid)
    ensures Lookup(RunAfter(db, op, t, calls, reaping), sid, now) == Answered(info, now)
  {
    var call := Call(op, t);
    assert ([call] + calls)[1..] == calls;
    LastingRun(After(db, call, reaping), calls, reaping, sid, info, if op.Begin? then op.reapAt else t, now);
  }

  /** `session_put_info` stores what it is given, with the key the session was begun with, and counts as the last
      write: the session is answered as that, until its timeout after the call is over. */
  lemma PutIsAnswered(db: Store, sid: string, timeout: int, start: int, data: string, t: int, calls: seq<Call>,
                      reaping: bool, now: int)
    requires sid in db && Untouched(calls, sid) && Clocked(calls, t, now)
    ensures Lookup(RunAfter(db, Put(sid, timeout, start, data), t, calls, reaping), sid, now) ==
            if timeout == 0 || now < t + 60 * timeout then Some(Info(db[sid].key, start, t, timeout, data)) else None
  {
    var info := Info(db[sid].key, start, t, timeout, data);
    LastsFrom(db, Put(sid, timeout, start, data), t, calls, reaping, sid, info, now);
  }

  /** A session that does not exist is not made by `session_put_info`. */
  lemma PutMakesNothing(db: Store, sid: string, timeout: int, start: int, data: string, t: int, reaping: bool)
    requires sid !in db
    ensures After(db, Call(Put(sid, timeout, start, data), t), reaping) == db
  {
  }

  /** `session_begin` stores a session without data that times out after 61 minutes, unless a session with the key
      exists and only one is allowed: then nothing is stored. */
  lemma BegunIsAnswered(db: Store, key: string, allowMultiple: bool, sid: string, t: int, reapAt: int,
                        calls: seq<Call>, reaping: bool, now: int)
    requires t <= reapAt && Untouched(calls, sid) && Clocked(calls, reapAt, now)
    ensures Lookup(RunAfter(db, Begin(key, allowMultiple, sid, reapAt), t, calls, reaping), sid, now) ==
            if allowMultiple || forall other :: other in db ==> db[other].key != key then
              if now < t + 3660 then Some(Info(key, t, t, 61, "")) else None
            else Lookup(db, sid, now)
  {
    var op := Begin(key, allowMultiple, sid, reapAt);
    if allowMultiple || forall other :: other in db ==> db[other].key != key {
      LastsFrom(db, op, t, calls, reaping, sid, Info(key, t, t, 61, ""), now);
    } else {
      ClockedBounds(calls, reapAt, now);
      var db' := After(db, Call(op, t), reaping);
      assert ([Call(op, t)] + calls)[1..] == calls;
      OthersAreAnswered(db', calls, reaping, sid, reapAt, now);
    }
  }

  /** `session_restore` stores the session that exists, or the one given, as accessed at that time. */
  lemma RestoredIsAnswered(db: Store, sid: string, info: Info, t: int, calls: seq<Call>, reaping: bool, now: int)
    requires Untouched(calls, sid) && Clocked(calls, t, now)
    ensures var kept := if sid in db then db[sid] else info;
            Lookup(RunAfter(db, Restore(sid, info), t, calls, reaping), sid, now) ==
            if kept.timeout == 0 || now < t + 60 * kept.timeout
            then Some(Info(kept.key, kept.start, t, kept.timeout, kept.data)) else None
  {
    var kept := if sid in db then db[sid] else info;
    var stored := Info(kept.key, kept.start, t, kept.timeout, kept.data);
    LastsFrom(db, Restore(sid, info), t, calls, reaping, sid, stored, now);
  }

  /** An ended session is not answered again until it is begun or restored. */
  lemma EndedIsNotAnswered(db: Store, sid: string, t: int, calls: seq<Call>, reaping: bool, now: int)
    requires Untouched(calls, sid) && Clocked(calls, t, now)
    ensures Lookup(RunAfter(db, End(sid), t, calls, reaping), sid, now) == None
  {
    var db' := After(db, Call(End(sid), t), reaping);
    assert ([Call(End(sid), t)] + calls)[1..] == calls;
    OthersAreAnswered(db', calls, reaping, sid, t, now);
  }

  lemma OtherStep(db: Store, call: Call, reaping: bool, sid: string, now: int)
    requires !Names(call.op, sid) && call.now <= now && (call.op.Begin? ==> call.op.reapAt <= now)
    ensures Lookup(After(db, call, reaping), sid, now) == Lookup(db, sid, now)
  {
  }

  /** No call changes how another session is answered. */
  lemma {:induction false} OthersAreAnswered(db: Store, calls: seq<Call>, reaping: bool, sid: string, from: int,
                                              now: int)
    requires Untouched(calls, sid) && Clocked(calls, from, now)
    ensures Lookup(Run(db, calls, reaping), sid, now) == Lookup(db, sid, now)
    decreases |calls|
  {
    if calls != [] {
      var last := if calls[0].op.Begin? then calls[0].op.reapAt else calls[0].now;
      ClockedBounds(calls[1..], last, now);
      OtherStep(db, calls[0], reaping, sid, now);
      OthersAreAnswered(After(db, calls[0], reaping), calls[1..], reaping, sid, last, now);
    }
  }

  /** Accessing a session or looking it up deletes it exactly if its timeout is over, and nothing else. */
  lemma AccessDeletesExactly(db: Store, sid: string, other: string, now: int, reaping: bool, op: Op)
    requires op in {Access(sid), Get(sid)}
    ensures var after := After(db, Call(op, now), reaping);
            && (sid in after <==> sid in db && (db[sid].timeout == 0 || now < db[sid].access + 60 * db[sid].timeout))
            && (sid in after ==> after[sid] == db[sid])
            && (other != sid ==> (other in after <==> other in db) && (other in after ==> after[other] == db[other]))
  {
  }

  /** Reaping deletes a session exactly if its timeout is over, and only while it is turned on. */
  lemma ReapedExactly(db: Store, sid: string, now: int, reaping: bool)
    ensures var after := After(db, Call(Reap, now), reaping);
            && (sid in after <==>
                  sid in db && (reaping ==> db[sid].timeout == 0 || now < db[sid].access + 60 * db[sid].timeout))
            && (sid in after ==> after[sid] == db[sid])
  {
  }

  /** Looking a session up, or accessing it, does not prolong its life: the refreshed access time
      stays in a copy that is thrown away. */
  lemma AccessDoesNotProlong(db: Store, sid: string, now: int, later: int, reaping: bool)
    requires now <= later
    ensures forall op :: op in {Access(sid), Get(sid)} ==>
              Lookup(After(db, Call(op, now), reaping), sid, later)
              == if sid in db && Expired(db[sid], now) then None else Lookup(db, sid, later)
  {
  }

  /** The refresh that is documented would make an access at `now` count as the last one. For a live
      session that holds of what is answered later if and only if nothing had to be refreshed. */
  lemma AccessRefreshesExactly(db: Store, sid: string, now: int, reaping: bool)
    requires sid in db && !Expired(db[sid], now) && db[sid].timeout >= 0
    ensures var timeout, after := db[sid].timeout, After(db, Call(Access(sid), now), reaping);
            (forall later :: now <= later ==>
               (Lookup(after, sid, later).Some? <==> timeout == 0 || later < now + 60 * timeout))
            <==> timeout == 0 || db[sid].access == now
  {
    var timeout, after := db[sid].timeout, After(db, Call(Access(sid), now), reaping);
    if timeout != 0 && db[sid].access != now {
      var later := if db[sid].access < now then now + 60 * timeout - 1 else now + 60 * timeout;
      assert Lookup(after, sid, later).Some? <==> later < db[sid].access + 60 * timeout;
    }
  }

  /** A session accessed one second before its time is up is gone a second later. */
  lemma AccessedJustInTime(db: Store, sid: string, reaping: bool)
    requires sid in db && db[sid].timeout > 0
    ensures var now := db[sid].access + 60 * db[sid].timeout - 1;
            var after := After(db, Call(Access(sid), now), reaping);
            Lookup(db, sid, now).Some? && Lookup(after, sid, now).Some? && Lookup(after, sid, now + 1).None?
  {
  }

  // ---------------------------------------------------------------- one session for each key

  predicate UniqueKeys(db: Store) {
    forall a, b :: a in db && b in db && db[a].key == db[b].key ==> a == b
  }

  /** Calls that can keep keys unique: no session is begun with multiples allowed, none restored. */
  predicate Ordinary(op: Op) {
    !op.Restore? && (op.Begin? ==> !op.allowMultiple)
  }

  lemma {:induction false} KeysStayUnique(db: Store, calls: seq<Call>, reaping: bool)
    requires UniqueKeys(db) && forall k :: 0 <= k < |calls| ==> Ordinary(calls[k].op)
    ensures UniqueKeys(Run(db, calls, reaping))
    decreases |calls|
  {
    if calls != [] {
      assert Ordinary(calls[0].op);
      KeysStayUniqueStep(db, calls[0], reaping);
      KeysStayUnique(After(db, calls[0], reaping), calls[1..], reaping);
    }
  }

  /** Even when the identifier made up for a new session is already in use. */
  lemma KeysStayUniqueStep(db: Store, call: Call, reaping: bool)
    requires UniqueKeys(db) && Ordinary(call.op)
    ensures UniqueKeys(After(db, call, reaping))
  {
    if call.op.Begin? && !HasKey(db, call.op.key) {
      assert forall sid :: sid in db ==> db[sid].key != call.op.key;
    }
  }

  // ---------------------------------------------------------------- the database and fetched records

  /** A record fetched from the database. It is released exactly once, and not used after that. */
  class Record {
    const sid: string
    const info: Info
    ghost var released: bool

    constructor (sid: string, info: Info)
      ensures this.sid == sid && this.info == info && !released
    {
      this.sid, this.info, released := sid, info, false;
    }

    /** `session_free`. */
    method Free()
      requires !released
      modifies this
      ensures released
    {
      released := true;
    }
  }

  predicate Enumerates(order: seq<string>, db: Store) {
    && (forall k :: 0 <= k < |order| ==> order[k] in db)
    && (forall sid :: sid in db ==> sid in order)
    && forall j, k :: 0 <= j < k < |order| ==> order[j] != order[k]
  }

  /** The database behind the store. Its keys come in some order that lasts until it is changed;
      `version` counts the changes. */
  class Database {
    var entries: Store
    var order: seq<string>
    ghost var version: nat

    ghost predicate Valid()
      reads this
    {
      Enumerates(order, entries)
    }

    /** The key after `sid`, or the first one. An iteration is over when the database changes. */
    method NextKey(sid: Option<string>, ghost begun: nat) returns (next: Option<string>)
      requires Valid() && begun == version && (sid.Some? ==> sid.value in order)
      ensures var k := if sid.None? then 0 else Position(order, sid.value) + 1;
              next == if k < |order| then Some(order[k]) else None
    {
      var k := 0;
      if sid.Some? {
        while order[k] != sid.value
          invariant 0 <= k < |order| && Position(order, sid.value) >= k
          decreases |order| - k
        {
          k := k + 1;
        }
        k := k + 1;
      }
      next := if k < |order| then Some(order[k]) else None;
    }

    method Fetch(sid: string) returns (info: Option<Info>)
      ensures info == if sid in entries then Some(entries[sid]) else None
    {
      info := if sid in entries then Some(entries[sid]) else None;
    }

    method Put(sid: string, info: Info)
      requires Valid()
      modifies this
      ensures Valid() && entries == old(entries)[sid := info] && version == old(version) + 1
    {
      if sid !in entries {
        order := order + [sid];
      }
      entries := entries[sid := info];
      version := version + 1;
    }

    method Delete(sid: string)
      requires Valid()
      modifies this
      ensures Valid() && entries == old(entries) - {sid} && version == old(version) + 1
    {
      if sid in entries {
        var k := 0;
        while order[k] != sid
          invariant 0 <= k < |order| && sid in order[k..]
          decreases |order| - k
        {
          k := k + 1;
        }
        RemoveKey(order, entries, k);
        order := order[..k] + order[k + 1..];
      }
      entries := entries - {sid};
      version := version + 1;
    }
  }

  function Position(order: seq<string>, sid: string): (k: nat)
    requires sid in order
    ensures k < |order| && order[k] == sid
  {
    if order[0] == sid then 0 else 1 + Position(order[1..], sid)
  }

  lemma RemoveKey(order: seq<string>, db: Store, k: nat)
    requires Enumerates(order, db) && k < |order|
    ensures Enumerates(order[..k] + order[k + 1..], db - {order[k]})
  {
    var rest := order[..k] + order[k + 1..];
    KeyRemoved(order, k);
    forall sid | sid in db && sid != order[k] ensures sid in rest {
      var j :| 0 <= j < |order| && order[j] == sid;
      assert rest[if j < k then j else j - 1] == sid;
    }
  }

  lemma KeyRemoved(order: seq<string>, k: nat)
    requires k < |order| && forall i, j :: 0 <= i < j < |order| ==> order[i] != order[j]
    ensures var rest := order[..k] + order[k + 1..];
            && (forall j :: 0 <= j < |rest| ==> rest[j] == order[if j < k then j else j + 1] && rest[j] != order[k])
            && forall i, j :: 0 <= i < j < |rest| ==> rest[i] != rest[j]
  {
  }

  // ---------------------------------------------------------------- the reaper

  /** `session_sequential_access`: the record after `initial`, or the first one. */
  method SequentialAccess(db: Database, initial: Record?, ghost begun: nat) returns (info: Record?)
    requires db.Valid() && begun == db.version
    requires initial != null ==> !initial.released && initial.sid in db.order
    ensures var k := if initial == null then 0 else Position(db.order, initial.sid) + 1;
            if k < |db.order| then
              info != null && fresh(info) && !info.released
              && info.sid == db.order[k] && info.info == db.entries[db.order[k]]
            else info == null
  {
    var key := db.NextKey(if initial == null then None else Some(initial.sid), begun);
    info := null;
    if key.Some? {
      var content := db.Fetch(key.value);
      if content.Some? {
        info := new Record(key.value, content.value);
      }
    }
  }

  lemma {:induction false} PositionIs(order: seq<string>, k: nat)
    requires k < |order| && forall i, j :: 0 <= i < j < |order| ==> order[i] != order[j]
    ensures Position(order, order[k]) == k
    decreases k
  {
    if k > 0 {
      assert order[1..][k - 1] == order[k];
      PositionIs(order[1..], k - 1);
    }
  }

  /** Among the first `n` keys, the positions of those whose time is up. */
  function Due(order: seq<string>, db: Store, n: nat, now: int): (due: seq<nat>)
    requires n <= |order| && forall k :: 0 <= k < |order| ==> order[k] in db
    ensures |due| <= n && forall j :: 0 <= j < |due| ==> due[j] < n
  {
    if n == 0 then [] else Due(order, db, n - 1, now) + if Expired(db[order[n - 1]], now) then [n - 1] else []
  }

  lemma {:induction false} DueIs(order: seq<string>, db: Store, n: nat, now: int)
    requires n <= |order| && forall k :: 0 <= k < |order| ==> order[k] in db
    ensures forall i, j :: 0 <= i < j < |Due(order, db, n, now)| ==>
            Due(order, db, n, now)[i] < Due(order, db, n, now)[j]
    ensures forall j :: 0 <= j < |Due(order, db, n, now)| ==> Expired(db[order[Due(order, db, n, now)[j]]], now)
    decreases n
  {
    hide Expired;
    if n > 0 {
      DueIs(order, db, n - 1, now);
      var shorter, due := Due(order, db, n - 1, now), Due(order, db, n, now);
      assert |shorter| <= |due| <= |shorter| + 1;
      forall j | 0 <= j < |due|
        ensures if j < |shorter| then due[j] == shorter[j] else due[j] == n - 1 && Expired(db[order[n - 1]], now) {
      }
    }
  }

  lemma {:induction false} DueHas(order: seq<string>, db: Store, n: nat, now: int, k: nat)
    requires k < n <= |order| && forall k :: 0 <= k < |order| ==> order[k] in db
    requires Expired(db[order[k]], now)
    ensures k in Due(order, db, n, now)
    decreases n
  {
    hide Expired;
    if k < n - 1 {
      DueHas(order, db, n - 1, now, k);
    }
  }

  /** `rs` are records of the first keys of the database, in order. */
  ghost predicate RecordsOf(rs: seq<Record>, order: seq<string>, db: Store) {
    && |rs| <= |order|
    && forall j :: 0 <= j < |rs| ==> rs[j].sid == order[j] && order[j] in db && rs[j].info == db[order[j]]
  }

  /** `picked` are the records at the positions `at`. */
  ghost predicate Picks(picked: seq<Record>, rs: seq<Record>, at: seq<nat>) {
    |picked| == |at| && forall j :: 0 <= j < |at| ==> at[j] < |rs| && picked[j] == rs[at[j]]
  }

  /** The test of the first pass. */
  method IsDue(info: Record, now: int) returns (due: bool)
    ensures due == Expired(info.info, now)
  {
    due := false;
    if info.info.timeout != 0 {
      var secondsUnaccessed := now - info.info.access;
      if secondsUnaccessed >= info.info.timeout * 60 {
        due := true;
      }
    }
  }

  /** Where the first pass stands after reading the records `fetched`: those that stay have been
      released, except for the last one. */
  ghost predicate Gathering(order: seq<string>, db: Store, fetched: seq<Record>, toBeReaped: seq<Record>,
                            info: Record?, freeIt: bool, now: int)
    requires forall k :: 0 <= k < |order| ==> order[k] in db
    reads fetched
  {
    && RecordsOf(fetched, order, db)
    && Picks(toBeReaped, fetched, Due(order, db, |fetched|, now))
    && (if fetched == [] then info == null && !freeIt
        else info == fetched[|fetched| - 1] && !info.released && freeIt == !Expired(info.info, now))
    && forall j :: 0 <= j < |fetched| - 1 ==> fetched[j].released == !Expired(fetched[j].info, now)
  }

  lemma GatheringStarts(order: seq<string>, db: Store, now: int)
    requires forall k :: 0 <= k < |order| ==> order[k] in db
    ensures Gathering(order, db, [], [], null, false, now)
  {
  }

  lemma LastIsGathered(order: seq<string>, db: Store, fetched: seq<Record>, toBeReaped: seq<Record>, info: Record?,
                       freeIt: bool, now: int)
    requires forall k :: 0 <= k < |order| ==> order[k] in db
    requires Gathering(order, db, fetched, toBeReaped, info, freeIt, now)
    ensures |fetched| <= |order|
    ensures if fetched == [] then info == null && !freeIt
            else info == fetched[|fetched| - 1] && !info.released && info.sid == order[|fetched| - 1]
  {
  }

  lemma PicksGrow(order: seq<string>, db: Store, fetched: seq<Record>, toBeReaped: seq<Record>, r: Record, now: int)
    requires |fetched| < |order| && forall k :: 0 <= k < |order| ==> order[k] in db
    requires r.info == db[order[|fetched|]] && Picks(toBeReaped, fetched, Due(order, db, |fetched|, now))
    ensures Picks(toBeReaped + if Expired(r.info, now) then [r] else [], fetched + [r],
                  Due(order, db, |fetched| + 1, now))
  {
    hide Expired;
  }

  /** One turn of the first pass, for the record `newinfo` just read. */
  method GatherOne(order: seq<string>, db: Store, info: Record?, newinfo: Record, toBeReaped: seq<Record>, freeIt: bool,
                   now: int, ghost fetched: seq<Record>)
    returns (toBeReaped': seq<Record>, freeIt': bool)
    requires Enumerates(order, db) && Gathering(order, db, fetched, toBeReaped, info, freeIt, now)
    requires |fetched| < |order| && newinfo.sid == order[|fetched|] && newinfo.info == db[order[|fetched|]] &&
             !newinfo.released
    modifies if freeIt then {info} else {}
    ensures Gathering(order, db, fetched + [newinfo], toBeReaped', newinfo, freeIt', now)
  {
    hide Expired, Due, Picks;
    FetchedAreDistinct(fetched, order, db);
    PicksGrow(order, db, fetched, toBeReaped, newinfo, now);
    if freeIt {
      info.Free();
    }
    freeIt' := true;
    toBeReaped' := toBeReaped;
    var due := IsDue(newinfo, now);
    assert toBeReaped + [] == toBeReaped;
    if due {
      toBeReaped' := toBeReaped + [newinfo];
      freeIt' := false;
    }
  }

  /** The loop of the first pass: reads every record; only the last one may still be unreleased
      although it stays. */
  method ReadAll(db: Database, now: int)
    returns (toBeReaped: seq<Record>, info: Record?, freeIt: bool, ghost fetched: seq<Record>)
    requires db.Valid()
    ensures |fetched| == |db.order| && fresh(fetched)
    ensures Gathering(db.order, db.entries, fetched, toBeReaped, info, freeIt, now)
  {
    hide Due, Expired, Gathering, Position;
    ghost var begun := db.version;
    info, freeIt := null, false;
    toBeReaped, fetched := [], [];
    GatheringStarts(db.order, db.entries, now);
    var newinfo := SequentialAccess(db, info, begun);
    while newinfo != null
      invariant fresh(fetched) && Gathering(db.order, db.entries, fetched, toBeReaped, info, freeIt, now)
      invariant |fetched| <= |db.order| && (newinfo == null <==> |fetched| == |db.order|)
      invariant newinfo != null ==>
                  fresh(newinfo) && !newinfo.released && newinfo.sid == db.order[|fetched|] &&
                  newinfo.info == db.entries[newinfo.sid]
      decreases |db.order| - |fetched|
    {
      LastIsGathered(db.order, db.entries, fetched, toBeReaped, info, freeIt, now);
      toBeReaped, freeIt, newinfo, info := ReadNext(db, info, newinfo, toBeReaped, freeIt, now, fetched, begun);
      fetched := fetched + [info];
    }
  }

  /** One turn of that loop: the record `newinfo` is gathered, and the next one read. */
  method ReadNext(db: Database, info: Record?, newinfo: Record, toBeReaped: seq<Record>, freeIt: bool, now: int,
                  ghost fetched: seq<Record>, ghost begun: nat)
    returns (toBeReaped': seq<Record>, freeIt': bool, next: Record?, last: Record)
    requires db.Valid() && begun == db.version && |fetched| < |db.order| && !newinfo.released
    requires Gathering(db.order, db.entries, fetched, toBeReaped, info, freeIt, now)
    requires newinfo.sid == db.order[|fetched|] && newinfo.info == db.entries[newinfo.sid]
    modifies if freeIt then {info} else {}
    ensures last == newinfo && Gathering(db.order, db.entries, fetched + [newinfo], toBeReaped', newinfo, freeIt', now)
    ensures next == null <==> |fetched| + 1 == |db.order|
    ensures next != null ==>
              && fresh(next) && !next.released
              && next.sid == db.order[|fetched| + 1] && next.info == db.entries[next.sid]
  {
    hide Due, Expired, Gathering, Position;
    toBeReaped', freeIt' := GatherOne(db.order, db.entries, info, newinfo, toBeReaped, freeIt, now, fetched);
    last := newinfo;
    LastIsGathered(db.order, db.entries, fetched + [newinfo], toBeReaped', newinfo, freeIt', now);
    PositionIs(db.order, |fetched|);
    next := SequentialAccess(db, newinfo, begun);
  }

  /** The first pass of `generic_session_reaper`: reads every record, releases those that stay, and
      gathers those whose time is up. The database is not changed. */
  method GatherDue(db: Database, now: int) returns (toBeReaped: seq<Record>, ghost fetched: seq<Record>)
    requires db.Valid()
    ensures |fetched| == |db.order| && RecordsOf(fetched, db.order, db.entries)
    ensures fresh(fetched) && Picks(toBeReaped, fetched, Due(db.order, db.entries, |db.order|, now))
    ensures forall j :: 0 <= j < |fetched| ==> fetched[j].released == !Expired(fetched[j].info, now)
  {
    hide Due, Expired;
    var info, freeIt;
    toBeReaped, info, freeIt, fetched := ReadAll(db, now);
    FetchedAreDistinct(fetched, db.order, db.entries);
    if freeIt {
      info.Free();
    }
  }

  lemma FetchedAreDistinct(rs: seq<Record>, order: seq<string>, db: Store)
    requires RecordsOf(rs, order, db) && Enumerates(order, db)
    ensures forall j, k :: 0 <= j < k < |rs| ==> rs[j] != rs[k] && rs[j].sid != rs[k].sid
  {
  }

  ghost predicate Distinct(rs: seq<Record>) {
    forall j, k :: 0 <= j < k < |rs| ==> rs[j].sid != rs[k].sid
  }

  function SidsOf(rs: seq<Record>): set<string> {
    set j | 0 <= j < |rs| :: rs[j].sid
  }

  lemma SidsGrow(rs: seq<Record>, i: nat)
    requires i < |rs| && Distinct(rs)
    ensures rs[i].sid !in SidsOf(rs[..i]) && SidsOf(rs[..i + 1]) == SidsOf(rs[..i]) + {rs[i].sid}
  {
    var longer, shorter := rs[..i + 1], rs[..i];
    forall sid | sid in SidsOf(longer) ensures sid in SidsOf(shorter) + {rs[i].sid} {
      var j :| 0 <= j < |longer| && longer[j].sid == sid;
      assert j < i ==> shorter[j].sid == sid;
    }
    forall sid | sid in SidsOf(shorter) ensures sid in SidsOf(longer) {
      var j :| 0 <= j < |shorter| && shorter[j].sid == sid;
      assert longer[j].sid == sid;
    }
    assert longer[i].sid == rs[i].sid;
  }

  /** The second pass: deletes the sessions gathered, releasing each record after its last use. */
  method DeleteDue(db: Database, toBeReaped: seq<Record>) returns (reaped: int)
    requires db.Valid() && Distinct(toBeReaped)
    requires forall j :: 0 <= j < |toBeReaped| ==> !toBeReaped[j].released && toBeReaped[j].sid in db.entries
    modifies db, toBeReaped
    ensures db.Valid() && reaped == |toBeReaped| == |old(db.entries)| - |db.entries|
    ensures db.entries == old(db.entries) - SidsOf(toBeReaped)
    ensures forall j :: 0 <= j < |toBeReaped| ==> toBeReaped[j].released
  {
    hide Enumerates, SidsOf;
    SidsOfNone(toBeReaped[..0]);
    reaped := 0;
    var i := 0;
    while i < |toBeReaped|
      invariant 0 <= i <= |toBeReaped| && db.Valid() && reaped == i
      invariant |db.entries| == |old(db.entries)| - i
      invariant db.entries == old(db.entries) - SidsOf(toBeReaped[..i])
      invariant forall j :: 0 <= j < |toBeReaped| ==> toBeReaped[j].released == (j < i)
    {
      var r := toBeReaped[i];
      ghost var before := db.entries;
      SidsGrow(toBeReaped, i);
      assert r.sid in before;
      OneLess(before, r.sid);
      forall j | i < j < |toBeReaped| ensures toBeReaped[j] != r {
        assert toBeReaped[i].sid != toBeReaped[j].sid;
      }
      forall j | 0 <= j < i ensures toBeReaped[j] != r {
        assert toBeReaped[j].sid != toBeReaped[i].sid;
      }
      DeleteOne(db, r);
      reaped := reaped + 1;
      i := i + 1;
    }
    assert toBeReaped[..i] == toBeReaped;
  }

  lemma SidsOfNone(rs: seq<Record>)
    requires rs == []
    ensures SidsOf(rs) == {}
  {
  }

  lemma OneLess(db: Store, sid: string)
    requires sid in db
    ensures |db - {sid}| == |db| - 1
  {
    assert (db - {sid}).Keys == db.Keys - {sid};
  }

  method DeleteOne(db: Database, r: Record)
    requires db.Valid() && !r.released
    modifies db, r
    ensures db.Valid() && db.entries == old(db.entries) - {r.sid} && r.released
  {
    hide Enumerates;
    db.Delete(r.sid);
    r.Free();
  }

  /** `generic_session_reaper`. Every session whose time is up goes, no other is touched, and every
      record that was fetched has been released when it returns. */
  method GenericSessionReaper(db: Database, now: int) returns (reaped: int, ghost fetched: seq<Record>)
    requires db.Valid()
    modifies db
    ensures db.Valid() && db.entries == Live(old(db.entries), now)
    ensures reaped == |old(db.entries)| - |db.entries|
    ensures |fetched| == |old(db.order)| && forall j :: 0 <= j < |fetched| ==> fresh(fetched[j]) && fetched[j].released
  {
    hide Due, Enumerates, Expired;
    var toBeReaped;
    toBeReaped, fetched := GatherDue(db, now);
    DueAreAll(toBeReaped, fetched, db.order, db.entries, now);
    reaped := DeleteDue(db, toBeReaped);
    forall j | 0 <= j < |fetched| ensures fetched[j].released {
      if Expired(fetched[j].info, now) {
        assert fetched[j] in toBeReaped;
      }
    }
  }

  lemma DueAreAll(picked: seq<Record>, rs: seq<Record>, order: seq<string>, db: Store, now: int)
    requires RecordsOf(rs, order, db) && Enumerates(order, db) && |rs| == |order|
    requires Picks(picked, rs, Due(order, db, |order|, now))
    ensures Distinct(picked) && db - SidsOf(picked) == Live(db, now)
    ensures forall j :: 0 <= j < |picked| ==> picked[j].sid in db && Expired(picked[j].info, now) && picked[j] in rs
    ensures forall j :: 0 <= j < |rs| && Expired(rs[j].info, now) ==> rs[j] in picked
  {
    hide Due, Expired;
    DueIs(order, db, |order|, now);
    var due := Due(order, db, |order|, now);
    PickedAre(picked, rs, order, db, now);
    forall j | 0 <= j < |rs| && Expired(rs[j].info, now) ensures rs[j] in picked {
      DueHas(order, db, |order|, now, j);
      var i :| 0 <= i < |due| && due[i] == j;
      assert picked[i] == rs[j];
    }
    forall sid | sid in db ensures sid in SidsOf(picked) <==> Expired(db[sid], now) {
      DueIsReaped(picked, rs, order, db, now, sid);
    }
  }

  lemma PickedAre(picked: seq<Record>, rs: seq<Record>, order: seq<string>, db: Store, now: int)
    requires RecordsOf(rs, order, db) && Enumerates(order, db) && |rs| == |order|
    requires Picks(picked, rs, Due(order, db, |order|, now))
    ensures Distinct(picked)
    ensures forall j :: 0 <= j < |picked| ==> picked[j].sid in db && Expired(picked[j].info, now) && picked[j] in rs
  {
    hide Due, Expired;
    DueIs(order, db, |order|, now);
  }

  lemma DueIsReaped(picked: seq<Record>, rs: seq<Record>, order: seq<string>, db: Store, now: int, sid: string)
    requires RecordsOf(rs, order, db) && Enumerates(order, db) && |rs| == |order| && sid in db
    requires Picks(picked, rs, Due(order, db, |order|, now))
    ensures sid in SidsOf(picked) <==> Expired(db[sid], now)
  {
    hide Due, Expired;
    DueIs(order, db, |order|, now);
    var due := Due(order, db, |order|, now);
    if sid in SidsOf(picked) {
      var k :| 0 <= k < |picked| && picked[k].sid == sid;
      assert order[due[k]] == sid;
    }
    if Expired(db[sid], now) {
      var j :| 0 <= j < |order| && order[j] == sid;
      DueHas(order, db, |order|, now, j);
      var i :| 0 <= i < |due| && due[i] == j;
      assert picked[i].sid == sid;
    }
  }

  // ---------------------------------------------------------------- the operations

  /** `session_find_key`: the first session begun with `key`, whether or not its time is up. */
  method FindKey(db: Database, key: string) returns (result: Option<string>)
    requires db.Valid()
    ensures result.None? <==> !HasKey(db.entries, key)
    ensures result.Some? ==>
              && result.value in db.entries && db.entries[result.value].key == key
              && forall k :: 0 <= k < Position(db.order, result.value) ==> db.entries[db.order[k]].key != key
  {
    hide Position;
    result := None;
    ghost var begun, k := db.version, 0;
    var info := SequentialAccess(db, null, begun);
    while info != null
      invariant k <= |db.order| && (info == null <==> k == |db.order|)
      invariant info != null ==> !info.released && info.sid == db.order[k] && info.info == db.entries[info.sid]
      invariant forall j :: 0 <= j < k ==> db.entries[db.order[j]].key != key
      decreases |db.order| - k
    {
      PositionIs(db.order, k);
      if info.info.key == key {
        return Some(info.sid);
      }
      info := SequentialAccess(db, info, begun);
      k := k + 1;
    }
    forall sid | sid in db.entries ensures db.entries[sid].key != key {
      var j :| 0 <= j < |db.order| && db.order[j] == sid;
    }
  }

  /** `session_reap`. */
  method SessionReap(db: Database, now: int, reaping: bool) returns (reaped: int)
    requires db.Valid()
    modifies db
    ensures db.Valid() && db.entries == After(old(db.entries), Call(Reap, now), reaping)
    ensures reaped == |old(db.entries)| - |db.entries|
  {
    reaped := 0;
    if reaping {
      ghost var fetched;
      reaped, fetched := GenericSessionReaper(db, now);
    }
  }

  /** `session_begin`, with the identifier that `session_create_sid` would make up. */
  method SessionBegin(db: Database, key: string, allowMultiple: bool, newSid: string, now: int, reapAt: int,
                      reaping: bool)
    returns (sid: Option<string>)
    requires db.Valid()
    modifies db
    ensures db.Valid()
    ensures db.entries == After(old(db.entries), Call(Begin(key, allowMultiple, newSid, reapAt), now), reaping)
    ensures sid == if allowMultiple || !HasKey(old(db.entries), key) then Some(newSid) else None
  {
    hide Enumerates, Expired;
    sid := None;
    var found := None;
    if !allowMultiple {
      found := FindKey(db, key);
    }
    if allowMultiple || found.None? {
      sid := Some(newSid);
      db.Put(newSid, Info(key, now, now, DEFAULT_TIMEOUT, ""));
    }
    if reaping {
      var _ := SessionReap(db, reapAt, reaping);
    }
  }

  /** `session_access`: 0 while the session is alive, -1 otherwise. A session whose time is up is
      deleted; the refreshed access time of a live one goes no further than the fetched record. */
  method SessionAccess(db: Database, sid: string, now: int) returns (result: int)
    requires db.Valid()
    modifies db
    ensures db.Valid() && forall reaping :: db.entries == After(old(db.entries), Call(Access(sid), now), reaping)
    ensures result == if Lookup(old(db.entries), sid, now).Some? then 0 else -1
  {
    hide Enumerates;
    result := 0;
    var info := db.Fetch(sid);
    if info.Some? {
      if info.value.timeout != 0 {
        var secondsUnaccessed := now - info.value.access;
        if secondsUnaccessed >= info.value.timeout * 60 {
          db.Delete(sid);
          result := -1;
        } else {
          info := Some(info.value.(access := now));
        }
      }
    } else {
      result := -1;
    }
  }

  /** `session_get_info`. */
  method SessionGetInfo(db: Database, sid: string, now: int) returns (info: Option<Info>)
    requires db.Valid()
    modifies db
    ensures db.Valid() && forall reaping :: db.entries == After(old(db.entries), Call(Get(sid), now), reaping)
    ensures info == Lookup(old(db.entries), sid, now)
  {
    hide Enumerates;
    info := None;
    var alive := SessionAccess(db, sid, now);
    assert db.entries == After(old(db.entries), Call(Access(sid), now), false);
    if alive == 0 {
      info := db.Fetch(sid);
    }
  }

  /** `session_put_info`: the key a session was begun with stays. */
  method SessionPutInfo(db: Database, sid: string, info: Info, now: int) returns (result: Option<Info>)
    requires db.Valid()
    modifies db
    ensures db.Valid()
    ensures forall reaping ::
              db.entries == After(old(db.entries), Call(Put(sid, info.timeout, info.start, info.data), now), reaping)
    ensures result == if sid in old(db.entries) then Some(db.entries[sid]) else None
  {
    hide Enumerates;
    result := None;
    var current := db.Fetch(sid);
    if current.Some? {
      result := Some(info.(access := now, key := current.value.key));
      db.Put(sid, result.value);
    }
  }

  /** `session_restore`. */
  method SessionRestore(db: Database, sid: string, info: Info, now: int)
    requires db.Valid()
    modifies db
    ensures db.Valid() && forall reaping :: db.entries == After(old(db.entries), Call(Restore(sid, info), now), reaping)
  {
    hide Enumerates;
    var existing := db.Fetch(sid);
    if existing.None? {
      existing := Some(info);
    }
    existing := Some(existing.value.(access := now));
    db.Put(sid, existing.value);
  }

  /** `session_end`: 0 if the session was still alive, -1 if not; either way it is gone. */
  method SessionEnd(db: Database, sid: string, now: int) returns (result: int)
    requires db.Valid()
    modifies db
    ensures db.Valid() && forall reaping :: db.entries == After(old(db.entries), Call(End(sid), now), reaping)
    ensures result == if Lookup(old(db.entries), sid, now).Some? then 0 else -1
  {
    hide Enumerates;
    var info := SessionGetInfo(db, sid, now);
    assert db.entries == After(old(db.entries), Call(Get(sid), now), false);
    if info.None? {
      return -1;
    }
    db.Delete(sid);
    result := 0;
  }
}

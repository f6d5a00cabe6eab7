/** Any number of processes sharing the session database (libmhtml/session.c). Each call opens the
    lock file, waits for a shared or an exclusive lock, opens the database, works on it in steps,
    closes it and gives the lock up. The steps of different processes interleave freely. */
module SessionLock {
  import opened Options
  import opened Sessions

  /** What is done under one lock. `ReapAll` carries the clock it reads. */
  datatype Operation = Read(sid: string)
                     | FindFirst(key: string)
                     | Write(sid: string, info: Info)
                     | Remove(sid: string)
                     | ReapAll(now: int)

  predicate Writes(op: Operation) {
    op.Write? || op.Remove? || op.ReapAll?
  }

  datatype Outcome = Fetched(info: Option<Info>) | Found(sid: Option<string>) | Done | Reaped(count: int)

  /** The database file: its records, and the order in which its keys come up. */
  datatype File = File(entries: Store, order: seq<string>)

  predicate Sound(f: File) {
    Enumerates(f.order, f.entries)
  }

  /** How far the work on the open database has come. */
  datatype Work = Ready
                | Scanning(k: nat)
                | Collecting(k: nat, due: seq<string>)
                | Sweeping(due: seq<string>, i: nat)

  /** Where a process is in its call. `at` is the place of the finished call in the history. */
  datatype Process = Idle
                   | Waiting(op: Operation)
                   | Locked(op: Operation)
                   | Working(op: Operation, work: Work)
                   | Finished(op: Operation, outcome: Outcome, at: nat)
                   | Releasing(op: Operation)

  predicate HoldsLock(pc: Process) {
    pc.Locked? || pc.Working? || pc.Finished? || pc.Releasing?
  }

  predicate HasHandle(pc: Process) {
    pc.Working? || pc.Finished?
  }

  // ---------------------------------------------------------------- the steps

  datatype Progress = Stuck | Still(file: File, work: Work) | Over(file: File, outcome: Outcome)

  function FirstWork(op: Operation): Work {
    match op
    case FindFirst(_) => Scanning(0)
    case ReapAll(_) => Collecting(0, [])
    case _ => Ready
  }

  /** The file with other records; the keys come in a new order then. */
  function Changed(entries: Store, layout: seq<string>, next: File -> Progress): Progress {
    if Enumerates(layout, entries) then next(File(entries, layout)) else Stuck
  }

  /** One step of work: one record is read, stored or deleted. */
  function Worked(f: File, op: Operation, work: Work, layout: seq<string>): Progress {
    match op
    case Read(sid) => Over(f, Fetched(if sid in f.entries then Some(f.entries[sid]) else None))
    case Write(sid, info) => Changed(f.entries[sid := info], layout, f' => Over(f', Done))
    case Remove(sid) => Changed(f.entries - {sid}, layout, f' => Over(f', Done))
    case FindFirst(key) =>
      if !work.Scanning? then Stuck
      else if work.k >= |f.order| || f.order[work.k] !in f.entries then Over(f, Found(None))
      else if f.entries[f.order[work.k]].key == key then Over(f, Found(Some(f.order[work.k])))
      else Still(f, Scanning(work.k + 1))
    case ReapAll(now) =>
      match work
      case Collecting(k, due) =>
        if k >= |f.order| || f.order[k] !in f.entries then Still(f, Sweeping(due, 0))
        else Still(f, Collecting(k + 1, due + if Expired(f.entries[f.order[k]], now) then [f.order[k]] else []))
      case Sweeping(due, i) =>
        if i >= |due| then Over(f, Reaped(i))
        else Changed(f.entries - {due[i]}, layout, f' => Still(f', Sweeping(due, i + 1)))
      case _ => Stuck
  }

  /** A finished call, with the file before and after it. */
  datatype Entry = Entry(p: nat, op: Operation, outcome: Outcome, before: File, after: File)

  /** Everything there is. `readers` and `writer` are the holders of the lock, as `flock` keeps them;
      `history` are the calls finished so far and `base` is the file after the last of them. */
  datatype System = System(file: File, procs: seq<Process>, readers: set<nat>, writer: Option<nat>,
                           history: seq<Entry>, base: File)

  datatype Action = Begins(p: nat, op: Operation)
                  | Grant(p: nat)
                  | Refuse(p: nat)
                  | OpenDatabase(p: nat)
                  | OpenFails(p: nat)
                  | Proceed(p: nat, layout: seq<string>)
                  | CloseDatabase(p: nat)
                  | Unlock(p: nat)

  /** `flock` grants a shared lock while nobody holds an exclusive one, and an exclusive lock while
      nobody holds any. */
  predicate Grantable(s: System, op: Operation) {
    s.writer.None? && (Writes(op) ==> s.readers == {})
  }

  function Moved(s: System, p: nat, pc: Process): System
    requires p < |s.procs|
  {
    s.(procs := s.procs[p := pc])
  }

  /** What an action does; nothing when it cannot be taken. */
  function Step(s: System, a: Action): System {
    if a.p >= |s.procs| then s
    else
      var p := a.p;
      var pc := s.procs[p];
      match a
      case Begins(_, op) => if pc.Idle? then Moved(s, p, Waiting(op)) else s
      case Grant(_) =>
        if pc.Waiting? && Grantable(s, pc.op) then
          var s' := Moved(s, p, Locked(pc.op));
          if Writes(pc.op) then s'.(writer := Some(p)) else s'.(readers := s.readers + {p})
        else s
      case Refuse(_) => if pc.Waiting? then Moved(s, p, Idle) else s
      case OpenDatabase(_) => if pc.Locked? then Moved(s, p, Working(pc.op, FirstWork(pc.op))) else s
      case OpenFails(_) => if pc.Locked? then Moved(s, p, Releasing(pc.op)) else s
      case Proceed(_, layout) =>
        if !pc.Working? then s
        else (
          match Worked(s.file, pc.op, pc.work, layout)
          case Stuck => s
          case Still(f, work) => Moved(s, p, Working(pc.op, work)).(file := f)
          case Over(f, outcome) =>
            Moved(s, p, Finished(pc.op, outcome, |s.history|))
              .(file := f, base := f, history := s.history + [Entry(p, pc.op, outcome, s.base, f)])
        )
      case CloseDatabase(_) => if pc.Finished? then Moved(s, p, Releasing(pc.op)) else s
      case Unlock(_) =>
        if pc.Releasing? then
          var s' := Moved(s, p, Idle);
          if Writes(pc.op) then s'.(writer := None) else s'.(readers := s.readers - {p})
        else s
  }

  function RunAll(s: System, actions: seq<Action>): System
    decreases |actions|
  {
    if actions == [] then s else RunAll(Step(s, actions[0]), actions[1..])
  }

  predicate Starts(s: System) {
    && Sound(s.file) && s.base == s.file && s.history == [] && s.readers == {} && s.writer.None?
    && forall p :: 0 <= p < |s.procs| ==> s.procs[p].Idle?
  }

  // ---------------------------------------------------------------- the lock

  /** The lock is held by those, and only those, that think they hold it. */
  predicate LockKept(s: System) {
    && (forall p :: 0 <= p < |s.procs| ==>
          && (p in s.readers <==> HoldsLock(s.procs[p]) && !Writes(s.procs[p].op))
          && (s.writer == Some(p) <==> HoldsLock(s.procs[p]) && Writes(s.procs[p].op)))
    && (s.writer.Some? ==> s.writer.value < |s.procs| && s.readers == {})
    && (forall p :: p in s.readers ==> p < |s.procs|)
  }

  lemma LockKeptStep(s: System, a: Action)
    requires LockKept(s)
    ensures LockKept(Step(s, a))
  {
    hide Worked;
    if a.p < |s.procs| {
      match a
      case Proceed(_, layout) =>
      case _ =>
    }
  }

  /** A writer's lock excludes every other lock, and so its handle every other handle. */
  lemma Excluded(s: System, p: nat, q: nat)
    requires LockKept(s) && p < |s.procs| && q < |s.procs| && p != q
    requires HoldsLock(s.procs[p]) && Writes(s.procs[p].op)
    ensures !HoldsLock(s.procs[q])
  {
    assert s.writer == Some(p) && q !in s.readers && s.writer != Some(q);
  }

  // ---------------------------------------------------------------- one call as a whole

  /** The call as it should be: done at once, on its own. */
  predicate AtOnce(op: Operation, outcome: Outcome, before: File, after: File) {
    && Sound(before) && Sound(after)
    && match op
       case Read(sid) =>
         after == before && outcome == Fetched(if sid in before.entries then Some(before.entries[sid]) else None)
       case FindFirst(key) =>
         && after == before && outcome.Found?
         && (outcome.sid.None? <==> !HasKey(before.entries, key))
         && (outcome.sid.Some? ==> IsFirst(before, key, outcome.sid.value))
       case Write(sid, info) => after.entries == before.entries[sid := info] && outcome == Done
       case Remove(sid) => after.entries == before.entries - {sid} && outcome == Done
       case ReapAll(now) =>
         after.entries == Live(before.entries, now) && outcome == Reaped(|before.entries| - |after.entries|)
  }

  predicate IsFirst(f: File, key: string, sid: string)
    requires Sound(f)
  {
    exists k :: 0 <= k < |f.order| && f.order[k] == sid && f.entries[sid].key == key
                && forall j :: 0 <= j < k ==> f.entries[f.order[j]].key != key
  }

  function Swept(due: seq<string>, i: nat): set<string>
    requires i <= |due|
  {
    set j | 0 <= j < i :: due[j]
  }

  /** `due` are the first keys of `f` whose time is up, looking at `n` of them. */
  predicate Gathered(f: File, due: seq<string>, n: nat, now: int)
    requires Sound(f)
  {
    n <= |f.order| && var at := Due(f.order, f.entries, n, now);
    |due| == |at| && forall j :: 0 <= j < |due| ==> due[j] == f.order[at[j]]
  }

  /** The half-done call: what the file is, compared with the one it started from. */
  predicate Fits(base: File, f: File, op: Operation, work: Work)
    requires Sound(base)
  {
    match work
    case Ready => f == base && !op.FindFirst? && !op.ReapAll?
    case Scanning(k) =>
      f == base && op.FindFirst? && k <= |f.order| && forall j :: 0 <= j < k ==> f.entries[f.order[j]].key != op.key
    case Collecting(k, due) => f == base && op.ReapAll? && Gathered(f, due, k, op.now)
    case Sweeping(due, i) =>
      && op.ReapAll? && i <= |due| && Gathered(base, due, |base.order|, op.now)
      && f.entries == base.entries - Swept(due, i) && |f.entries| == |base.entries| - i
  }

  lemma GatheredAre(f: File, due: seq<string>, now: int)
    requires Sound(f) && Gathered(f, due, |f.order|, now)
    ensures forall i, j :: 0 <= i < j < |due| ==> due[i] != due[j]
    ensures forall j :: 0 <= j < |due| ==> due[j] in f.entries
    ensures f.entries - Swept(due, |due|) == Live(f.entries, now)
  {
    hide Due, Expired;
    var at := Due(f.order, f.entries, |f.order|, now);
    DueIs(f.order, f.entries, |f.order|, now);
    forall sid | sid in f.entries ensures sid in Swept(due, |due|) <==> Expired(f.entries[sid], now) {
      var k :| 0 <= k < |f.order| && f.order[k] == sid;
      if Expired(f.entries[sid], now) {
        DueHas(f.order, f.entries, |f.order|, now, k);
        var j :| 0 <= j < |at| && at[j] == k;
        assert due[j] == sid;
      }
    }
  }

  lemma FitsAtFirst(f: File, op: Operation)
    requires Sound(f)
    ensures Fits(f, f, op, FirstWork(op))
  {
  }

  lemma CollectMore(f: File, due: seq<string>, k: nat, now: int)
    requires Sound(f) && Gathered(f, due, k, now) && k < |f.order|
    ensures Gathered(f, due + if Expired(f.entries[f.order[k]], now) then [f.order[k]] else [], k + 1, now)
  {
    hide Expired;
  }

  lemma SweptGrows(due: seq<string>, i: nat)
    requires i < |due|
    ensures Swept(due, i + 1) == Swept(due, i) + {due[i]}
  {
  }

  lemma NotSweptYet(due: seq<string>, i: nat)
    requires i < |due| && forall j, k :: 0 <= j < k < |due| ==> due[j] != due[k]
    ensures due[i] !in Swept(due, i)
  {
  }

  lemma SweepMore(base: File, f: File, due: seq<string>, i: nat, now: int)
    requires Sound(base) && Fits(base, f, ReapAll(now), Sweeping(due, i)) && i < |due|
    ensures f.entries - {due[i]} == base.entries - Swept(due, i + 1)
    ensures |f.entries - {due[i]}| == |base.entries| - (i + 1)
  {
    hide Gathered, Expired, Enumerates, Live, Swept;
    GatheredAre(base, due, now);
    SweptGrows(due, i);
    NotSweptYet(due, i);
    OneLess(f.entries, due[i]);
    MinusBoth(base.entries, Swept(due, i), due[i]);
  }

  lemma MinusBoth(db: Store, gone: set<string>, sid: string)
    ensures (db - gone) - {sid} == db - (gone + {sid})
  {
  }

  /** What `WorkedFits` says of one step. */
  predicate Fitting(base: File, f: File, op: Operation, progress: Progress)
    requires Sound(base)
  {
    match progress
    case Stuck => true
    case Still(f', work') => Sound(f') && Fits(base, f', op, work') && (!Writes(op) ==> f' == f)
    case Over(f', outcome) => AtOnce(op, outcome, base, f') && (!Writes(op) ==> f' == f)
  }

  lemma CollectFits(f: File, now: int, k: nat, due: seq<string>, layout: seq<string>)
    requires Sound(f) && Gathered(f, due, k, now) && k <= |f.order|
    ensures Fitting(f, f, ReapAll(now), Worked(f, ReapAll(now), Collecting(k, due), layout))
  {
    hide Expired, Gathered, Enumerates, Swept, Live;
    if k < |f.order| {
      KeysAreIn(f, k);
      CollectMore(f, due, k, now);
    } else {
      CollectedAll(f, due, k, now);
    }
  }

  lemma SweepFits(base: File, f: File, now: int, due: seq<string>, i: nat, layout: seq<string>)
    requires Sound(base) && Sound(f) && Fits(base, f, ReapAll(now), Sweeping(due, i))
    ensures Fitting(base, f, ReapAll(now), Worked(f, ReapAll(now), Sweeping(due, i), layout))
  {
    hide Expired, Gathered, Enumerates, Swept, Live, AtOnce, Fits;
    if i < |due| {
      SweptOne(base, f, now, due, i, layout);
    } else {
      SweptAll(base, f, now, due, i);
    }
  }

  lemma SweptOne(base: File, f: File, now: int, due: seq<string>, i: nat, layout: seq<string>)
    requires Sound(base) && Fits(base, f, ReapAll(now), Sweeping(due, i)) && i < |due|
    ensures Fits(base, File(f.entries - {due[i]}, layout), ReapAll(now), Sweeping(due, i + 1))
  {
    hide Expired, Gathered, Enumerates, Swept, Live, AtOnce;
    SweepMore(base, f, due, i, now);
  }

  lemma SweptAll(base: File, f: File, now: int, due: seq<string>, i: nat)
    requires Sound(base) && Sound(f) && Fits(base, f, ReapAll(now), Sweeping(due, i)) && i >= |due|
    ensures AtOnce(ReapAll(now), Reaped(i), base, f)
  {
    hide Expired, Gathered, Enumerates, Swept, Live, AtOnce;
    assert i == |due|;
    GatheredAre(base, due, now);
    ReapedAll(base, f, now, i);
  }

  lemma ReapedAll(base: File, f: File, now: int, i: nat)
    requires Sound(base) && Sound(f) && f.entries == Live(base.entries, now) && |f.entries| == |base.entries| - i
    ensures AtOnce(ReapAll(now), Reaped(i), base, f)
  {
    hide Expired, Enumerates, Live;
  }

  lemma KeysAreIn(f: File, k: nat)
    requires Sound(f) && k < |f.order|
    ensures f.order[k] in f.entries
  {
  }

  /** Every step of work keeps the half-done call fitting, and the last one completes it. */
  lemma WorkedFits(base: File, f: File, op: Operation, work: Work, layout: seq<string>)
    requires Sound(base) && Sound(f) && Fits(base, f, op, work)
    ensures Fitting(base, f, op, Worked(f, op, work, layout))
  {
    match op
    case Read(_) =>
    case Write(_, _) =>
    case Remove(_) =>
    case FindFirst(key) => FindFits(f, key, work, layout);
    case ReapAll(now) =>
      match work
      case Collecting(k, due) => CollectFits(f, now, k, due, layout);
      case Sweeping(due, i) => SweepFits(base, f, now, due, i, layout);
  }

  lemma CollectedAll(f: File, due: seq<string>, k: nat, now: int)
    requires Sound(f) && Gathered(f, due, k, now) && k >= |f.order|
    ensures Fits(f, f, ReapAll(now), Sweeping(due, 0))
  {
    assert k == |f.order|;
    assert Swept(due, 0) == {};
  }

  lemma FindFits(f: File, key: string, work: Work, layout: seq<string>)
    requires Sound(f) && Fits(f, f, FindFirst(key), work)
    ensures Fitting(f, f, FindFirst(key), Worked(f, FindFirst(key), work, layout))
  {
    if work.Scanning? && work.k == |f.order| {
      forall sid | sid in f.entries ensures f.entries[sid].key != key {
        var j :| 0 <= j < |f.order| && f.order[j] == sid;
      }
    }
  }

  // ---------------------------------------------------------------- every run

  /** The calls of the history, done one after the other, each on its own, lead from `first` to `last`. */
  predicate Serial(first: File, history: seq<Entry>, last: File)
    decreases |history|
  {
    if history == [] then first == last
    else
      var e := history[|history| - 1];
      e.after == last && AtOnce(e.op, e.outcome, e.before, e.after) && Serial(first, history[..|history| - 1], e.before)
  }

  predicate WritingNow(s: System) {
    exists p :: 0 <= p < |s.procs| && s.procs[p].Working? && Writes(s.procs[p].op)
  }

  predicate WorkKept(s: System) {
    && Sound(s.file) && Sound(s.base)
    && (!WritingNow(s) ==> s.file == s.base)
    && forall p :: 0 <= p < |s.procs| && s.procs[p].Working? ==> Fits(s.base, s.file, s.procs[p].op, s.procs[p].work)
  }

  /** What a process answers is what the history says. */
  predicate Recorded(s: System) {
    forall p :: 0 <= p < |s.procs| && s.procs[p].Finished? ==>
      var pc := s.procs[p];
      pc.at < |s.history| && var e := s.history[pc.at]; e.p == p && e.op == pc.op && e.outcome == pc.outcome
  }

  lemma RecordedStep(s: System, a: Action)
    requires Recorded(s)
    ensures Recorded(Step(s, a))
  {
    hide Worked, Grantable, Writes;
  }

  lemma OtherStepKeepsWork(s: System, a: Action)
    requires LockKept(s) && WorkKept(s) && !a.Proceed?
    ensures WorkKept(Step(s, a))
  {
    hide Fits, Enumerates;
    var s' := Step(s, a);
    if a.p < |s.procs| {
      var p := a.p;
      if a.OpenDatabase? && s.procs[p].Locked? {
        NobodyWrites(s, p);
        FitsAtFirst(s.file, s.procs[p].op);
      } else if WritingNow(s) {
        var w :| 0 <= w < |s.procs| && s.procs[w].Working? && Writes(s.procs[w].op);
        assert s'.procs[w] == s.procs[w];
      }
    }
  }

  lemma NobodyWrites(s: System, p: nat)
    requires LockKept(s) && p < |s.procs| && HoldsLock(s.procs[p])
    requires s.procs[p].Working? ==> !Writes(s.procs[p].op)
    ensures !WritingNow(s)
  {
    if WritingNow(s) {
      var w :| 0 <= w < |s.procs| && s.procs[w].Working? && Writes(s.procs[w].op);
      Excluded(s, w, p);
      assert false;
    }
  }

  lemma ProceedKeepsWork(s: System, p: nat, layout: seq<string>)
    requires LockKept(s) && WorkKept(s)
    ensures WorkKept(Step(s, Proceed(p, layout)))
  {
    hide Fits, Enumerates, Worked, AtOnce;
    if p < |s.procs| && s.procs[p].Working? {
      var pc := s.procs[p];
      var s' := Step(s, Proceed(p, layout));
      WorkedFits(s.base, s.file, pc.op, pc.work, layout);
      AtOnceIsSound();
      if Writes(pc.op) {
        forall q | 0 <= q < |s.procs| && q != p ensures !s.procs[q].Working? {
          Excluded(s, p, q);
        }
        if s'.procs[p].Working? {
          assert WritingNow(s');
        }
      } else {
        NobodyWrites(s, p);
      }
    }
  }

  lemma AtOnceIsSound()
    ensures forall op, outcome, before, after :: AtOnce(op, outcome, before, after) ==> Sound(after)
  {
  }

  /** Everything that holds at all times. */
  predicate Kept(first: File, s: System) {
    LockKept(s) && WorkKept(s) && Recorded(s) && Serial(first, s.history, s.base)
  }

  lemma KeptStep(first: File, s: System, a: Action)
    requires Kept(first, s)
    ensures Kept(first, Step(s, a))
  {
    LockKeptStep(s, a);
    RecordedStep(s, a);
    SerialStep(first, s, a);
    if a.Proceed? {
      ProceedKeepsWork(s, a.p, a.layout);
    } else {
      OtherStepKeepsWork(s, a);
    }
  }

  lemma SerialStep(first: File, s: System, a: Action)
    requires LockKept(s) && WorkKept(s) && Serial(first, s.history, s.base)
    ensures var s' := Step(s, a); Serial(first, s'.history, s'.base)
  {
    hide Fits, Enumerates, Worked, AtOnce;
    if a.Proceed? && a.p < |s.procs| && s.procs[a.p].Working? {
      var pc := s.procs[a.p];
      WorkedFits(s.base, s.file, pc.op, pc.work, a.layout);
      var s' := Step(s, a);
      if |s'.history| > |s.history| {
        assert s'.history[..|s'.history| - 1] == s.history;
      }
    }
  }

  lemma {:induction false} KeptRun(first: File, s: System, actions: seq<Action>)
    requires Kept(first, s)
    ensures Kept(first, RunAll(s, actions))
    decreases |actions|
  {
    hide Kept, Step;
    if actions != [] {
      KeptStep(first, s, actions[0]);
      KeptRun(first, Step(s, actions[0]), actions[1..]);
    }
  }

  lemma KeptAtFirst(s: System)
    requires Starts(s)
    ensures Kept(s.file, s)
  {
  }

  /** However the steps of any number of processes interleave, while one of them has the database open
      for writing no other has it open at all. */
  lemma WriteHandleIsExclusive(s: System, actions: seq<Action>, p: nat, q: nat)
    requires Starts(s) && p < |RunAll(s, actions).procs| && q < |RunAll(s, actions).procs| && p != q
    requires var pc := RunAll(s, actions).procs[p]; HasHandle(pc) && Writes(pc.op)
    ensures !HasHandle(RunAll(s, actions).procs[q])
  {
    KeptAtFirst(s);
    KeptRun(s.file, s, actions);
    Excluded(RunAll(s, actions), p, q);
  }

  /** However they interleave, the finished calls could have been done one after the other, each at
      once: the history says in which order, every process has the answer that the history gives it,
      and whenever nobody is writing the file is what the history leads to. */
  lemma CallsAreSerialisable(s: System, actions: seq<Action>)
    requires Starts(s)
    ensures var s' := RunAll(s, actions);
            Serial(s.file, s'.history, s'.base) && Recorded(s') && (!WritingNow(s') ==> s'.file == s'.base)
  {
    KeptAtFirst(s);
    KeptRun(s.file, s, actions);
  }

  // ---------------------------------------------------------------- what the lock does not give

  /** A call that is over after one step of work, from beginning to end. */
  function WholeCall(p: nat, op: Operation, layout: seq<string>): seq<Action> {
    [Begins(p, op), Grant(p), OpenDatabase(p), Proceed(p, layout), CloseDatabase(p), Unlock(p)]
  }

  lemma {:induction false} RunParts(s: System, first: seq<Action>, rest: seq<Action>)
    ensures RunAll(s, first + rest) == RunAll(RunAll(s, first), rest)
    decreases |first|
  {
    if first == [] {
      assert first + rest == rest;
    } else {
      assert (first + rest)[1..] == first[1..] + rest;
      RunParts(Step(s, first[0]), first[1..], rest);
    }
  }

  lemma WholeCallRuns(s: System, p: nat, op: Operation, layout: seq<string>)
    requires p < |s.procs| && s.procs[p].Idle? && s.writer.None? && s.readers == {}
    requires Worked(s.file, op, FirstWork(op), layout).Over?
    ensures var w := Worked(s.file, op, FirstWork(op), layout);
            RunAll(s, WholeCall(p, op, layout))
            == s.(file := w.file, base := w.file, history := s.history + [Entry(p, op, w.outcome, s.base, w.file)])
  {
    hide Worked;
    var a := WholeCall(p, op, layout);
    var s1 := Step(s, a[0]);
    var s2 := Step(s1, a[1]);
    var s3 := Step(s2, a[2]);
    var s4 := Step(s3, a[3]);
    var s5 := Step(s4, a[4]);
    var s6 := Step(s5, a[5]);
    assert a[1..] == [a[1], a[2], a[3], a[4], a[5]];
    assert a[1..][1..] == [a[2], a[3], a[4], a[5]];
    assert RunAll(s, a) == RunAll(s2, [a[2], a[3], a[4], a[5]]);
    assert [a[2], a[3], a[4], a[5]][1..][1..] == [a[4], a[5]];
    assert RunAll(s2, [a[2], a[3], a[4], a[5]]) == RunAll(s4, [a[4], a[5]]);
    assert [a[4], a[5]][1..] == [a[5]];
    assert RunAll(s4, [a[4], a[5]]) == RunAll(s5, [a[5]]);
    assert [a[5]][1..] == [];
    assert RunAll(s5, [a[5]]) == s6;
    assert s6.procs == s.procs;
    assert s6.readers == s.readers;
  }

  /** The lock is held for each access, not for the whole of `session_begin`: two processes that begin
      a session with the same key can both be told that there is none, and both store one. */
  lemma BeginIsNotAtomic(s: System, key: string, a: string, b: string, infoA: Info, infoB: Info)
    returns (actions: seq<Action>)
    requires Starts(s) && |s.procs| == 2 && s.file.entries == map[]
    requires a != b && infoA.key == key && infoB.key == key
    ensures var s' := RunAll(s, actions);
            && |s'.history| == 4 && s'.history[0].outcome == s'.history[1].outcome == Found(None)
            && s'.history[0].p != s'.history[1].p && s'.history[2].p != s'.history[3].p
            && !UniqueKeys(s'.file.entries)
  {
    hide RunAll;
    var find, write1, write2 := FindFirst(key), Write(a, infoA), Write(b, infoB);
    var s1 := RunAll(s, WholeCall(0, find, []));
    WholeCallRuns(s, 0, find, []);
    var s2 := RunAll(s1, WholeCall(1, find, []));
    WholeCallRuns(s1, 1, find, []);
    var s3 := RunAll(s2, WholeCall(0, write1, [a]));
    WholeCallRuns(s2, 0, write1, [a]);
    var s4 := RunAll(s3, WholeCall(1, write2, [a, b]));
    WholeCallRuns(s3, 1, write2, [a, b]);
    assert s4.file.entries[a].key == s4.file.entries[b].key;
    RunParts(s, WholeCall(0, find, []), WholeCall(1, find, []));
    var two := WholeCall(0, find, []) + WholeCall(1, find, []);
    RunParts(s, two, WholeCall(0, write1, [a]));
    var three := two + WholeCall(0, write1, [a]);
    RunParts(s, three, WholeCall(1, write2, [a, b]));
    actions := three + WholeCall(1, write2, [a, b]);
  }

  // ---------------------------------------------------------------- when keys stay unique all the same

  /** No session but `sid` has this key. */
  predicate NoOther(db: Store, sid: string, key: string) {
    forall other :: other in db && db[other].key == key ==> other == sid
  }

  /** The call stores no key that another session has. */
  predicate Harmless(e: Entry) {
    e.op.Write? ==> NoOther(e.before.entries, e.op.sid, e.op.info.key)
  }

  /** One call keeps keys unique if and only if it is harmless. */
  lemma EntryKeepsKeys(e: Entry)
    requires AtOnce(e.op, e.outcome, e.before, e.after) && UniqueKeys(e.before.entries)
    ensures UniqueKeys(e.after.entries) <==> Harmless(e)
  {
    hide Enumerates, Expired;
    if e.op.Write? {
      var db, sid, key := e.before.entries, e.op.sid, e.op.info.key;
      if other :| other in db && db[other].key == key && other != sid {
        assert e.after.entries[other].key == e.after.entries[sid].key;
      }
    }
  }

  /** Each call of a history starts from the file that the one before it left. */
  lemma {:induction false} SerialAt(first: File, history: seq<Entry>, last: File, k: nat)
    requires Serial(first, history, last) && k < |history|
    ensures var e := history[k];
            AtOnce(e.op, e.outcome, e.before, e.after) && e.before == if k == 0 then first else history[k - 1].after
    decreases |history|
  {
    hide AtOnce;
    var n := |history| - 1;
    if k < n {
      SerialAt(first, history[..n], history[n].before, k);
    } else if k > 0 {
      assert history[..n][n - 1] == history[n - 1];
      assert Serial(first, history[..n], history[n].before);
    }
  }

  lemma {:induction false} HarmlessKeepsKeys(first: File, history: seq<Entry>, last: File, k: nat)
    requires Serial(first, history, last) && UniqueKeys(first.entries) && k < |history|
    requires forall j :: 0 <= j < |history| ==> Harmless(history[j])
    ensures UniqueKeys(history[k].after.entries)
    decreases k
  {
    hide AtOnce, Harmless, UniqueKeys;
    SerialAt(first, history, last, k);
    if k > 0 {
      HarmlessKeepsKeys(first, history, last, k - 1);
    }
    EntryKeepsKeys(history[k]);
  }

  /** However the processes interleave, keys stay unique at all times if and only if every write meets no
      other session with its key. */
  lemma KeysStayUniqueExactly(s: System, actions: seq<Action>)
    requires Starts(s) && UniqueKeys(s.file.entries)
    ensures var h := RunAll(s, actions).history;
            (forall k :: 0 <= k < |h| ==> UniqueKeys(h[k].after.entries)) <==>
            forall k :: 0 <= k < |h| ==> Harmless(h[k])
  {
    hide AtOnce, Harmless, UniqueKeys, Serial;
    CallsAreSerialisable(s, actions);
    var s' := RunAll(s, actions);
    var h := s'.history;
    if forall k :: 0 <= k < |h| ==> Harmless(h[k]) {
      forall k | 0 <= k < |h| ensures UniqueKeys(h[k].after.entries) {
        HarmlessKeepsKeys(s.file, h, s'.base, k);
      }
    }
    if forall k :: 0 <= k < |h| ==> UniqueKeys(h[k].after.entries) {
      forall k | 0 <= k < |h| ensures Harmless(h[k]) {
        SerialAt(s.file, h, s'.base, k);
        EntryKeepsKeys(h[k]);
      }
    }
  }

  /** The `m`-th call wrote a session with this key, and up to the `j`-th that session stayed as it was. */
  predicate InPlace(h: seq<Entry>, m: nat, j: nat, key: string)
    requires m < j <= |h|
  {
    && h[m].op.Write? && h[m].op.info.key == key
    && forall n :: m <= n < j ==> Has(h[n].after, h[m].op.sid, h[m].op.info)
  }

  predicate Has(f: File, sid: string, info: Info) {
    sid in f.entries && f.entries[sid] == info
  }

  /** A session that is there was there before, unless the call wrote it. */
  lemma HadBefore(e: Entry, sid: string, info: Info)
    requires AtOnce(e.op, e.outcome, e.before, e.after) && Has(e.after, sid, info)
    ensures Has(e.before, sid, info) || e.op == Write(sid, info)
  {
    hide Enumerates, Expired;
  }

  /** A session that is there at the `j`-th call and was not after the `i`-th has been written in between. */
  lemma {:induction false} WrittenBetween(first: File, h: seq<Entry>, last: File, i: nat, j: nat, sid: string,
                                            info: Info)
    returns (m: nat)
    requires Serial(first, h, last) && i < j < |h| && Has(h[j].before, sid, info) && !Has(h[i].after, sid, info)
    ensures i < m < j && h[m].op == Write(sid, info) && InPlace(h, m, j, info.key)
    decreases j
  {
    hide AtOnce, Serial, Has;
    SerialAt(first, h, last, j);
    SerialAt(first, h, last, j - 1);
    HadBefore(h[j - 1], sid, info);
    if h[j - 1].op == Write(sid, info) {
      m := j - 1;
    } else {
      m := WrittenBetween(first, h, last, i, j - 1, sid, info);
    }
  }

  /** The `j`-th call writes a session after the `i`-th has found that its key is free: a begin, when one
      process makes both calls one after the other. */
  predicate FindsThenWrites(h: seq<Entry>, i: nat, j: nat) {
    i < j < |h| && h[j].op.Write? && h[i].op == FindFirst(h[j].op.info.key) && h[i].outcome == Found(None)
  }

  /** A session with the key of the `j`-th call, under another identifier, was written after the `i`-th
      call and is still in place. */
  predicate Overtaken(h: seq<Entry>, i: nat, j: nat)
    requires FindsThenWrites(h, i, j)
  {
    exists m :: i < m < j && InPlace(h, m, j, h[j].op.info.key) && h[m].op.sid != h[j].op.sid
  }

  /** The same, written by another process. */
  predicate OvertakenByOther(h: seq<Entry>, i: nat, j: nat)
    requires FindsThenWrites(h, i, j)
  {
    exists m :: i < m < j && InPlace(h, m, j, h[j].op.info.key) && h[m].op.sid != h[j].op.sid && h[m].p != h[j].p
  }

  /** What this means for beginning a session, in every run: the write makes a key double exactly if it
      has been overtaken. The one that overtakes is another process, if the writing process finished
      nothing else in between. */
  lemma BeginBreaksKeysExactly(s: System, actions: seq<Action>, i: nat, j: nat)
    requires Starts(s) && FindsThenWrites(RunAll(s, actions).history, i, j)
    requires UniqueKeys(RunAll(s, actions).history[j].before.entries)
    ensures var h := RunAll(s, actions).history;
            && (!UniqueKeys(h[j].after.entries) <==> Overtaken(h, i, j))
            && ((forall k :: i < k < j ==> h[k].p != h[j].p) ==>
                  (!UniqueKeys(h[j].after.entries) <==> OvertakenByOther(h, i, j)))
  {
    hide Serial, UniqueKeys, RunAll;
    CallsAreSerialisable(s, actions);
    var s' := RunAll(s, actions);
    var h := s'.history;
    SerialAt(s.file, h, s'.base, i);
    SerialAt(s.file, h, s'.base, j);
    EntryKeepsKeys(h[j]);
    if !Harmless(h[j]) {
      OvertakenIfHarmful(s.file, h, s'.base, i, j);
    }
    if Overtaken(h, i, j) {
      var m :| i < m < j && InPlace(h, m, j, h[j].op.info.key) && h[m].op.sid != h[j].op.sid;
      HarmfulIfInPlace(s.file, h, s'.base, m, j);
    }
  }

  lemma OvertakenIfHarmful(first: File, h: seq<Entry>, last: File, i: nat, j: nat)
    requires Serial(first, h, last) && FindsThenWrites(h, i, j) && !Harmless(h[j])
    ensures Overtaken(h, i, j)
    ensures (forall k :: i < k < j ==> h[k].p != h[j].p) ==> OvertakenByOther(h, i, j)
  {
    hide Serial, Enumerates, Expired;
    var key, db := h[j].op.info.key, h[j].before.entries;
    var sid :| sid in db && db[sid].key == key && sid != h[j].op.sid;
    SerialAt(first, h, last, i);
    assert !Has(h[i].after, sid, db[sid]);
    var m := WrittenBetween(first, h, last, i, j, sid, db[sid]);
    assert InPlace(h, m, j, key) && h[m].op.sid != h[j].op.sid;
  }

  lemma HarmfulIfInPlace(first: File, h: seq<Entry>, last: File, m: nat, j: nat)
    requires Serial(first, h, last) && m < j < |h| && h[j].op.Write? && InPlace(h, m, j, h[j].op.info.key)
    requires h[m].op.sid != h[j].op.sid
    ensures !Harmless(h[j])
  {
    hide Serial, AtOnce;
    SerialAt(first, h, last, j);
    assert Has(h[j - 1].after, h[m].op.sid, h[m].op.info);
  }
}

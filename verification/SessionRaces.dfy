/** Calls that are made of several accesses to the session database, each under a lock of its own
    (`session_access`, `session_get_info`, `session_put_info` and `session_end` of libmhtml/session.c):
    what becomes of them when other processes come in between. */
module SessionRaces {
  import opened Options
  import opened Sessions
  import opened SessionLock

  /** The `i`-th call has read `info` for the session `sid`. */
  predicate Fetches(h: seq<Entry>, i: nat, sid: string, info: Info) {
    i < |h| && h[i].op == Read(sid) && h[i].outcome == Fetched(Some(info))
  }

  /** No call between the `i`-th and the `j`-th is by the process of the `j`-th. */
  predicate AloneBetween(h: seq<Entry>, i: nat, j: nat)
    requires j < |h|
  {
    forall k :: i < k < j ==> h[k].p != h[j].p
  }

  // ---------------------------------------------------------------- nothing in between

  /** With nothing in between, the accesses that `session_begin` is made of do what it does. */
  lemma BeginInParts(key: string, allowMultiple: bool, sid: string, t: int, reapAt: int, reaping: bool,
                     found: Option<string>, count: int, f: File, f1: File, f2: File)
    requires allowMultiple || AtOnce(FindFirst(key), Found(found), f, f)
    requires if allowMultiple || found.None? then AtOnce(Write(sid, Info(key, t, t, 61, "")), Done, f, f1) else f1 == f
    requires if reaping then AtOnce(ReapAll(reapAt), Reaped(count), f1, f2) else f2 == f1
    ensures f2.entries == After(f.entries, Call(Begin(key, allowMultiple, sid, reapAt), t), reaping)
  {
    hide Enumerates, Expired;
  }

  /** So do those of `session_access`: a read, and a deletion if the time of the session is up. */
  lemma AccessInParts(sid: string, now: int, reaping: bool, info: Option<Info>, f: File, f1: File)
    requires AtOnce(Read(sid), Fetched(info), f, f)
    requires if info.Some? && Expired(info.value, now) then AtOnce(Remove(sid), Done, f, f1) else f1 == f
    ensures f1.entries == After(f.entries, Call(Access(sid), now), reaping)
  {
    hide Enumerates, Expired;
  }

  /** Those of `session_put_info`: a read, and a write of what is given with the key that was read. */
  lemma PutInParts(sid: string, timeout: int, start: int, data: string, now: int, reaping: bool, info: Option<Info>,
                   f: File, f1: File)
    requires AtOnce(Read(sid), Fetched(info), f, f)
    requires if info.None? then f1 == f
             else AtOnce(Write(sid, Info(info.value.key, start, now, timeout, data)), Done, f, f1)
    ensures f1.entries == After(f.entries, Call(Put(sid, timeout, start, data), now), reaping)
  {
    hide Enumerates, Expired;
  }

  /** Those of `session_restore`: a read, and a write of what was read, or else of what is given. */
  lemma RestoreInParts(sid: string, given: Info, now: int, reaping: bool, info: Option<Info>, f: File, f1: File)
    requires AtOnce(Read(sid), Fetched(info), f, f)
    requires var kept := if info.Some? then info.value else given;
             AtOnce(Write(sid, Info(kept.key, kept.start, now, kept.timeout, kept.data)), Done, f, f1)
    ensures f1.entries == After(f.entries, Call(Restore(sid, given), now), reaping)
  {
    hide Enumerates, Expired;
  }

  /** Those of `session_end`: an access, and a deletion if the session is still there. */
  lemma EndInParts(sid: string, now: int, reaping: bool, info: Option<Info>, f: File, f1: File, f2: File)
    requires f1.entries == After(f.entries, Call(Access(sid), now), reaping)
    requires AtOnce(Read(sid), Fetched(info), f1, f1)
    requires if info.Some? then AtOnce(Remove(sid), Done, f1, f2) else f2 == f1
    ensures f2.entries == After(f.entries, Call(End(sid), now), reaping)
  {
    hide Enumerates, Expired;
  }

  // ---------------------------------------------------------------- deleting what another has written

  /** Between the two calls, a call stored the record `info` for `sid`, and up to the `j`-th it stayed. */
  predicate Stored(h: seq<Entry>, i: nat, j: nat, sid: string, info: Info)
    requires j <= |h|
  {
    exists m :: i < m < j && h[m].op == Write(sid, info) && InPlace(h, m, j, info.key)
  }

  predicate StoredByOther(h: seq<Entry>, i: nat, j: nat, sid: string, info: Info)
    requires j < |h|
  {
    exists m :: i < m < j && h[m].op == Write(sid, info) && InPlace(h, m, j, info.key) && h[m].p != h[j].p
  }

  /** In every run, another record than the one read is met exactly if it was stored in between and is
      still in place. */
  lemma MeetsAnotherExactly(s: System, actions: seq<Action>, i: nat, j: nat, sid: string, info: Info, other: Info)
    requires Starts(s) && Fetches(RunAll(s, actions).history, i, sid, info) && other != info
    requires i < j < |RunAll(s, actions).history|
    ensures var h := RunAll(s, actions).history;
            && (Has(h[j].before, sid, other) <==> Stored(h, i, j, sid, other))
            && (AloneBetween(h, i, j) ==> (Has(h[j].before, sid, other) <==> StoredByOther(h, i, j, sid, other)))
  {
    hide Serial, RunAll, Enumerates, Expired;
    CallsAreSerialisable(s, actions);
    var s' := RunAll(s, actions);
    var h := s'.history;
    SerialAt(s.file, h, s'.base, i);
    SerialAt(s.file, h, s'.base, j);
    if Has(h[j].before, sid, other) {
      var m := WrittenBetween(s.file, h, s'.base, i, j, sid, other);
    }
    if Stored(h, i, j, sid, other) {
      var m :| i < m < j && h[m].op == Write(sid, other) && InPlace(h, m, j, other.key);
      assert Has(h[j - 1].after, sid, other);
    }
  }

  /** `session_access` deletes a session whose time it has found to be up. A live session is deleted by that
      exactly if one was stored in between and is still in place; by another process, if the deleting one did
      nothing else meanwhile. */
  lemma AccessDeletesLiveExactly(s: System, actions: seq<Action>, i: nat, j: nat, sid: string, info: Info, now: int)
    requires Starts(s) && Fetches(RunAll(s, actions).history, i, sid, info) && Expired(info, now)
    requires i < j < |RunAll(s, actions).history| && RunAll(s, actions).history[j].op == Remove(sid)
    ensures var h := RunAll(s, actions).history;
            var deletesLive := Lookup(h[j].before.entries, sid, now).Some? && sid !in h[j].after.entries;
            && (deletesLive <==> exists other :: !Expired(other, now) && Stored(h, i, j, sid, other))
            && (AloneBetween(h, i, j) ==>
                  (deletesLive <==> exists other :: !Expired(other, now) && StoredByOther(h, i, j, sid, other)))
  {
    hide Serial, RunAll, Enumerates, Expired;
    CallsAreSerialisable(s, actions);
    var s' := RunAll(s, actions);
    var h := s'.history;
    SerialAt(s.file, h, s'.base, j);
    assert sid !in h[j].after.entries;
    forall other | other != info
      ensures Has(h[j].before, sid, other) <==> Stored(h, i, j, sid, other)
      ensures AloneBetween(h, i, j) ==> (Has(h[j].before, sid, other) <==> StoredByOther(h, i, j, sid, other))
    {
      MeetsAnotherExactly(s, actions, i, j, sid, info, other);
    }
    if sid in h[j].before.entries { assert Has(h[j].before, sid, h[j].before.entries[sid]); }
  }

  // ---------------------------------------------------------------- bringing back what another has ended

  /** The call takes the session away: it removes it, or it reaps and the time of the session is up. */
  predicate Ends(e: Entry, sid: string) {
    && sid in e.before.entries
    && (e.op == Remove(sid) || (e.op.ReapAll? && Expired(e.before.entries[sid], e.op.now)))
  }

  /** Between the two calls, a call took the session away, and up to the `j`-th it was not there. */
  predicate Ended(h: seq<Entry>, i: nat, j: nat, sid: string)
    requires j <= |h|
  {
    exists m :: i < m < j && Ends(h[m], sid) && Absent(h, m, j, sid)
  }

  predicate Absent(h: seq<Entry>, m: nat, j: nat, sid: string)
    requires j <= |h|
  {
    forall n :: m <= n < j ==> sid !in h[n].after.entries
  }

  lemma GoneAfter(e: Entry, sid: string)
    requires AtOnce(e.op, e.outcome, e.before, e.after) && sid in e.before.entries && sid !in e.after.entries
    ensures Ends(e, sid)
  {
    hide Enumerates, Expired;
  }

  /** A session that was there after the `i`-th call and is not at the `j`-th has been ended in between. */
  lemma {:induction false} EndedBetween(first: File, h: seq<Entry>, last: File, i: nat, j: nat, sid: string)
    requires Serial(first, h, last) && i < j < |h|
    requires sid in h[i].after.entries && sid !in h[j].before.entries
    ensures Ended(h, i, j, sid)
    decreases j
  {
    hide AtOnce, Serial, Ends;
    SerialAt(first, h, last, j);
    SerialAt(first, h, last, j - 1);
    if sid in h[j - 1].before.entries {
      GoneAfter(h[j - 1], sid);
      assert Absent(h, j - 1, j, sid);
    } else {
      EndedBetween(first, h, last, i, j - 1, sid);
      var m :| i < m < j - 1 && Ends(h[m], sid) && Absent(h, m, j - 1, sid);
      assert Absent(h, m, j, sid);
    }
  }

  /** `session_put_info` stores a session that it has found to exist. It brings an ended one back exactly if
      that was ended in between and has not been stored again since. */
  lemma PutRevivesExactly(s: System, actions: seq<Action>, i: nat, j: nat, sid: string, info: Info)
    requires Starts(s) && Fetches(RunAll(s, actions).history, i, sid, info)
    requires i < j < |RunAll(s, actions).history|
    requires RunAll(s, actions).history[j].op.Write? && RunAll(s, actions).history[j].op.sid == sid
    ensures var h := RunAll(s, actions).history;
            sid !in h[j].before.entries && sid in h[j].after.entries <==> Ended(h, i, j, sid)
  {
    hide Serial, RunAll, Enumerates, Expired, Ends;
    CallsAreSerialisable(s, actions);
    var s' := RunAll(s, actions);
    var h := s'.history;
    SerialAt(s.file, h, s'.base, i);
    SerialAt(s.file, h, s'.base, j);
    if sid !in h[j].before.entries {
      EndedBetween(s.file, h, s'.base, i, j, sid);
    }
    if Ended(h, i, j, sid) {
      var m :| i < m < j && Ends(h[m], sid) && Absent(h, m, j, sid);
      assert sid !in h[j - 1].after.entries;
    }
  }

  // ---------------------------------------------------------------- runs in which it happens

  /** One process finds a session timed out, another stores it anew, and the first deletes it. */
  lemma AccessDeletesLive(s: System, sid: string, info: Info, anew: Info, now: int) returns (actions: seq<Action>)
    requires Starts(s) && |s.procs| == 2 && s.file == File(map[sid := info], [sid])
    requires Expired(info, now) && !Expired(anew, now)
    ensures var s' := RunAll(s, actions);
            && |s'.history| == 3 && Fetches(s'.history, 0, sid, info)
            && s'.history[1].p != s'.history[0].p == s'.history[2].p
            && Lookup(s'.history[1].after.entries, sid, now) == Some(anew) && sid !in s'.file.entries
  {
    hide RunAll;
    var read, write, remove := Read(sid), Write(sid, anew), Remove(sid);
    var s1 := RunAll(s, WholeCall(0, read, []));
    WholeCallRuns(s, 0, read, []);
    var s2 := RunAll(s1, WholeCall(1, write, [sid]));
    WholeCallRuns(s1, 1, write, [sid]);
    var s3 := RunAll(s2, WholeCall(0, remove, []));
    WholeCallRuns(s2, 0, remove, []);
    RunParts(s, WholeCall(0, read, []), WholeCall(1, write, [sid]));
    var two := WholeCall(0, read, []) + WholeCall(1, write, [sid]);
    RunParts(s, two, WholeCall(0, remove, []));
    actions := two + WholeCall(0, remove, []);
  }
}

/** The repository's calls as a session issues them, with other transactions' statements in between. */
module IdempotencyRepository {
  import opened Wrappers
  import opened IdempotencyProtocol

  /** The statements other transactions execute while this session is between its own. */
  predicate Foreign(actions: seq<Action>, t: Txn) {
    forall i :: 0 <= i < |actions| ==> actions[i].txn != t
  }

  class Database {
    var committed: map<Key, Row>
    var sessions: map<Txn, Session>
    ghost var operations: set<(Txn, Key)>

    ghost function Contents(): State
      reads this
    {
      State(committed, sessions, operations)
    }

    constructor ()
      ensures Contents() == EMPTY
    {
      committed, sessions, operations := map[], map[], {};
    }

    /** One statement of any transaction. */
    method Execute(a: Action)
      modifies this
      ensures Contents() == Next(old(Contents()), a)
    {
      ghost var before := Contents();
      var s := State(committed, sessions, {});
      if Enabled(s, a) {
        EnabledIgnoresOperations(s, before, a);
        match a
        case Begin(t) =>
          sessions := sessions[t := NEW_SESSION];
        case Commit(t) =>
          var Session(_, pending, updates, _) := sessions[t];
          sessions := sessions[t := Act(s, a)];
          committed := committed + pending + updates;
          operations := operations + set k | k in pending :: (t, k);
        case _ =>
          sessions := sessions[a.txn := Act(s, a)];
      } else {
        EnabledIgnoresOperations(s, before, a);
      }
    }

    method ExecuteAll(actions: seq<Action>)
      modifies this
      ensures Contents() == Run(old(Contents()), actions)
    {
      for i := 0 to |actions|
        invariant Contents() == Run(old(Contents()), actions[..i])
      {
        assert actions[..i + 1][..i] == actions[..i];
        Execute(actions[i]);
      }
      assert actions[..|actions|] == actions;
    }
  }

  lemma BlockedIgnoresOperations(s: State, s': State, t: Txn, key: Key)
    requires s.committed == s'.committed && s.sessions == s'.sessions
    ensures Blocked(s, t, key) == Blocked(s', t, key)
  {
  }

  lemma LockedIgnoresOperations(s: State, s': State, t: Txn, key: Key)
    requires s.committed == s'.committed && s.sessions == s'.sessions
    ensures Locked(s, t, key) == Locked(s', t, key)
  {
  }

  lemma EnabledIgnoresOperations(s: State, s': State, a: Action)
    requires s.committed == s'.committed && s.sessions == s'.sessions
    ensures Enabled(s, a) == Enabled(s', a)
    ensures Enabled(s, a) && !a.Begin? ==> Act(s, a) == Act(s', a)
  {
  }

  lemma {:induction false} ForeignKeepsSession(s: State, actions: seq<Action>, t: Txn)
    requires t in s.sessions && Foreign(actions, t)
    ensures t in Run(s, actions).sessions && Run(s, actions).sessions[t] == s.sessions[t]
  {
    if actions != [] {
      ForeignKeepsSession(s, actions[..|actions| - 1], t);
    }
  }

  lemma {:induction false} RunConcat(s: State, xs: seq<Action>, ys: seq<Action>)
    ensures Run(s, xs + ys) == Run(Run(s, xs), ys)
    decreases |ys|
  {
    if ys == [] {
      assert xs + ys == xs;
    } else {
      assert (xs + ys)[..|xs + ys| - 1] == xs + ys[..|ys| - 1];
      RunConcat(s, xs, ys[..|ys| - 1]);
    }
  }

  // --- What the three statements of a claim do to the session ---------------------------------------

  lemma GetEffect(s: State, t: Txn, key: Key, requestHash: string)
    requires t in s.sessions && s.sessions[t].step.Ready?
    ensures var (session, s') := (s.sessions[t], Next(s, Get(t, key, requestHash)));
      && s'.committed == s.committed && t in s'.sessions
      && s'.sessions[t] == match Visible(s, t, key)
           case Some(row) => Returned(session, key, row, false)
           case None => session.(step := Inserting(key, requestHash))
  {
  }

  lemma InsertEffect(s: State, t: Txn)
    requires t in s.sessions && s.sessions[t].step.Inserting? && !Blocked(s, t, s.sessions[t].step.key)
    ensures var (session, s') := (s.sessions[t], Next(s, Insert(t)));
      var Inserting(key, requestHash) := session.step;
      var row := Row(t, requestHash, InProgress, None);
      && s'.committed == s.committed && t in s'.sessions
      && s'.sessions[t] ==
           if key in s.committed then session.(step := Lost(key))
           else Returned(session.(pending := session.pending[key := row]), key, row, true)
  {
  }

  lemma ReReadEffect(s: State, t: Txn)
    requires Consistent(s) && t in s.sessions && s.sessions[t].step.Lost?
    ensures var (session, s') := (s.sessions[t], Next(s, ReRead(t)));
      var key := session.step.key;
      && s'.committed == s.committed && t in s'.sessions && key in s.committed
      && Visible(s, t, key) == Some(s.committed[key])
      && s'.sessions[t] == Returned(session, key, s.committed[key], false)
  {
  }

  lemma CompleteEffect(s: State, t: Txn, key: Key, response: Response)
    requires t in s.sessions && s.sessions[t].step.Ready? && Visible(s, t, key).Some?
    ensures var s' := Next(s, Complete(t, key, response));
      if Locked(s, t, key) then s' == s
      else
        var row := CompletedRow(Visible(s, t, key).value, response);
        s' == s.(sessions := s.sessions[t := WithRow(s.sessions[t], key, row)])
  {
  }

  function CompletedRow(row: Row, response: Response): Row {
    Row(row.owner, row.requestHash, Completed, Some(response))
  }

  /** The session with its own version of a row: of one it inserted, or of a committed one. */
  function WithRow(session: Session, key: Key, row: Row): Session {
    if key in session.pending then session.(pending := session.pending[key := row])
    else session.(updates := session.updates[key := row])
  }

  datatype Outcome = Waiting | Returns(row: Row, isNew: bool)

  /** A run is one of these sessions' statements in some order, where the session itself only claims. */
  ghost predicate ClaimsOnly(run: seq<Action>, t: Txn) {
    forall i :: 0 <= i < |run| && run[i].txn == t ==> run[i].Get? || run[i].Insert? || run[i].ReRead?
  }

  /** Committed rows stay those of their requests, and as they are if only owners complete. */
  ghost predicate KeepsCommitted(s: State, run: seq<Action>) {
    && KeepsRequests(s, Run(s, run))
    && (NoRewrites(s) && OnlyOwnersComplete(s, run) ==>
          forall key :: key in s.committed ==> Run(s, run).committed[key] == s.committed[key])
  }

  lemma RunKeepsCommitted(s: State, run: seq<Action>)
    requires Consistent(s)
    ensures KeepsCommitted(s, run)
  {
    forall key | key in s.committed
      ensures key in Run(s, run).committed && SameRequest(Run(s, run).committed[key], s.committed[key])
      ensures NoRewrites(s) && OnlyOwnersComplete(s, run) ==> Run(s, run).committed[key] == s.committed[key]
    {
      CommittedRowsAreFinal(s, run, key);
    }
  }

  class IdempotencyRepository {
    const db: Database
    const session: Txn

    constructor (db: Database, session: Txn)
      ensures this.db == db && this.session == session
    {
      this.db, this.session := db, session;
    }

    predicate IsBlocked(key: Key)
      reads db
    {
      Blocked(State(db.committed, db.sessions, {}), session, key)
    }

    predicate IsLocked(key: Key)
      reads db
    {
      Locked(State(db.committed, db.sessions, {}), session, key)
    }

    /** The record as this session sees it. */
    function Seen(key: Key): Option<Row>
      requires session in db.sessions
      reads db
    {
      Visible(State(db.committed, db.sessions, {}), session, key)
    }

    /** This session's own next statement. */
    method Issue(a: Action, ghost start: State, ghost run: seq<Action>) returns (ghost longer: seq<Action>)
      requires a.txn == session && (a.Get? || a.Insert? || a.ReRead?)
      requires Consistent(start) && db.Contents() == Run(start, run) && ClaimsOnly(run, session)
      modifies db
      ensures db.Contents() == Next(old(db.Contents()), a) == Run(start, longer) && Consistent(db.Contents())
      ensures ClaimsOnly(longer, session) && longer == run + [a]
    {
      longer := run + [a];
      assert longer[..|longer| - 1] == run;
      RunKeepsConsistent(start, longer);
      db.Execute(a);
    }

    /** Statements of other sessions leave this one's state alone. */
    method LetOthersRun(actions: seq<Action>, ghost start: State, ghost run: seq<Action>)
      returns (ghost longer: seq<Action>)
      requires Foreign(actions, session) && session in db.sessions
      requires Consistent(start) && db.Contents() == Run(start, run) && ClaimsOnly(run, session)
      modifies db
      ensures db.Contents() == Run(start, longer) && Consistent(db.Contents())
      ensures ClaimsOnly(longer, session) && longer == run + actions
      ensures session in db.sessions && db.sessions[session] == old(db.sessions)[session]
    {
      longer := run + actions;
      RunConcat(start, run, actions);
      RunKeepsConsistent(start, longer);
      ForeignKeepsSession(db.Contents(), actions, session);
      db.ExecuteAll(actions);
    }

    /** What the last claim of this session returned. */
    function Latest(): Outcome
      requires session in db.sessions && db.sessions[session].claims != []
      reads db
    {
      var claims := db.sessions[session].claims;
      Returns(claims[|claims| - 1].row, claims[|claims| - 1].isNew)
    }

    /** The claim of the source. The statements in `before` fall between the first look-up and the insert,
        those in `during` are executed while the insert waits, those in `after` between losing and the
        second look-up. The claim is still waiting if `during` runs out while the key is held. All statements
        together are one run of the protocol, in which this session looks up and inserts, and nothing more. */
    method Claim(key: Key, requestHash: string, before: seq<Action>, during: seq<Action>, after: seq<Action>)
      returns (outcome: Outcome, ghost run: seq<Action>)
      requires Foreign(before, session) && Foreign(during, session) && Foreign(after, session)
      requires session in db.sessions && db.sessions[session].step.Ready? && Consistent(db.Contents())
      modifies db
      ensures db.Contents() == Run(old(db.Contents()), run) && ClaimsOnly(run, session)
      ensures KeepsCommitted(old(db.Contents()), run) && Consistent(db.Contents()) && session in db.sessions
      ensures outcome.Waiting? ==>
                && db.sessions[session] == old(db.sessions)[session].(step := Inserting(key, requestHash))
                && Blocked(db.Contents(), session, key)
      ensures outcome.Returns? ==>
                && db.sessions[session].step.Ready?
                && db.sessions[session].updates == old(db.sessions)[session].updates
                && db.sessions[session].claims
                   == old(db.sessions)[session].claims + [Claimed(key, outcome.row, outcome.isNew)]
                && Seen(key) == Some(outcome.row)
      ensures outcome.Returns? && outcome.isNew ==>
                && outcome.row == Row(session, requestHash, InProgress, None) && key !in db.committed
                && db.sessions[session].pending == old(db.sessions)[session].pending[key := outcome.row]
      ensures outcome.Returns? && !outcome.isNew ==>
                && db.sessions[session].pending == old(db.sessions)[session].pending
    {
      hide Next, Enabled, Consistent, Blocked, ClaimsOnly, Run, KeepsCommitted;
      ghost var start := db.Contents();
      NoStatementsYet(start);
      run := [];
      GetEffect(start, session, key, requestHash);
      run := Issue(Get(session, key, requestHash), start, run);
      if db.sessions[session].step.Ready? {
        outcome := Latest();
        RunKeepsCommitted(start, run);
        return;
      }
      run := LetOthersRun(before, start, run);
      var i := 0;
      while i < |during| && IsBlocked(key)
        invariant 0 <= i <= |during|
        invariant db.Contents() == Run(start, run) && Consistent(db.Contents()) && ClaimsOnly(run, session)
        invariant session in db.sessions
        invariant db.sessions[session] == start.sessions[session].(step := Inserting(key, requestHash))
      {
        run := LetOthersRun([during[i]], start, run);
        i := i + 1;
      }
      BlockedIgnoresOperations(State(db.committed, db.sessions, {}), db.Contents(), session, key);
      if IsBlocked(key) {
        outcome := Waiting;
        RunKeepsCommitted(start, run);
        return;
      }
      InsertEffect(db.Contents(), session);
      run := Issue(Insert(session), start, run);
      if db.sessions[session].step.Ready? {
        outcome := Latest();
        RunKeepsCommitted(start, run);
        return;
      }
      run := LetOthersRun(after, start, run);
      ReReadEffect(db.Contents(), session);
      run := Issue(ReRead(session), start, run);
      outcome := Latest();
      RunKeepsCommitted(start, run);
    }

    /** Completing a record stores the response on the row as this session sees it, its own or another request's,
        and touches nothing else; until this session commits no other sees that. It waits, changing nothing, while
        another session has rewritten the row. */
    method Complete(key: Key, response: Response) returns (done: bool)
      requires session in db.sessions && db.sessions[session].step.Ready? && Seen(key).Some?
      requires Consistent(db.Contents())
      modifies db
      ensures Consistent(db.Contents()) && db.committed == old(db.committed)
      ensures done <==> !old(IsLocked(key))
      ensures var row := CompletedRow(old(Seen(key)).value, response);
        db.sessions ==
          if done then old(db.sessions)[session := WithRow(old(db.sessions)[session], key, row)] else old(db.sessions)
      ensures done ==> session in db.sessions && Seen(key) == Some(CompletedRow(old(Seen(key)).value, response))
    {
      var a := IdempotencyProtocol.Complete(session, key, response);
      done := !IsLocked(key);
      LockedIgnoresOperations(State(db.committed, db.sessions, {}), db.Contents(), session, key);
      CompleteEffect(db.Contents(), session, key, response);
      NextKeepsConsistent(db.Contents(), a);
      db.Execute(a);
    }
  }

  lemma NoStatementsYet(s: State)
    ensures Run(s, []) == s
    ensures forall t :: ClaimsOnly([], t)
  {
  }
}

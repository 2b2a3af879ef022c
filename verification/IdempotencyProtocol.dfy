/** Request idempotency as interleaved database statements of any number of transactions.

    A claim is a look-up, an insert under the unique index, and after losing it a second look-up. Each
    statement sees every commit before it (READ COMMITTED) and the rows of its own transaction. An insert
    waits while another open transaction holds the key, and completing a record while another has rewritten it. */
module IdempotencyProtocol {
  import opened Wrappers

  type Txn = nat

  datatype Key = Key(principalId: int, scope: string, key: string)

  datatype Status = InProgress | Completed

  datatype Response = Response(json: string, status: int)

  /** The owner stands for the row's identity: it tells apart the rows two requests would insert. */
  datatype Row = Row(owner: Txn, requestHash: string, status: Status, response: Option<Response>)

  datatype Step =
    | Ready
    | Inserting(key: Key, requestHash: string)
    | Lost(key: Key)
    | Raised
    | Ended

  /** What a claim returned. */
  datatype Claimed = Claimed(key: Key, row: Row, isNew: bool)

  /** Its own uncommitted work is the rows it has inserted and the committed rows it has rewritten. */
  datatype Session = Session(step: Step, pending: map<Key, Row>, updates: map<Key, Row>, claims: seq<Claimed>)

  const NEW_SESSION := Session(Ready, map[], map[], [])

  /** The committed table, the transactions, and which transaction's operation committed under which key. */
  datatype State = State(committed: map<Key, Row>, sessions: map<Txn, Session>, operations: set<(Txn, Key)>)

  const EMPTY := State(map[], map[], {})

  datatype Action =
    | Begin(txn: Txn)
    | Get(txn: Txn, key: Key, requestHash: string)
    | Insert(txn: Txn)
    | ReRead(txn: Txn)
    | Complete(txn: Txn, key: Key, response: Response)
    | Commit(txn: Txn)
    | Rollback(txn: Txn)

  // --- Statements -------------------------------------------------------------------------------

  function Visible(s: State, t: Txn, key: Key): Option<Row>
    requires t in s.sessions
  {
    if key in s.sessions[t].pending then Some(s.sessions[t].pending[key])
    else if key in s.sessions[t].updates then Some(s.sessions[t].updates[key])
    else if key in s.committed then Some(s.committed[key])
    else None
  }

  predicate Holds(s: State, t: Txn, key: Key) { t in s.sessions && key in s.sessions[t].pending }

  /** Another open transaction has inserted the key and has not ended. */
  predicate Blocked(s: State, t: Txn, key: Key) {
    key !in s.committed && exists u :: u in s.sessions && u != t && Holds(s, u, key)
  }

  predicate Rewrites(s: State, t: Txn, key: Key) { t in s.sessions && key in s.sessions[t].updates }

  /** Another open transaction has rewritten the row and has not ended. */
  predicate Locked(s: State, t: Txn, key: Key) {
    exists u :: u in s.sessions && u != t && Rewrites(s, u, key)
  }

  predicate Enabled(s: State, a: Action) {
    if a.Begin? then a.txn !in s.sessions
    else a.txn in s.sessions && var session := s.sessions[a.txn]; match a
      case Get(_, _, _) => session.step.Ready?
      case Insert(t) => session.step.Inserting? && !Blocked(s, t, session.step.key)
      case ReRead(_) => session.step.Lost?
      case Complete(t, key, _) => session.step.Ready? && Visible(s, t, key).Some? && !Locked(s, t, key)
      case Commit(_) => session.step.Ready?
      case Rollback(_) => !session.step.Ended?
  }

  function Returned(session: Session, key: Key, row: Row, isNew: bool): Session {
    session.(step := Ready, claims := session.claims + [Claimed(key, row, isNew)])
  }

  /** The acting transaction after a statement that leaves the committed table alone. */
  function Act(s: State, a: Action): Session
    requires !a.Begin? && Enabled(s, a)
  {
    var session := s.sessions[a.txn];
    match a
    case Get(t, key, hash) =>
      (match Visible(s, t, key)
       case Some(row) => Returned(session, key, row, false)
       case None => session.(step := Inserting(key, hash)))
    case Insert(t) =>
      var Inserting(key, hash) := session.step;
      if key in s.committed then session.(step := Lost(key))
      else
        var row := Row(t, hash, InProgress, None);
        Returned(session.(pending := session.pending[key := row]), key, row, true)
    case ReRead(t) =>
      var key := session.step.key;
      (match Visible(s, t, key)
       case Some(row) => Returned(session, key, row, false)
       case None => session.(step := Raised))
    case Complete(t, key, response) =>
      var row := Visible(s, t, key).value.(status := Completed, response := Some(response));
      if key in session.pending then session.(pending := session.pending[key := row])
      else session.(updates := session.updates[key := row])
    case Commit(_) => session.(step := Ended, pending := map[], updates := map[])
    case Rollback(_) => session.(step := Ended, pending := map[], updates := map[])
  }

  /** One statement; a statement that cannot run now changes nothing. */
  function Next(s: State, a: Action): State {
    if !Enabled(s, a) then s
    else if a.Begin? then s.(sessions := s.sessions[a.txn := NEW_SESSION])
    else
      var after := s.(sessions := s.sessions[a.txn := Act(s, a)]);
      if a.Commit? then
        var Session(_, pending, updates, _) := s.sessions[a.txn];
        after.(
          committed := s.committed + pending + updates,
          operations := s.operations + set k | k in pending :: (a.txn, k))
      else after
  }

  function Run(s: State, actions: seq<Action>): State {
    if actions == [] then s else Next(Run(s, actions[..|actions| - 1]), actions[|actions| - 1])
  }

  // --- What every statement keeps ---------------------------------------------------------------

  /** The same request's row, whatever its status. */
  predicate SameRequest(a: Row, b: Row) { a.owner == b.owner && a.requestHash == b.requestHash }

  ghost predicate Consistent(s: State) {
    && (forall t, key :: Holds(s, t, key) ==> key !in s.committed && s.sessions[t].pending[key].owner == t)
    && (forall t, u, key :: Holds(s, t, key) && Holds(s, u, key) ==> t == u)
    && (forall t, key :: Rewrites(s, t, key) ==> RewriteConsistent(s, key, s.sessions[t].updates[key]))
    && (forall t, u, key :: Rewrites(s, t, key) && Rewrites(s, u, key) ==> t == u)
    && (forall t :: t in s.sessions ==> SessionConsistent(s, t))
    && (forall t, key :: (t, key) in s.operations <==> key in s.committed && s.committed[key].owner == t)
  }

  /** A rewrite only completes a committed row: it stays the row of the request that inserted it. */
  ghost predicate RewriteConsistent(s: State, key: Key, row: Row) {
    key in s.committed && SameRequest(s.committed[key], row) && row.status == Completed && row.response.Some?
  }

  ghost predicate SessionConsistent(s: State, t: Txn)
    requires t in s.sessions
  {
    var session := s.sessions[t];
    && !session.step.Raised?
    && (session.step.Lost? ==> session.step.key in s.committed)
    && (session.step.Inserting? ==> session.step.key !in session.pending && session.step.key !in session.updates)
    && (session.step.Lost? ==> session.step.key !in session.pending && session.step.key !in session.updates)
    && (session.step.Ended? ==> session.pending == map[] && session.updates == map[])
    && forall i :: 0 <= i < |session.claims| ==> ClaimConsistent(s, t, session.claims[i])
  }

  /** A claim that came second was given the row of the request that committed, or the caller's own. */
  ghost predicate ClaimConsistent(s: State, t: Txn, c: Claimed) {
    if c.isNew then c.row == Row(t, c.row.requestHash, InProgress, None)
    else c.row.owner == t || (c.key in s.committed && SameRequest(s.committed[c.key], c.row))
  }

  ghost predicate KeepsRequests(s: State, s': State) {
    forall key :: key in s.committed ==> key in s'.committed && SameRequest(s'.committed[key], s.committed[key])
  }

  lemma ClaimsStayConsistent(s: State, s': State, t: Txn)
    requires t in s.sessions && SessionConsistent(s, t) && KeepsRequests(s, s')
    requires t in s'.sessions && s'.sessions[t] == s.sessions[t]
    ensures SessionConsistent(s', t)
  {
  }

  lemma ActKeepsSession(s: State, a: Action)
    requires Consistent(s) && Enabled(s, a) && !a.Begin?
    ensures SessionConsistent(Next(s, a), a.txn)
  {
    hide Blocked, Locked;
    NextKeepsRequests(s, a);
    assert SessionConsistent(s, a.txn);
  }

  lemma NextKeepsRequests(s: State, a: Action)
    requires Consistent(s)
    ensures KeepsRequests(s, Next(s, a))
  {
    if Enabled(s, a) && a.Commit? {
      forall key | key in s.committed
        ensures SameRequest(Next(s, a).committed[key], s.committed[key])
      {
        assert !Holds(s, a.txn, key);
        if Rewrites(s, a.txn, key) {
          assert RewriteConsistent(s, key, s.sessions[a.txn].updates[key]);
        }
      }
    }
  }

  lemma NextKeepsConsistent(s: State, a: Action)
    requires Consistent(s)
    ensures Consistent(Next(s, a))
  {
    hide SessionConsistent, KeepsRequests;
    var s' := Next(s, a);
    if Enabled(s, a) {
      NextKeepsRequests(s, a);
      forall t | t in s'.sessions
        ensures SessionConsistent(s', t)
      {
        if t != a.txn {
          ClaimsStayConsistent(s, s', t);
        } else if a.Begin? {
          NewSessionIsConsistent(s', t);
        } else {
          ActKeepsSession(s, a);
        }
      }
      NextKeepsHoldings(s, a);
      NextKeepsRewrites(s, a);
      NextKeepsOperations(s, a);
    }
  }

  lemma NewSessionIsConsistent(s: State, t: Txn)
    requires t in s.sessions && s.sessions[t] == NEW_SESSION
    ensures SessionConsistent(s, t)
  {
  }

  lemma NextKeepsHoldings(s: State, a: Action)
    requires Consistent(s) && Enabled(s, a)
    ensures var s' := Next(s, a);
      && (forall t, key :: Holds(s', t, key) ==> key !in s'.committed && s'.sessions[t].pending[key].owner == t)
      && (forall t, u, key :: Holds(s', t, key) && Holds(s', u, key) ==> t == u)
  {
    hide SessionConsistent;
    var s' := Next(s, a);
    forall t, key | Holds(s', t, key)
      ensures key !in s'.committed && s'.sessions[t].pending[key].owner == t
      ensures Holds(s, t, key) || (a.Insert? && t == a.txn && key !in s.committed && !Blocked(s, t, key))
    {
      if !Holds(s, t, key) {
        assert a.Insert? && t == a.txn;
      } else if a.Commit? {
        assert t != a.txn && !Holds(s, a.txn, key);
        HeldIsNotRewritten(s, t, a.txn, key);
      }
    }
  }

  lemma HeldIsNotRewritten(s: State, t: Txn, u: Txn, key: Key)
    requires Consistent(s) && Holds(s, t, key)
    ensures !Rewrites(s, u, key)
  {
  }

  lemma NextKeepsRewrites(s: State, a: Action)
    requires Consistent(s) && Enabled(s, a) && KeepsRequests(s, Next(s, a))
    ensures var s' := Next(s, a);
      && (forall t, key :: Rewrites(s', t, key) ==> RewriteConsistent(s', key, s'.sessions[t].updates[key]))
      && (forall t, u, key :: Rewrites(s', t, key) && Rewrites(s', u, key) ==> t == u)
  {
    hide SessionConsistent;
    var s' := Next(s, a);
    forall t, key | Rewrites(s', t, key)
      ensures RewriteConsistent(s', key, s'.sessions[t].updates[key])
      ensures Rewrites(s, t, key) || (a.Complete? && t == a.txn && !Locked(s, t, key))
    {
      if a.Complete? && t == a.txn && key == a.key {
        assert Rewrites(s, t, key) ==> RewriteConsistent(s, key, s.sessions[t].updates[key]);
      } else {
        assert RewriteConsistent(s, key, s.sessions[t].updates[key]);
      }
    }
  }

  lemma NextKeepsOperations(s: State, a: Action)
    requires Consistent(s) && Enabled(s, a)
    ensures var s' := Next(s, a);
      forall t, key :: (t, key) in s'.operations <==> key in s'.committed && s'.committed[key].owner == t
  {
    hide SessionConsistent;
    if a.Commit? {
      forall key | Rewrites(s, a.txn, key)
        ensures RewriteConsistent(s, key, s.sessions[a.txn].updates[key])
      {
      }
    }
  }

  lemma {:induction false} RunKeepsConsistent(s: State, actions: seq<Action>)
    requires Consistent(s)
    ensures Consistent(Run(s, actions))
  {
    if actions != [] {
      RunKeepsConsistent(s, actions[..|actions| - 1]);
      NextKeepsConsistent(Run(s, actions[..|actions| - 1]), actions[|actions| - 1]);
    }
  }

  lemma EmptyIsConsistent()
    ensures Consistent(EMPTY)
  {
  }

  // --- Whole runs -------------------------------------------------------------------------------

  /** In every interleaving of any number of requests, at most one operation commits under a key, and it
      is the one whose row is stored. */
  lemma OneOperationPerKey(actions: seq<Action>, t: Txn, u: Txn, key: Key)
    ensures var s := Run(EMPTY, actions);
      && ((t, key) in s.operations && (u, key) in s.operations ==> t == u)
      && ((t, key) in s.operations <==> key in s.committed && s.committed[key].owner == t)
  {
    EmptyIsConsistent();
    RunKeepsConsistent(EMPTY, actions);
  }

  /** The second look-up after a lost insert always finds the winner: no claim re-raises. */
  lemma NeverRaises(actions: seq<Action>, t: Txn)
    ensures var s := Run(EMPTY, actions); t in s.sessions ==> !s.sessions[t].step.Raised?
  {
    EmptyIsConsistent();
    RunKeepsConsistent(EMPTY, actions);
    if t in Run(EMPTY, actions).sessions {
      assert SessionConsistent(Run(EMPTY, actions), t);
    }
  }

  // --- The callers' two duties ------------------------------------------------------------------

  predicate AllCompleted(rows: map<Key, Row>) {
    forall key :: key in rows ==> rows[key].status == Completed && rows[key].response.Some?
  }

  /** The duty of a claim's owner: every key it holds is completed when it commits. */
  predicate CommitsCompleted(s: State, a: Action) {
    a.Commit? && Enabled(s, a) ==> AllCompleted(s.sessions[a.txn].pending)
  }

  /** The duty of everyone else: to replay the record, and not to complete it again. */
  predicate CompletesOwn(s: State, a: Action) {
    a.Complete? && Enabled(s, a) ==> Holds(s, a.txn, a.key)
  }

  ghost predicate OwnersComplete(actions: seq<Action>) {
    forall n :: 0 <= n < |actions| ==> CommitsCompleted(Run(EMPTY, actions[..n]), actions[n])
  }

  ghost predicate OnlyOwnersComplete(s: State, actions: seq<Action>) {
    forall n :: 0 <= n < |actions| ==> CompletesOwn(Run(s, actions[..n]), actions[n])
  }

  predicate NoRewrites(s: State) { forall t :: t in s.sessions ==> s.sessions[t].updates == map[] }

  lemma OnlyOwnersCompleteStep(s: State, actions: seq<Action>)
    requires actions != []
    ensures var (earlier, last) := (actions[..|actions| - 1], actions[|actions| - 1]);
      OnlyOwnersComplete(s, actions) <==> OnlyOwnersComplete(s, earlier) && CompletesOwn(Run(s, earlier), last)
  {
    hide CompletesOwn, Run;
    var earlier, last := actions[..|actions| - 1], actions[|actions| - 1];
    assert forall n :: 0 <= n < |earlier| ==> earlier[..n] == actions[..n] && earlier[n] == actions[n];
    if OnlyOwnersComplete(s, actions) {
      forall n | 0 <= n < |earlier|
        ensures CompletesOwn(Run(s, earlier[..n]), earlier[n])
      {
        assert CompletesOwn(Run(s, actions[..n]), actions[n]);
      }
      assert CompletesOwn(Run(s, actions[..|actions| - 1]), last);
    }
  }

  lemma OwnersCompleteStep(actions: seq<Action>)
    requires actions != []
    ensures var (earlier, last) := (actions[..|actions| - 1], actions[|actions| - 1]);
      OwnersComplete(actions) <==> OwnersComplete(earlier) && CommitsCompleted(Run(EMPTY, earlier), last)
  {
    hide CommitsCompleted, Run;
    var earlier, last := actions[..|actions| - 1], actions[|actions| - 1];
    assert forall n :: 0 <= n < |earlier| ==> earlier[..n] == actions[..n] && earlier[n] == actions[n];
    if OwnersComplete(actions) {
      forall n | 0 <= n < |earlier|
        ensures CommitsCompleted(Run(EMPTY, earlier[..n]), earlier[n])
      {
        assert CommitsCompleted(Run(EMPTY, actions[..n]), actions[n]);
      }
      assert CommitsCompleted(Run(EMPTY, actions[..|actions| - 1]), last);
    }
  }

  lemma NextKeepsNoRewrites(s: State, a: Action)
    requires NoRewrites(s) && CompletesOwn(s, a)
    ensures NoRewrites(Next(s, a))
  {
  }

  lemma {:induction false} RunKeepsNoRewrites(s: State, actions: seq<Action>)
    requires NoRewrites(s) && OnlyOwnersComplete(s, actions)
    ensures NoRewrites(Run(s, actions))
  {
    if actions != [] {
      OnlyOwnersCompleteStep(s, actions);
      RunKeepsNoRewrites(s, actions[..|actions| - 1]);
      NextKeepsNoRewrites(Run(s, actions[..|actions| - 1]), actions[|actions| - 1]);
    }
  }

  /** One statement changes a committed row exactly when it commits a different rewrite of it. */
  lemma CommittedRowChangesIff(s: State, a: Action, key: Key)
    requires Consistent(s) && key in s.committed
    ensures key in Next(s, a).committed
    ensures Next(s, a).committed[key] != s.committed[key] <==>
      && a.Commit? && Enabled(s, a) && Rewrites(s, a.txn, key)
      && s.sessions[a.txn].updates[key] != s.committed[key]
  {
    assert !Holds(s, a.txn, key);
  }

  /** No later statement drops a committed row or makes it another request's. As long as only owners complete,
      none changes it at all, so every replay returns the same response. */
  lemma {:induction false} CommittedRowsAreFinal(s: State, actions: seq<Action>, key: Key)
    requires Consistent(s) && key in s.committed
    ensures key in Run(s, actions).committed && SameRequest(Run(s, actions).committed[key], s.committed[key])
    ensures NoRewrites(s) && OnlyOwnersComplete(s, actions) ==> Run(s, actions).committed[key] == s.committed[key]
  {
    hide Consistent, NoRewrites, OnlyOwnersComplete, CompletesOwn, Next;
    if actions != [] {
      var earlier, last := actions[..|actions| - 1], actions[|actions| - 1];
      CommittedRowsAreFinal(s, earlier, key);
      RunKeepsConsistent(s, earlier);
      NextKeepsRequests(Run(s, earlier), last);
      CommittedRowChangesIff(Run(s, earlier), last, key);
      OnlyOwnersCompleteStep(s, actions);
      if NoRewrites(s) && OnlyOwnersComplete(s, actions) {
        RunKeepsNoRewrites(s, earlier);
        NothingRewritten(Run(s, earlier), last.txn, key);
      }
    }
  }

  lemma NothingRewritten(s: State, t: Txn, key: Key)
    requires NoRewrites(s)
    ensures !Rewrites(s, t, key)
  {
  }

  /** Without that duty the promise fails: whoever completes a record it does not own replaces the response that
      was replayed so far, though the operation stays the owner's. */
  lemma CompletingAnothersRecordReplacesResponse(s: State, t: Txn, key: Key, response: Response)
    requires Consistent(s) && t in s.sessions && s.sessions[t].step.Ready?
    requires key in s.committed && !Locked(s, t, key)
    ensures var s' := Next(Next(s, Complete(t, key, response)), Commit(t));
      && key in s'.committed
      && s'.committed[key] == s.committed[key].(status := Completed, response := Some(response))
      && forall u :: (u, key) in s'.operations <==> (u, key) in s.operations
  {
    assert !Holds(s, t, key);
    assert Rewrites(s, t, key) ==> RewriteConsistent(s, key, s.sessions[t].updates[key]);
    var between := Next(s, Complete(t, key, response));
    NextKeepsConsistent(s, Complete(t, key, response));
    NextKeepsConsistent(between, Commit(t));
    NextKeepsRequests(between, Commit(t));
  }

  // --- Owners complete before they commit -------------------------------------------------------

  /** If every owner did its duty before committing, every committed row is completed. If only owners complete,
      there is no other way. */
  lemma {:induction false} CommittedRowsCompletedIff(actions: seq<Action>)
    ensures OwnersComplete(actions) ==> AllCompleted(Run(EMPTY, actions).committed)
    ensures OnlyOwnersComplete(EMPTY, actions) ==>
      (AllCompleted(Run(EMPTY, actions).committed) <==> OwnersComplete(actions))
  {
    hide Consistent, NoRewrites, OnlyOwnersComplete, OwnersComplete, CompletesOwn, CommitsCompleted, AllCompleted, Next;
    if actions == [] {
      NothingCommitted();
    } else {
      var earlier, last := actions[..|actions| - 1], actions[|actions| - 1];
      var s := Run(EMPTY, earlier);
      CommittedRowsCompletedIff(earlier);
      EmptyIsConsistent();
      RunKeepsConsistent(EMPTY, earlier);
      OwnersCompleteStep(actions);
      OnlyOwnersCompleteStep(EMPTY, actions);
      CompletedStep(s, last);
      if OnlyOwnersComplete(EMPTY, actions) {
        EmptyHasNoRewrites();
        RunKeepsNoRewrites(EMPTY, earlier);
      }
    }
  }

  lemma NothingCommitted()
    ensures OwnersComplete([]) && AllCompleted(EMPTY.committed)
  {
  }

  lemma EmptyHasNoRewrites()
    ensures NoRewrites(EMPTY)
  {
  }

  lemma CompletedStep(s: State, a: Action)
    requires Consistent(s)
    ensures AllCompleted(s.committed) && CommitsCompleted(s, a) ==> AllCompleted(Next(s, a).committed)
    ensures NoRewrites(s) ==>
      (AllCompleted(Next(s, a).committed) <==> AllCompleted(s.committed) && CommitsCompleted(s, a))
  {
    hide SessionConsistent, Blocked, Locked, Act;
    if a.Commit? && Enabled(s, a) {
      forall key | Rewrites(s, a.txn, key)
        ensures RewriteConsistent(s, key, s.sessions[a.txn].updates[key])
      {
      }
      if NoRewrites(s) {
        CommitAddsPending(s, a);
      }
    }
  }

  lemma CommitAddsPending(s: State, a: Action)
    requires Consistent(s) && NoRewrites(s) && a.Commit? && Enabled(s, a)
    ensures Next(s, a).committed == s.committed + s.sessions[a.txn].pending
    ensures forall key :: key in s.sessions[a.txn].pending ==> key !in s.committed
  {
    forall key | key in s.sessions[a.txn].pending
      ensures key !in s.committed
    {
      assert Holds(s, a.txn, key);
    }
  }

  // --- Replays ----------------------------------------------------------------------------------

  /** A claim that came second holds the committed row itself, or the caller's own. */
  ghost predicate ClaimExact(s: State, t: Txn, c: Claimed) {
    !c.isNew && c.row.owner != t ==> c.key in s.committed && s.committed[c.key] == c.row
  }

  ghost predicate ClaimsExact(s: State) {
    forall t, i :: t in s.sessions && 0 <= i < |s.sessions[t].claims| ==> ClaimExact(s, t, s.sessions[t].claims[i])
  }

  lemma NextKeepsClaimsExact(s: State, a: Action)
    requires Consistent(s) && NoRewrites(s) && ClaimsExact(s)
    ensures ClaimsExact(Next(s, a))
  {
    hide SessionConsistent, Consistent, NoRewrites;
    var s' := Next(s, a);
    forall key | key in s.committed
      ensures key in s'.committed && s'.committed[key] == s.committed[key]
    {
      CommittedRowChangesIff(s, a, key);
      NothingRewritten(s, a.txn, key);
    }
    forall t, i | t in s'.sessions && 0 <= i < |s'.sessions[t].claims|
      ensures ClaimExact(s', t, s'.sessions[t].claims[i])
    {
      if t in s.sessions && i < |s.sessions[t].claims| {
        assert ClaimExact(s, t, s.sessions[t].claims[i]);
      } else {
        NewClaimIsExact(s, a);
      }
    }
  }

  lemma NewClaimIsExact(s: State, a: Action)
    requires Consistent(s) && NoRewrites(s) && Enabled(s, a) && !a.Begin?
    ensures var (before, after) := (s.sessions[a.txn].claims, Act(s, a).claims);
      && before <= after && |after| <= |before| + 1
      && (|before| < |after| ==> !a.Commit? && ClaimExact(s, a.txn, after[|before|]))
  {
  }

  lemma {:induction false} RunKeepsClaimsExact(actions: seq<Action>)
    requires OnlyOwnersComplete(EMPTY, actions)
    ensures Consistent(Run(EMPTY, actions)) && NoRewrites(Run(EMPTY, actions)) && ClaimsExact(Run(EMPTY, actions))
  {
    EmptyIsConsistent();
    EmptyHasNoRewrites();
    RunKeepsConsistent(EMPTY, actions);
    RunKeepsNoRewrites(EMPTY, actions);
    if actions != [] {
      OnlyOwnersCompleteStep(EMPTY, actions);
      RunKeepsClaimsExact(actions[..|actions| - 1]);
      NextKeepsClaimsExact(Run(EMPTY, actions[..|actions| - 1]), actions[|actions| - 1]);
    }
  }

  /** A claim that came second got a record of the request whose operation committed under the key, and still
      has in every continuation; the only other case is a key the caller itself claimed in the same transaction. */
  lemma LosersSeeTheWinner(actions: seq<Action>, later: seq<Action>, t: Txn, i: nat)
    requires var s := Run(EMPTY, actions);
      t in s.sessions && i < |s.sessions[t].claims| && !s.sessions[t].claims[i].isNew
    ensures var (s, s') := (Run(EMPTY, actions), Run(Run(EMPTY, actions), later));
      var claim := s.sessions[t].claims[i];
      claim.row.owner == t
      || (&& claim.key in s'.committed && SameRequest(s'.committed[claim.key], claim.row)
          && (claim.row.owner, claim.key) in s.operations)
  {
    hide Run, Next;
    var s := Run(EMPTY, actions);
    var claim := s.sessions[t].claims[i];
    EmptyIsConsistent();
    RunKeepsConsistent(EMPTY, actions);
    assert SessionConsistent(s, t) && ClaimConsistent(s, t, claim);
    if claim.row.owner != t {
      CommittedRowsAreFinal(s, later, claim.key);
    }
  }

  /** When both duties are done, that record is the winner's committed and completed row, and the row stays as
      it is in every continuation. */
  lemma LosersReplayTheWinner(actions: seq<Action>, later: seq<Action>, t: Txn, i: nat)
    requires OwnersComplete(actions) && OnlyOwnersComplete(EMPTY, actions)
    requires OnlyOwnersComplete(Run(EMPTY, actions), later)
    requires var s := Run(EMPTY, actions);
      t in s.sessions && i < |s.sessions[t].claims| && !s.sessions[t].claims[i].isNew
    ensures var (s, s') := (Run(EMPTY, actions), Run(Run(EMPTY, actions), later));
      var claim := s.sessions[t].claims[i];
      claim.row.owner == t
      || (&& claim.key in s'.committed && s'.committed[claim.key] == claim.row
          && claim.row.status == Completed && claim.row.response.Some?
          && (claim.row.owner, claim.key) in s.operations)
  {
    hide Run, Next, Consistent, NoRewrites, OnlyOwnersComplete, OwnersComplete;
    var s := Run(EMPTY, actions);
    var claim := s.sessions[t].claims[i];
    CommittedRowsCompletedIff(actions);
    RunKeepsClaimsExact(actions);
    LosersSeeTheWinner(actions, later, t, i);
    assert ClaimExact(s, t, claim);
    if claim.row.owner != t {
      CommittedRowsAreFinal(s, later, claim.key);
    }
  }

  // --- Waiting on another transaction -----------------------------------------------------------

  ghost predicate WaitsOn(s: State, u: Txn, t: Txn) {
    u in s.sessions && u != t && s.sessions[u].step.Inserting? && Holds(s, t, s.sessions[u].step.key)
  }

  lemma OnlyHolderBlocks(s: State, u: Txn, t: Txn, v: Txn)
    requires Consistent(s) && WaitsOn(s, u, t)
    ensures Holds(s, v, s.sessions[u].step.key) ==> v == t
    ensures !s.sessions[t].step.Ended? && s.sessions[u].step.key !in s.committed && !Enabled(s, Insert(u))
  {
  }

  /** A rolled-back owner frees its key: the transaction waiting to insert it becomes the owner. */
  lemma RollbackFreesKey(s: State, u: Txn, t: Txn)
    requires Consistent(s) && WaitsOn(s, u, t)
    ensures var (key, hash) := (s.sessions[u].step.key, s.sessions[u].step.requestHash);
      var s' := Next(Next(s, Rollback(t)), Insert(u));
      var row := Row(u, hash, InProgress, None);
      && u in s'.sessions && s'.committed == s.committed
      && s'.sessions[u].pending == s.sessions[u].pending[key := row]
      && s'.sessions[u].claims == s.sessions[u].claims + [Claimed(key, row, true)]
  {
    var key, freed := s.sessions[u].step.key, Next(s, Rollback(t));
    OnlyHolderBlocks(s, u, t, t);
    forall v | v != u
      ensures !Holds(freed, v, key)
    {
      OnlyHolderBlocks(s, u, t, v);
    }
    assert !Blocked(freed, u, key);
  }

  /** A committed owner answers it: the waiting insert loses, and the second look-up returns the owner's row. */
  lemma CommitAnswersWaiter(s: State, u: Txn, t: Txn)
    requires Consistent(s) && WaitsOn(s, u, t) && s.sessions[t].step.Ready?
    ensures var key := s.sessions[u].step.key;
      var s' := Next(Next(Next(s, Commit(t)), Insert(u)), ReRead(u));
      && u in s'.sessions && s'.sessions[u].pending == s.sessions[u].pending
      && s'.sessions[u].claims == s.sessions[u].claims + [Claimed(key, s.sessions[t].pending[key], false)]
  {
  }

  /** A session waits to complete a record while another has rewritten it, never on its own account, and
      no longer once the other has ended. */
  lemma CompletingWaitsForRewriter(s: State, t: Txn, u: Txn, key: Key, response: Response)
    requires Consistent(s) && Rewrites(s, u, key) && t in s.sessions && s.sessions[t].step.Ready?
    ensures t != u ==> Next(s, Complete(t, key, response)) == s
    ensures t != u ==> Enabled(Next(s, Rollback(u)), Complete(t, key, response))
    ensures t != u && s.sessions[u].step.Ready? ==> Enabled(Next(s, Commit(u)), Complete(t, key, response))
    ensures t == u ==> Enabled(s, Complete(t, key, response))
  {
    assert RewriteConsistent(s, key, s.sessions[u].updates[key]);
    assert SessionConsistent(s, u);
    EndingUnlocks(s, t, u, key, Rollback(u));
    if s.sessions[u].step.Ready? {
      EndingUnlocks(s, t, u, key, Commit(u));
    }
  }

  lemma EndingUnlocks(s: State, t: Txn, u: Txn, key: Key, a: Action)
    requires Consistent(s) && Rewrites(s, u, key) && a.txn == u && (a.Commit? || a.Rollback?) && Enabled(s, a)
    ensures !Locked(Next(s, a), t, key)
  {
    var s' := Next(s, a);
    forall w | w in s'.sessions
      ensures !Rewrites(s', w, key)
    {
      assert w != u ==> s'.sessions[w] == s.sessions[w] && !Rewrites(s, w, key);
    }
  }

  // --- A replay, from beginning to end ----------------------------------------------------------

  /** Two requests under one key: the second looks it up while the first holds it, waits, loses, and is given
      what the first committed. */
  function TwoRequests(t: Txn, u: Txn, key: Key, hash: string, hash': string, response: Response): seq<Action> {
    [Begin(t), Get(t, key, hash), Insert(t), Begin(u), Get(u, key, hash'), Insert(u),
     Complete(t, key, response), Commit(t), Insert(u), ReRead(u), Commit(u)]
  }

  lemma SecondRequestReplays(t: Txn, u: Txn, key: Key, hash: string, hash': string, response: Response)
    requires t != u
    ensures var s := Run(EMPTY, TwoRequests(t, u, key, hash, hash', response));
      var row := Row(t, hash, Completed, Some(response));
      && s.committed == map[key := row] && s.operations == {(t, key)}
      && t in s.sessions && s.sessions[t].claims == [Claimed(key, Row(t, hash, InProgress, None), true)]
      && u in s.sessions && s.sessions[u].claims == [Claimed(key, row, false)]
  {
    hide Next;
    var actions := TwoRequests(t, u, key, hash, hash', response);
    for k := 0 to 11
      invariant Run(EMPTY, actions[..k]) == Stage(k, t, u, key, hash, hash', response)
    {
      assert actions[..k + 1][..k] == actions[..k];
      StageFollows(k, t, u, key, hash, hash', response);
    }
    assert actions[..11] == actions;
  }

  /** The state after the first `k` of those statements. */
  function Stage(k: nat, t: Txn, u: Txn, key: Key, hash: string, hash': string, response: Response): State {
    var claimed, done := Row(t, hash, InProgress, None), Row(t, hash, Completed, Some(response));
    var own := [Claimed(key, claimed, true)];
    var first :=
      if k == 1 then NEW_SESSION
      else if k == 2 then Session(Inserting(key, hash), map[], map[], [])
      else if k < 7 then Session(Ready, map[key := claimed], map[], own)
      else if k == 7 then Session(Ready, map[key := done], map[], own)
      else Session(Ended, map[], map[], own);
    var second :=
      if k == 4 then NEW_SESSION
      else if k < 9 then Session(Inserting(key, hash'), map[], map[], [])
      else if k == 9 then Session(Lost(key), map[], map[], [])
      else Session(if k == 10 then Ready else Ended, map[], map[], [Claimed(key, done, false)]);
    State(
      if k < 8 then map[] else map[key := done],
      if k == 0 then map[] else if k < 4 then map[t := first] else map[t := first, u := second],
      if k < 8 then {} else {(t, key)})
  }

  lemma StageFollows(k: nat, t: Txn, u: Txn, key: Key, hash: string, hash': string, response: Response)
    requires t != u && k < 11
    ensures Stage(k + 1, t, u, key, hash, hash', response)
      == Next(Stage(k, t, u, key, hash, hash', response), TwoRequests(t, u, key, hash, hash', response)[k])
  {
    var s, a := Stage(k, t, u, key, hash, hash', response), TwoRequests(t, u, key, hash, hash', response)[k];
    var s', next := Next(s, a), Stage(k + 1, t, u, key, hash, hash', response);
    if k == 5 {
      assert Holds(s, t, key) && Blocked(s, u, key);
    } else {
      assert k == 2 || k == 8 ==> !Blocked(s, a.txn, key);
      assert k == 6 ==> !Locked(s, t, key);
      assert k == 7 ==> s.sessions[t].pending.Keys == {key};
      assert Enabled(s, a);
      assert s'.sessions[a.txn] == next.sessions[a.txn];
      assert s'.sessions == next.sessions && s'.committed == next.committed && s'.operations == next.operations;
    }
  }
}

/** The append-only audit log and its hash chain. The digest is any function from text to text; nothing
    is assumed about collisions: results that need their absence exhibit one, or are stated for a log without. */
module AuditChain {
  import opened Wrappers

  datatype Entry = Entry(
    occurredAt: int, actor: string, action: string, target: Option<string>,
    prevHash: Option<string>, entryHash: string)

  type Digest = string -> string

  function OrEmpty(text: Option<string>): string {
    match text case Some(value) => value case None => ""
  }

  function Canonical(prev: Option<string>, actor: string, action: string, target: Option<string>): string {
    OrEmpty(prev) + "|" + actor + "|" + action + "|" + OrEmpty(target)
  }

  function EntryHash(digest: Digest, prev: Option<string>, actor: string, action: string,
      target: Option<string>): string {
    digest(Canonical(prev, actor, action, target))
  }

  function CanonicalOf(e: Entry): string { Canonical(e.prevHash, e.actor, e.action, e.target) }

  // --- The encoding -----------------------------------------------------------------------------

  predicate PipeFree(s: string) { '|' !in s }

  /** A hexadecimal digest is never empty and never contains the separator. */
  ghost predicate PlainDigest(digest: Digest) {
    forall s :: digest(s) != "" && PipeFree(digest(s))
  }

  lemma SplitAtFirstPipe(a: string, rest: string, b: string, rest': string)
    requires PipeFree(a) && PipeFree(b)
    requires a + "|" + rest == b + "|" + rest'
    ensures a == b && rest == rest'
  {
    var left, right := a + "|" + rest, b + "|" + rest';
    assert forall i :: 0 <= i < |a| ==> left[i] == a[i] && a[i] != '|';
    assert forall i :: 0 <= i < |b| ==> left[i] == b[i] && b[i] != '|';
    assert left[|a|] == '|' && right[|b|] == '|';
    assert a == left[..|a|] && b == right[..|a|];
    assert rest == left[|a| + 1..] && rest' == right[|a| + 1..];
  }

  /** The canonical text determines the fields it joins, as long as only the last may contain a pipe. */
  lemma CanonicalInjective(p: Option<string>, actor: string, action: string, target: Option<string>,
                           p': Option<string>, actor': string, action': string, target': Option<string>)
    requires PipeFree(OrEmpty(p)) && PipeFree(actor) && PipeFree(action)
    requires PipeFree(OrEmpty(p')) && PipeFree(actor') && PipeFree(action')
    requires Canonical(p, actor, action, target) == Canonical(p', actor', action', target')
    ensures OrEmpty(p) == OrEmpty(p') && actor == actor' && action == action' && OrEmpty(target) == OrEmpty(target')
  {
    var inner, inner' := action + "|" + OrEmpty(target), action' + "|" + OrEmpty(target');
    CanonicalNested(p, actor, action, target);
    CanonicalNested(p', actor', action', target');
    SplitAtFirstPipe(OrEmpty(p), actor + "|" + inner, OrEmpty(p'), actor' + "|" + inner');
    SplitAtFirstPipe(actor, inner, actor', inner');
    SplitAtFirstPipe(action, OrEmpty(target), action', OrEmpty(target'));
  }

  /** The text that is hashed, in full: the four fields in this order with pipes between, absent ones empty. */
  lemma CanonicalText(prev: string, actor: string, action: string, target: string)
    ensures Canonical(Some(prev), actor, action, Some(target)) == prev + "|" + actor + "|" + action + "|" + target
    ensures Canonical(None, actor, action, Some(target)) == "|" + actor + "|" + action + "|" + target
    ensures Canonical(Some(prev), actor, action, None) == prev + "|" + actor + "|" + action + "|"
    ensures Canonical(None, actor, action, None) == "|" + actor + "|" + action + "|"
  {
  }

  lemma CanonicalNested(p: Option<string>, actor: string, action: string, target: Option<string>)
    ensures Canonical(p, actor, action, target) == OrEmpty(p) + "|" + (actor + "|" + (action + "|" + OrEmpty(target)))
  {
  }

  ghost predicate Ambiguous(actor: string, action: string, target: string) {
    exists actor', action', target' ::
      (actor', action', target') != (actor, action, target)
      && actor' + "|" + action' + "|" + target' == actor + "|" + action + "|" + target
  }

  /** Without that restriction the fields can be told apart exactly when none of the three has a pipe. */
  lemma AmbiguousIffPipe(actor: string, action: string, target: string)
    ensures Ambiguous(actor, action, target) <==> !PipeFree(actor) || !PipeFree(action) || !PipeFree(target)
  {
    var text := actor + "|" + action + "|" + target;
    if !PipeFree(actor) {
      var left, right := SplitAtPipe(actor);
      SecondReading(actor, action, target, left, right, action + "|" + target);
    } else if !PipeFree(action) {
      var left, right := SplitAtPipe(action);
      SecondReading(actor, action, target, actor, left, right + "|" + target);
    } else if !PipeFree(target) {
      var left, right := SplitAtPipe(target);
      assert |action + "|" + left| > |action|;
      SecondReading(actor, action, target, actor, action + "|" + left, right);
    } else {
      forall actor', action', target' | actor' + "|" + action' + "|" + target' == text
        ensures (actor', action', target') == (actor, action, target)
      {
        PlainFieldsHaveOneReading(actor, action, target, actor', action', target');
      }
    }
  }

  lemma SplitAtPipe(s: string) returns (left: string, right: string)
    requires !PipeFree(s)
    ensures s == left + "|" + right && |left| < |s|
  {
    var i :| 0 <= i < |s| && s[i] == '|';
    left, right := s[..i], s[i + 1..];
  }

  lemma SecondReading(actor: string, action: string, target: string, actor': string, action': string, target': string)
    requires actor' != actor || action' != action
    requires actor' + "|" + action' + "|" + target' == actor + "|" + action + "|" + target
    ensures Ambiguous(actor, action, target)
  {
  }

  lemma PlainFieldsHaveOneReading(actor: string, action: string, target: string, actor': string, action': string,
      target': string)
    requires PipeFree(actor) && PipeFree(action) && PipeFree(target)
    requires actor' + "|" + action' + "|" + target' == actor + "|" + action + "|" + target
    ensures actor' == actor && action' == action && target' == target
  {
    var text, first := actor' + "|" + action' + "|" + target', actor + "|" + (action + "|" + target);
    assert text == first;
    var second := |actor'| + 1 + |action'|;
    assert text[|actor'|] == '|' && text[second] == '|';
    assert forall i :: 0 <= i < |text| && i != |actor| && i != |actor| + 1 + |action| ==> text[i] != '|';
    assert actor' == text[..|actor|] == actor;
    assert action' == text[|actor| + 1..second] == action;
    assert target' == text[second + 1..] == target;
  }

  // --- The chain --------------------------------------------------------------------------------

  function LastHash(log: seq<Entry>): Option<string> {
    if log == [] then None else Some(log[|log| - 1].entryHash)
  }

  predicate Linked(digest: Digest, log: seq<Entry>, i: nat)
    requires i < |log|
  {
    log[i].prevHash == LastHash(log[..i]) && log[i].entryHash == digest(CanonicalOf(log[i]))
  }

  predicate WellLinked(digest: Digest, log: seq<Entry>) {
    forall i :: 0 <= i < |log| ==> Linked(digest, log, i)
  }

  predicate PlainFields(log: seq<Entry>) {
    forall i :: 0 <= i < |log| ==> PipeFree(log[i].actor) && PipeFree(log[i].action)
  }

  predicate SameRecord(a: Entry, b: Entry) {
    && a.actor == b.actor && a.action == b.action && OrEmpty(a.target) == OrEmpty(b.target)
    && a.prevHash == b.prevHash && a.entryHash == b.entryHash
  }

  predicate SameHistory(a: seq<Entry>, b: seq<Entry>) {
    |a| == |b| && forall i :: 0 <= i < |a| ==> SameRecord(a[i], b[i])
  }

  /** Two different texts hashed in these very logs that have the same digest. */
  ghost predicate CollisionBetween(digest: Digest, a: seq<Entry>, b: seq<Entry>) {
    exists i, j :: 0 <= i < |a| && 0 <= j < |b|
      && CanonicalOf(a[i]) != CanonicalOf(b[j]) && digest(CanonicalOf(a[i])) == digest(CanonicalOf(b[j]))
  }

  lemma PrefixLinked(digest: Digest, log: seq<Entry>)
    requires log != [] && WellLinked(digest, log)
    ensures WellLinked(digest, log[..|log| - 1])
    ensures log[|log| - 1].prevHash == LastHash(log[..|log| - 1])
  {
    var shorter := log[..|log| - 1];
    assert Linked(digest, log, |log| - 1);
    forall i | 0 <= i < |shorter|
      ensures Linked(digest, shorter, i)
    {
      assert Linked(digest, log, i);
      assert shorter[..i] == log[..i];
    }
  }

  lemma LastHashPlain(digest: Digest, log: seq<Entry>)
    requires PlainDigest(digest) && WellLinked(digest, log)
    ensures PipeFree(OrEmpty(LastHash(log))) && (OrEmpty(LastHash(log)) == "" <==> log == [])
  {
    if log != [] {
      assert Linked(digest, log, |log| - 1);
    }
  }

  /** Two well-linked logs that end in the same hash hold the same records in the same order, unless
      two different texts among those hashed in them collide. */
  lemma {:induction false} SameTipSameHistory(digest: Digest, a: seq<Entry>, b: seq<Entry>)
    requires PlainDigest(digest)
    requires WellLinked(digest, a) && WellLinked(digest, b) && PlainFields(a) && PlainFields(b)
    requires LastHash(a) == LastHash(b)
    ensures SameHistory(a, b) || CollisionBetween(digest, a, b)
    ensures CollisionBetween(digest, a, b)
      || (|a| == |b| && forall i :: 0 <= i < |a| ==>
            && a[i].actor == b[i].actor && a[i].action == b[i].action && OrEmpty(a[i].target) == OrEmpty(b[i].target)
            && a[i].prevHash == b[i].prevHash && a[i].entryHash == b[i].entryHash)
  {
    if a == [] || b == [] {
      return;
    }
    var m, n := |a| - 1, |b| - 1;
    var x, y, a', b' := a[m], b[n], a[..m], b[..n];
    assert Linked(digest, a, m) && Linked(digest, b, n);
    if CanonicalOf(x) == CanonicalOf(y) {
      PrefixLinked(digest, a);
      PrefixLinked(digest, b);
      LastHashPlain(digest, a');
      LastHashPlain(digest, b');
      CanonicalInjective(x.prevHash, x.actor, x.action, x.target, y.prevHash, y.actor, y.action, y.target);
      SameTipSameHistory(digest, a', b');
      if SameHistory(a', b') {
        SameHistoryGrows(a, b);
      } else {
        CollisionGrows(digest, a, b);
      }
    }
  }

  lemma SameHistoryGrows(a: seq<Entry>, b: seq<Entry>)
    requires a != [] && b != [] && SameHistory(a[..|a| - 1], b[..|b| - 1]) && SameRecord(a[|a| - 1], b[|b| - 1])
    ensures SameHistory(a, b)
  {
  }

  lemma CollisionGrows(digest: Digest, a: seq<Entry>, b: seq<Entry>)
    requires a != [] && b != [] && CollisionBetween(digest, a[..|a| - 1], b[..|b| - 1])
    ensures CollisionBetween(digest, a, b)
  {
  }

  /** Conversely the tip depends on nothing but the records: not on when they occurred, nor on whether
      an empty target was stored as empty or as absent. */
  lemma {:induction false} SameFieldsSameTip(digest: Digest, a: seq<Entry>, b: seq<Entry>)
    requires WellLinked(digest, a) && WellLinked(digest, b) && |a| == |b|
    requires forall i :: 0 <= i < |a| ==>
      a[i].actor == b[i].actor && a[i].action == b[i].action && OrEmpty(a[i].target) == OrEmpty(b[i].target)
    ensures LastHash(a) == LastHash(b)
  {
    if a != [] {
      PrefixLinked(digest, a);
      PrefixLinked(digest, b);
      SameFieldsSameTip(digest, a[..|a| - 1], b[..|b| - 1]);
      assert Linked(digest, a, |a| - 1) && Linked(digest, b, |b| - 1);
    }
  }

  // --- Appending --------------------------------------------------------------------------------

  predicate IsLatest(log: seq<Entry>, i: int) {
    0 <= i < |log| && forall j :: 0 <= j < |log| ==> log[j].occurredAt <= log[i].occurredAt
  }

  predicate Chronological(log: seq<Entry>) {
    forall i, j :: 0 <= i < j < |log| ==> log[i].occurredAt < log[j].occurredAt
  }

  function NewEntry(digest: Digest, prev: Option<string>, now: int, actor: string, action: string,
      target: Option<string>): Entry {
    Entry(now, actor, action, target, prev, EntryHash(digest, prev, actor, action, target))
  }

  lemma SomeEntryIsLatest(log: seq<Entry>)
    requires log != []
    ensures exists i :: IsLatest(log, i)
  {
    var last := |log| - 1;
    if last == 0 {
      assert IsLatest(log, 0);
    } else {
      SomeEntryIsLatest(log[..last]);
      var i :| IsLatest(log[..last], i);
      assert forall j :: 0 <= j < last ==> log[j] == log[..last][j];
      assert IsLatest(log, if log[i].occurredAt <= log[last].occurredAt then last else i);
    }
  }

  /** A new entry keeps the log well-linked exactly when it chains to the entry actually stored last,
      whichever hash was read for it and whenever. */
  lemma AppendKeepsChainIff(digest: Digest, log: seq<Entry>, prev: Option<string>, now: int, actor: string,
      action: string, target: Option<string>)
    requires WellLinked(digest, log)
    ensures WellLinked(digest, log + [NewEntry(digest, prev, now, actor, action, target)]) <==> prev == LastHash(log)
  {
    var e := NewEntry(digest, prev, now, actor, action, target);
    var longer := log + [e];
    forall i | 0 <= i < |log|
      ensures Linked(digest, longer, i)
    {
      assert Linked(digest, log, i);
      assert longer[..i] == log[..i];
    }
    assert longer[..|log|] == log;
    assert Linked(digest, longer, |log|) <==> prev == LastHash(log);
  }

  /** The entries a repository may add next: chained to some entry with the greatest instant. */
  ghost predicate MayAppend(digest: Digest, log: seq<Entry>, e: Entry) {
    && e == NewEntry(digest, e.prevHash, e.occurredAt, e.actor, e.action, e.target)
    && if log == [] then e.prevHash == None else exists i :: IsLatest(log, i) && e.prevHash == Some(log[i].entryHash)
  }

  /** Two stretches of one well-linked log that end in the same hash but are not equally long hold a
      collision: otherwise the same texts lead back from both until one of them is empty. */
  lemma {:induction false} SameTipSameLength(digest: Digest, log: seq<Entry>, m: nat, n: nat)
    requires PlainDigest(digest) && WellLinked(digest, log)
    requires m < n <= |log| && LastHash(log[..m]) == LastHash(log[..n])
    ensures CollisionBetween(digest, log, log)
  {
    hide Canonical, PipeFree;
    var x, y := log[m - 1], log[n - 1];
    assert Linked(digest, log, m - 1) && Linked(digest, log, n - 1);
    if CanonicalOf(x) == CanonicalOf(y) {
      PrefixTipPlain(digest, log, m - 1);
      PrefixTipPlain(digest, log, n - 1);
      SameTextSamePrevious(x, y);
      SameTipSameLength(digest, log, m - 1, n - 1);
    }
  }

  lemma SameTextSamePrevious(x: Entry, y: Entry)
    requires PipeFree(OrEmpty(x.prevHash)) && PipeFree(OrEmpty(y.prevHash)) && CanonicalOf(x) == CanonicalOf(y)
    ensures OrEmpty(x.prevHash) == OrEmpty(y.prevHash)
  {
    CanonicalNested(x.prevHash, x.actor, x.action, x.target);
    CanonicalNested(y.prevHash, y.actor, y.action, y.target);
    SplitAtFirstPipe(OrEmpty(x.prevHash), x.actor + "|" + (x.action + "|" + OrEmpty(x.target)),
      OrEmpty(y.prevHash), y.actor + "|" + (y.action + "|" + OrEmpty(y.target)));
  }

  lemma PrefixTipPlain(digest: Digest, log: seq<Entry>, k: nat)
    requires PlainDigest(digest) && WellLinked(digest, log) && k <= |log|
    ensures PipeFree(OrEmpty(LastHash(log[..k]))) && (OrEmpty(LastHash(log[..k])) == "" <==> k == 0)
  {
    if k > 0 {
      assert Linked(digest, log, k - 1);
    }
  }

  /** Without a collision, chaining to any entry but the one stored last breaks the chain. */
  lemma OnlyLastEntryKeepsChain(digest: Digest, log: seq<Entry>, i: nat, now: int, actor: string, action: string,
      target: Option<string>)
    requires PlainDigest(digest) && WellLinked(digest, log) && !CollisionBetween(digest, log, log) && i < |log|
    ensures WellLinked(digest, log + [NewEntry(digest, Some(log[i].entryHash), now, actor, action, target)]) <==>
      i == |log| - 1
  {
    AppendKeepsChainIff(digest, log, Some(log[i].entryHash), now, actor, action, target);
    assert log[..|log|] == log;
    if i < |log| - 1 && log[i].entryHash == log[|log| - 1].entryHash {
      assert LastHash(log[..i + 1]) == LastHash(log[..|log|]);
      SameTipSameLength(digest, log, i + 1, |log|);
    }
  }

  /** The last entry's instant is later than every other: what a caller can see in the stored log. */
  predicate StrictlyLatestLast(log: seq<Entry>) {
    forall j :: 0 <= j < |log| - 1 ==> log[j].occurredAt < log[|log| - 1].occurredAt
  }

  /** Whichever latest entry the query returns, the next append keeps the log well-linked, exactly when
      the log is empty or the entry stored last is the only latest one. */
  lemma NextAppendKeepsChainIff(digest: Digest, log: seq<Entry>, now: int, actor: string, action: string,
      target: Option<string>)
    requires PlainDigest(digest) && WellLinked(digest, log) && !CollisionBetween(digest, log, log)
    ensures (forall prev :: MayAppend(digest, log, NewEntry(digest, prev, now, actor, action, target)) ==>
        WellLinked(digest, log + [NewEntry(digest, prev, now, actor, action, target)]))
      <==> StrictlyLatestLast(log)
  {
    hide Linked, WellLinked, CollisionBetween, EntryHash;
    if log == [] {
      AppendKeepsChainIff(digest, log, None, now, actor, action, target);
      return;
    }
    var last := |log| - 1;
    forall i | IsLatest(log, i)
      ensures WellLinked(digest, log + [NewEntry(digest, Some(log[i].entryHash), now, actor, action, target)]) <==>
        i == last
    {
      OnlyLastEntryKeepsChain(digest, log, i, now, actor, action, target);
    }
    SomeEntryIsLatest(log);
    var i :| IsLatest(log, i);
    if !StrictlyLatestLast(log) {
      var j :| 0 <= j < last && log[last].occurredAt <= log[j].occurredAt;
      var k := if i == last then j else i;
      assert IsLatest(log, k) && k != last;
      assert MayAppend(digest, log, NewEntry(digest, Some(log[k].entryHash), now, actor, action, target));
    }
  }

  lemma NoEntriesAreLinked(digest: Digest)
    ensures WellLinked(digest, [])
  {
  }

  /** Such a log is reached by two appends at one instant, and then the third may break the chain. */
  lemma TwoAtOneInstant(digest: Digest, now: int, later: int, actor: string, action: string, target: Option<string>)
    requires PlainDigest(digest)
    ensures var first := NewEntry(digest, None, now, actor, action, target);
      var second := NewEntry(digest, Some(first.entryHash), now, actor, action, target);
      var third := NewEntry(digest, Some(first.entryHash), later, actor, action, target);
      && MayAppend(digest, [], first) && MayAppend(digest, [first], second) && MayAppend(digest, [first, second], third)
      && WellLinked(digest, [first, second])
      && (WellLinked(digest, [first, second, third]) ==> CollisionBetween(digest, [first, second], [first, second]))
  {
    hide Linked, WellLinked, CollisionBetween, EntryHash;
    var first := NewEntry(digest, None, now, actor, action, target);
    var second := NewEntry(digest, Some(first.entryHash), now, actor, action, target);
    var log := [first, second];
    NoEntriesAreLinked(digest);
    AppendKeepsChainIff(digest, [], None, now, actor, action, target);
    assert [] + [first] == [first];
    AppendKeepsChainIff(digest, [first], Some(first.entryHash), now, actor, action, target);
    assert [first] + [second] == log;
    assert IsLatest([first], 0) && IsLatest(log, 0);
    assert log[0] == first;
    if !CollisionBetween(digest, log, log) {
      OnlyLastEntryKeepsChain(digest, log, 0, later, actor, action, target);
      assert log + [NewEntry(digest, Some(first.entryHash), later, actor, action, target)]
        == [first, second, NewEntry(digest, Some(first.entryHash), later, actor, action, target)];
    }
  }

  // --- Appends of several sessions ----------------------------------------------------------------

  type Session = nat

  /** A read sees the first `length` entries as the log: later ones may be uncommitted, or lose a tie. */
  datatype Step =
    | Read(session: Session, length: nat)
    | Add(session: Session, now: int, actor: string, action: string, target: Option<string>)

  /** The stored log, and for each session between its read and its insert, how much of the log it saw. */
  datatype Store = Store(log: seq<Entry>, seen: map<Session, nat>)

  const NO_ENTRIES := Store([], map[])

  function Next(digest: Digest, s: Store, step: Step): Store {
    match step
    case Read(t, length) => if length <= |s.log| then s.(seen := s.seen[t := length]) else s
    case Add(t, now, actor, action, target) =>
      if t in s.seen && s.seen[t] <= |s.log| then
        Store(s.log + [NewEntry(digest, LastHash(s.log[..s.seen[t]]), now, actor, action, target)], s.seen - {t})
      else s
  }

  function Run(digest: Digest, steps: seq<Step>): Store {
    if steps == [] then NO_ENTRIES else Next(digest, Run(digest, steps[..|steps| - 1]), steps[|steps| - 1])
  }

  /** What the steps do: a session's insert adds one entry, chained to the last one its latest read saw. */
  lemma InsertChainsToWhatWasRead(digest: Digest, steps: seq<Step>, t: Session, length: nat, add: Step)
    requires length <= |Run(digest, steps).log| && add.Add? && add.session == t
    ensures var log := Run(digest, steps).log;
      Run(digest, steps + [Read(t, length)] + [add]).log
        == log + [NewEntry(digest, LastHash(log[..length]), add.now, add.actor, add.action, add.target)]
  {
    var read := steps + [Read(t, length)];
    assert read[..|read| - 1] == steps && (read + [add])[..|read|] == read;
  }

  /** An insert whose session has not seen the entry stored last: another got in between, or was not visible. */
  predicate IsOvertaken(s: Store, step: Step) {
    step.Add? && step.session in s.seen && s.seen[step.session] < |s.log|
  }

  ghost predicate NoneOvertaken(digest: Digest, steps: seq<Step>) {
    forall n :: 0 <= n < |steps| ==> !IsOvertaken(Run(digest, steps[..n]), steps[n])
  }

  lemma CollisionInLonger(digest: Digest, log: seq<Entry>, longer: seq<Entry>)
    requires log <= longer && CollisionBetween(digest, log, log)
    ensures CollisionBetween(digest, longer, longer)
  {
    var i, j :| 0 <= i < |log| && 0 <= j < |log|
      && CanonicalOf(log[i]) != CanonicalOf(log[j]) && digest(CanonicalOf(log[i])) == digest(CanonicalOf(log[j]));
    assert longer[i] == log[i] && longer[j] == log[j];
  }

  lemma ShorterIsLinked(digest: Digest, log: seq<Entry>, e: Entry)
    requires WellLinked(digest, log + [e])
    ensures WellLinked(digest, log)
  {
    assert (log + [e])[..|log|] == log;
    PrefixLinked(digest, log + [e]);
  }

  lemma StepKeepsChainIff(digest: Digest, s: Store, step: Step)
    requires PlainDigest(digest) && (forall t :: t in s.seen ==> s.seen[t] <= |s.log|)
    requires !CollisionBetween(digest, Next(digest, s, step).log, Next(digest, s, step).log)
    ensures WellLinked(digest, Next(digest, s, step).log) <==> WellLinked(digest, s.log) && !IsOvertaken(s, step)
  {
    if step.Add? && step.session in s.seen {
      var seen := s.seen[step.session];
      var prev := LastHash(s.log[..seen]);
      var e := NewEntry(digest, prev, step.now, step.actor, step.action, step.target);
      if WellLinked(digest, s.log + [e]) {
        ShorterIsLinked(digest, s.log, e);
      }
      if WellLinked(digest, s.log) {
        AppendKeepsChainIff(digest, s.log, prev, step.now, step.actor, step.action, step.target);
        assert s.log[..|s.log|] == s.log;
        if seen < |s.log| && prev == LastHash(s.log) {
          SameTipSameLength(digest, s.log, seen, |s.log|);
          CollisionInLonger(digest, s.log, s.log + [e]);
        }
      }
    }
  }

  /** However the reads and inserts of any number of sessions interleave, the log ends well-linked exactly
      when no insert was overtaken; a broken link is never repaired later. */
  lemma {:induction false} InterleavedAppendsKeepChainIff(digest: Digest, steps: seq<Step>)
    requires PlainDigest(digest)
    requires !CollisionBetween(digest, Run(digest, steps).log, Run(digest, steps).log)
    ensures WellLinked(digest, Run(digest, steps).log) <==> NoneOvertaken(digest, steps)
    ensures forall t :: t in Run(digest, steps).seen ==> Run(digest, steps).seen[t] <= |Run(digest, steps).log|
  {
    hide WellLinked, CollisionBetween, IsOvertaken, NoneOvertaken, LastHash, NewEntry;
    if steps == [] {
      NothingOvertaken(digest);
    } else {
      var n := |steps| - 1;
      var s := Run(digest, steps[..n]);
      if CollisionBetween(digest, s.log, s.log) {
        CollisionInLonger(digest, s.log, Run(digest, steps).log);
      }
      InterleavedAppendsKeepChainIff(digest, steps[..n]);
      StepKeepsChainIff(digest, s, steps[n]);
      NoneOvertakenStep(digest, steps);
    }
  }

  lemma NothingOvertaken(digest: Digest)
    ensures NoneOvertaken(digest, []) && WellLinked(digest, [])
  {
  }

  lemma NoneOvertakenStep(digest: Digest, steps: seq<Step>)
    requires steps != []
    ensures var n := |steps| - 1;
      NoneOvertaken(digest, steps) <==>
        NoneOvertaken(digest, steps[..n]) && !IsOvertaken(Run(digest, steps[..n]), steps[n])
  {
    hide Run, IsOvertaken;
    var n := |steps| - 1;
    var earlier := steps[..n];
    assert forall k :: 0 <= k < n ==> earlier[..k] == steps[..k] && earlier[k] == steps[k];
    if NoneOvertaken(digest, steps) {
      forall k | 0 <= k < n
        ensures !IsOvertaken(Run(digest, earlier[..k]), earlier[k])
      {
        assert !IsOvertaken(Run(digest, steps[..k]), steps[k]);
      }
      assert !IsOvertaken(Run(digest, steps[..n]), steps[n]);
    }
  }

  /** So two sessions that both read before either inserts cannot both keep the chain. */
  lemma TwoReadersBreakChain(digest: Digest, s: Store, first: Step, second: Step)
    requires PlainDigest(digest) && (forall t :: t in s.seen ==> s.seen[t] <= |s.log|)
    requires first.Add? && second.Add? && first.session != second.session
    requires first.session in s.seen && second.session in s.seen
    ensures var log := Next(digest, Next(digest, s, first), second).log;
      WellLinked(digest, log) ==> CollisionBetween(digest, log, log)
  {
    var between := Next(digest, s, first);
    if !CollisionBetween(digest, Next(digest, between, second).log, Next(digest, between, second).log) {
      StepKeepsChainIff(digest, between, second);
    }
  }

  class AuditRepository {
    const digest: Digest
    var log: seq<Entry>

    constructor (digest: Digest)
      ensures this.digest == digest && log == []
      ensures WellLinked(digest, log) && Chronological(log)
    {
      this.digest := digest;
      log := [];
    }

    /** The hash of a latest entry; with several at the same instant, of any one of them. */
    method LatestHash() returns (prev: Option<string>)
      ensures log == [] ==> prev == None
      ensures log != [] ==> exists i :: IsLatest(log, i) && prev == Some(log[i].entryHash)
      ensures log != [] ==>
        exists e :: e in log && prev == Some(e.entryHash) && forall f :: f in log ==> f.occurredAt <= e.occurredAt
      ensures Chronological(log) ==> prev == LastHash(log)
    {
      if log == [] {
        return None;
      }
      SomeEntryIsLatest(log);
      var i :| 0 <= i < |log| && IsLatest(log, i);
      prev := Some(log[i].entryHash);
    }

    /** Appends without touching what is stored. In a chronological log the new entry chains to the last
        one, and a strictly later instant keeps the log chronological for the next append. */
    method Append(now: int, actor: string, action: string, target: Option<string>) returns (entry: Entry)
      modifies this
      ensures log == old(log) + [entry]
      ensures entry.occurredAt == now && entry.actor == actor && entry.action == action && entry.target == target
      ensures entry.entryHash == digest(Canonical(entry.prevHash, actor, action, target))
      ensures entry == NewEntry(digest, entry.prevHash, now, actor, action, target)
        && MayAppend(digest, old(log), entry)
      ensures old(Chronological(log) && WellLinked(digest, log)) ==> WellLinked(digest, log)
      ensures old(Chronological(log)) && (forall e :: e in old(log) ==> e.occurredAt < now) ==> Chronological(log)
    {
      var prev := LatestHash();
      entry := NewEntry(digest, prev, now, actor, action, target);
      if Chronological(log) && WellLinked(digest, log) {
        AppendKeepsChainIff(digest, log, prev, now, actor, action, target);
      }
      log := log + [entry];
    }
  }
}

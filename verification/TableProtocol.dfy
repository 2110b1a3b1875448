/** The protocol of two alias tables shared by many wraps and one retirement thread:
    five states for each table, and counts of those who write to it and may read it. */
module TableProtocol {
  import opened Sequences

  datatype AliasState = Active | WaitWriters | Retire | WaitReaders | Empty

  /** One table: its state, how many wraps write to it, how many wraps on the other
      table may read it, and how many items it has. */
  datatype Table = Table(state: AliasState, writers: nat, readers: nat, items: nat)

  /** An open wrap: which table it has, and whether it reads the other one too. */
  datatype Wrap = Wrap(onA: bool, readsOther: bool)

  /** The retirement thread: before taking the lock, waiting for a signal, or busy with
      one of the tables without the lock. */
  datatype Pc = Ready | Waiting(signalled: bool) | Restoring(tableA: bool) | Clearing(tableA: bool)

  /** `sleeping` counts the opens that wait for a table and have not been woken. */
  datatype State = State(a: Table, b: Table, wraps: seq<Wrap>, pc: Pc, sleeping: nat)

  function Of(s: State, tableA: bool): Table {
    if tableA then s.a else s.b
  }

  function With(s: State, tableA: bool, t: Table): State {
    if tableA then s.(a := t) else s.(b := t)
  }

  function Initial(): State {
    State(Table(Empty, 0, 0, 0), Table(Empty, 0, 0, 0), [], Ready, 0)
  }

  predicate Available(t: Table) {
    t.state.Active? || t.state.Empty?
  }

  /** No table may be taken. */
  predicate Blocked(s: State) {
    !Available(s.a) && !Available(s.b)
  }

  // ---- Opening and closing ----

  /** An open takes table A if it may, else B, else it waits. */
  function Open(s: State): State {
    if Available(s.a) then OpenOn(s, true)
    else if Available(s.b) then OpenOn(s, false)
    else s.(sleeping := s.sleeping + 1)
  }

  predicate MayBeRead(t: Table) {
    t.state.Active? || t.state.WaitWriters? || t.state.Retire?
  }

  function OpenOn(s: State, tableA: bool): State {
    var t, o := Of(s, tableA), Of(s, !tableA);
    var alsoReads := MayBeRead(o);
    var s1 := With(s, tableA, t.(state := Active, writers := t.writers + 1));
    var s2 := if alsoReads then With(s1, !tableA, o.(readers := o.readers + 1)) else s1;
    s2.(wraps := s.wraps + [Wrap(tableA, alsoReads)])
  }

  function SignalRetire(s: State): State {
    if s.pc.Waiting? then s.(pc := Waiting(true)) else s
  }

  /** A close leaves its table, stops reading the other one, and hands its table on to
      retirement when it has too many items. */
  function Close(s: State, i: nat, limit: nat): State
    requires i < |s.wraps| && Of(s, s.wraps[i].onA).writers > 0
    requires s.wraps[i].readsOther ==> Of(s, !s.wraps[i].onA).readers > 0
  {
    var w := s.wraps[i];
    var t, o := Of(s, w.onA), Of(s, !w.onA);
    var writers := t.writers - 1;
    var s1 := With(s, w.onA, t.(writers := writers)).(wraps := RemoveAt(s.wraps, i));
    var s2 := if !w.readsOther then s1
              else
                var left := With(s1, !w.onA, o.(readers := o.readers - 1));
                if o.readers - 1 == 0 && o.state.WaitReaders? then SignalRetire(left) else left;
    if t.items <= limit then s2
    else if writers == 0 then SignalRetire(With(s2, w.onA, Of(s2, w.onA).(state := Retire)))
    else With(s2, w.onA, Of(s2, w.onA).(state := WaitWriters))
  }

  /** A store of a new key by an open wrap. */
  function AddItem(s: State, i: nat): State
    requires i < |s.wraps|
  {
    var t := Of(s, s.wraps[i].onA);
    With(s, s.wraps[i].onA, t.(items := t.items + 1))
  }

  // ---- The retirement thread ----

  predicate Due(t: Table) {
    t.state.Retire? || (t.state.WaitReaders? && t.readers == 0)
  }

  /** With the lock: what is to be done about a table; if nothing, `next`. */
  function Look(s: State, tableA: bool, next: State): State {
    var t := Of(s, tableA);
    if t.state.Retire? then s.(pc := Restoring(tableA))
    else if t.state.WaitReaders? && t.readers == 0 then s.(pc := Clearing(tableA))
    else next
  }

  /** After table A comes table B, after table B the top of the loop. */
  function Onward(s: State, tableA: bool): State {
    if tableA then Look(s, false, s.(pc := Ready)) else s.(pc := Ready)
  }

  predicate RetireEnabled(s: State) {
    s.pc != Waiting(false)
  }

  /** One step of the retirement thread, up to where it next gives up the lock. */
  function RetireStep(s: State): State
    requires RetireEnabled(s)
  {
    match s.pc
    case Ready => if Due(s.a) || Due(s.b) then Look(s, true, Onward(s, true)) else s.(pc := Waiting(false))
    case Waiting(_) => if Due(s.a) || Due(s.b) then Look(s, true, Onward(s, true)) else s.(pc := Waiting(false))
    case Restoring(x) =>
      var t := Of(s, x).(items := 0);
      if t.readers > 0 then Onward(With(s, x, t.(state := WaitReaders)), x)
      else With(s, x, t).(pc := Clearing(x))
    case Clearing(x) =>
      var t := Of(s, x);
      Onward(With(s, x, t.(state := Empty)).(sleeping := 0), x)
  }

  // ---- The invariant ----

  function Writers(ws: seq<Wrap>, tableA: bool): nat {
    if ws == [] then 0 else (if ws[0].onA == tableA then 1 else 0) + Writers(ws[1..], tableA)
  }

  function Readers(ws: seq<Wrap>, tableA: bool): nat {
    if ws == [] then 0 else (if ws[0].onA != tableA && ws[0].readsOther then 1 else 0) + Readers(ws[1..], tableA)
  }

  /** The counts are those of the open wraps, and the states say what they seem to say. A table
      is handed over to retirement with more items than the limit, and as long as it is in use
      with so many some wrap is left to do that. */
  predicate TableOk(s: State, tableA: bool, limit: nat) {
    var t := Of(s, tableA);
    && t.writers == Writers(s.wraps, tableA) && t.readers == Readers(s.wraps, tableA)
    && (t.state.Retire? || t.state.WaitReaders? || t.state.Empty? ==> t.writers == 0)
    && (t.state.WaitWriters? ==> t.writers > 0 && t.items > limit)
    && (s.pc == Restoring(tableA) ==> t.state.Retire?)
    && (s.pc == Clearing(tableA) ==> t.state.Retire? || (t.state.WaitReaders? && t.readers == 0))
    && (t.state.Empty? || t.state.WaitReaders? || s.pc == Clearing(tableA) ==> t.items == 0)
    && (t.state.Retire? && s.pc != Clearing(tableA) ==> t.items > limit)
    && (t.state.Active? && t.items > limit ==> t.writers > 0)
  }

  /** No wake-up is lost: a thread waits only for what is not yet so. */
  predicate NoneForgotten(s: State) {
    && (s.pc == Waiting(false) ==> !Due(s.a) && !Due(s.b))
    && (s.sleeping > 0 ==> !Available(s.a) && !Available(s.b))
  }

  predicate Invariant(s: State, limit: nat) {
    TableOk(s, true, limit) && TableOk(s, false, limit) && NoneForgotten(s)
  }

  lemma {:induction false} CountsAppend(ws: seq<Wrap>, w: Wrap, tableA: bool)
    ensures Writers(ws + [w], tableA) == Writers(ws, tableA) + if w.onA == tableA then 1 else 0
    ensures Readers(ws + [w], tableA) == Readers(ws, tableA) + if w.onA != tableA && w.readsOther then 1 else 0
  {
    if ws == [] {
      assert ws + [w] == [w];
    } else {
      CountsAppend(ws[1..], w, tableA);
      assert (ws + [w])[1..] == ws[1..] + [w];
    }
  }

  lemma {:induction false} CountsRemove(ws: seq<Wrap>, i: nat, tableA: bool)
    requires i < |ws|
    ensures Writers(RemoveAt(ws, i), tableA) == Writers(ws, tableA) - if ws[i].onA == tableA then 1 else 0
    ensures Readers(RemoveAt(ws, i), tableA) == Readers(ws, tableA) - if ws[i].onA != tableA && ws[i].readsOther then 1 else 0
  {
    if i == 0 {
      assert RemoveAt(ws, i) == ws[1..];
    } else {
      CountsRemove(ws[1..], i - 1, tableA);
      assert RemoveAt(ws, i)[1..] == RemoveAt(ws[1..], i - 1);
    }
  }

  lemma {:induction false} OpenKeeps(s: State, limit: nat)
    requires Invariant(s, limit)
    ensures Invariant(Open(s), limit)
  {
    if Available(s.a) || Available(s.b) {
      var w := Wrap(Available(s.a), MayBeRead(if Available(s.a) then s.b else s.a));
      CountsAppend(s.wraps, w, true);
      CountsAppend(s.wraps, w, false);
    }
  }

  /** An open wrap can always be closed. */
  lemma {:induction false} WrapCounted(s: State, i: nat, limit: nat)
    requires Invariant(s, limit) && i < |s.wraps|
    ensures Of(s, s.wraps[i].onA).writers > 0
    ensures s.wraps[i].readsOther ==> Of(s, !s.wraps[i].onA).readers > 0
  {
    CountsRemove(s.wraps, i, s.wraps[i].onA);
    CountsRemove(s.wraps, i, !s.wraps[i].onA);
  }

  lemma {:induction false} CloseKeeps(s: State, i: nat, limit: nat)
    requires Invariant(s, limit) && i < |s.wraps|
    requires Of(s, s.wraps[i].onA).writers > 0
    requires s.wraps[i].readsOther ==> Of(s, !s.wraps[i].onA).readers > 0
    ensures Invariant(Close(s, i, limit), limit)
  {
    CloseKeepsTable(s, i, limit, true);
    CloseKeepsTable(s, i, limit, false);
    CloseForgetsNone(s, i, limit);
  }

  lemma {:induction false} CloseKeepsTable(s: State, i: nat, limit: nat, tableA: bool)
    requires Invariant(s, limit) && i < |s.wraps|
    requires Of(s, s.wraps[i].onA).writers > 0
    requires s.wraps[i].readsOther ==> Of(s, !s.wraps[i].onA).readers > 0
    ensures TableOk(Close(s, i, limit), tableA, limit)
  {
    CountsRemove(s.wraps, i, tableA);
    AfterClose(s, i, limit);
  }

  /** Both tables after a close, and what else it leaves behind. */
  lemma {:induction false} AfterClose(s: State, i: nat, limit: nat)
    requires i < |s.wraps| && Of(s, s.wraps[i].onA).writers > 0
    requires s.wraps[i].readsOther ==> Of(s, !s.wraps[i].onA).readers > 0
    ensures var c, w := Close(s, i, limit), s.wraps[i];
            var t, o := Of(s, w.onA), Of(s, !w.onA);
            && Of(c, w.onA) == t.(writers := t.writers - 1,
                                  state := if t.items <= limit then t.state else if t.writers == 1 then Retire else WaitWriters)
            && Of(c, !w.onA) == (if w.readsOther then o.(readers := o.readers - 1) else o)
            && c.wraps == RemoveAt(s.wraps, i) && (c.pc == s.pc || (s.pc.Waiting? && c.pc == Waiting(true)))
  {
  }

  lemma {:induction false} CloseForgetsNone(s: State, i: nat, limit: nat)
    requires Invariant(s, limit) && i < |s.wraps|
    requires Of(s, s.wraps[i].onA).writers > 0
    requires s.wraps[i].readsOther ==> Of(s, !s.wraps[i].onA).readers > 0
    ensures NoneForgotten(Close(s, i, limit))
  {
  }

  lemma {:induction false} AddItemKeeps(s: State, i: nat, limit: nat)
    requires Invariant(s, limit) && i < |s.wraps|
    ensures Invariant(AddItem(s, i), limit)
  {
    WrapCounted(s, i, limit);
  }

  lemma {:induction false} RetireKeeps(s: State, limit: nat)
    requires Invariant(s, limit) && RetireEnabled(s)
    ensures Invariant(RetireStep(s), limit)
  {
    hide Writers, Readers;
  }

  // ---- Runs ----

  datatype Event = Opens | Closes(i: nat) | Stores(i: nat) | Retires

  predicate Enabled(s: State, e: Event) {
    match e
    case Opens => true
    case Closes(i) =>
      && i < |s.wraps| && Of(s, s.wraps[i].onA).writers > 0
      && (s.wraps[i].readsOther ==> Of(s, !s.wraps[i].onA).readers > 0)
    case Stores(i) => i < |s.wraps|
    case Retires => RetireEnabled(s)
  }

  function Apply(s: State, e: Event, limit: nat): State
    requires Enabled(s, e)
  {
    match e
    case Opens => Open(s)
    case Closes(i) => Close(s, i, limit)
    case Stores(i) => AddItem(s, i)
    case Retires => RetireStep(s)
  }

  predicate RunOk(s: State, events: seq<Event>, limit: nat)
    decreases |events|
  {
    events == [] || (Enabled(s, events[0]) && RunOk(Apply(s, events[0], limit), events[1..], limit))
  }

  function RunFrom(s: State, events: seq<Event>, limit: nat): State
    requires RunOk(s, events, limit)
    decreases |events|
  {
    if events == [] then s else RunFrom(Apply(s, events[0], limit), events[1..], limit)
  }

  lemma {:induction false} EventKeeps(s: State, e: Event, limit: nat)
    requires Invariant(s, limit) && Enabled(s, e)
    ensures Invariant(Apply(s, e, limit), limit)
  {
    hide Invariant;
    match e {
      case Opens => OpenKeeps(s, limit);
      case Closes(i) => CloseKeeps(s, i, limit);
      case Stores(i) => AddItemKeeps(s, i, limit);
      case Retires => RetireKeeps(s, limit);
    }
  }

  lemma {:induction false} RunFromKeeps(s: State, events: seq<Event>, limit: nat)
    requires Invariant(s, limit) && RunOk(s, events, limit)
    ensures Invariant(RunFrom(s, events, limit), limit)
    decreases |events|
  {
    if events != [] {
      EventKeeps(s, events[0], limit);
      RunFromKeeps(Apply(s, events[0], limit), events[1..], limit);
    }
  }

  /** Every state of every run has true counts, no writer on a table that is on its way
      out, at least one on a table that waits for its writers, and no lost wake-up. */
  lemma {:induction false} EveryRun(events: seq<Event>, limit: nat)
    requires RunOk(Initial(), events, limit)
    ensures Invariant(RunFrom(Initial(), events, limit), limit)
  {
    RunFromKeeps(Initial(), events, limit);
  }

  /** No deadlock: when an open finds no table, either the retirement thread has a table
      to work on and is not asleep, or some wrap is open and may be closed. */
  lemma {:induction false} BlockedOpenIsServed(s: State, limit: nat)
    requires Invariant(s, limit) && !Available(s.a) && !Available(s.b)
    ensures || (RetireEnabled(s) && (Due(s.a) || Due(s.b)))
            || (s.wraps != [] && Enabled(s, Closes(0)))
  {
    if s.wraps != [] {
      WrapCounted(s, 0, limit);
    }
  }

  /** How much closing and retiring is left while an open is blocked. */
  function Left(s: State): nat {
    8 * |s.wraps| + (if s.a.state.Retire? then 4 else 0) + (if s.b.state.Retire? then 4 else 0) + Busy(s.pc)
  }

  function Busy(pc: Pc): nat {
    match pc
    case Waiting(signalled) => if signalled then 3 else 0
    case Ready => 3
    case Restoring(_) => 2
    case Clearing(_) => 1
  }

  predicate Moves(e: Event) {
    e.Closes? || e.Retires?
  }

  /** While an open is blocked every close and every step of the retirement thread lowers
      what is left or makes a table available; more opens and stores do not raise it. */
  lemma {:induction false} EveryMoveCounts(s: State, e: Event, limit: nat)
    requires Invariant(s, limit) && Blocked(s) && Enabled(s, e)
    ensures var t := Apply(s, e, limit); !Blocked(t) || Left(t) <= Left(s) - if Moves(e) then 1 else 0
  {
    hide Writers, Readers;
    if e.Closes? {
      AfterClose(s, e.i, limit);
    }
  }

  function MovesIn(events: seq<Event>): nat {
    if events == [] then 0 else (if Moves(events[0]) then 1 else 0) + MovesIn(events[1..])
  }

  /** No table becomes available during the run. */
  predicate BlockedThroughout(s: State, events: seq<Event>, limit: nat)
    requires RunOk(s, events, limit)
    decreases |events|
  {
    Blocked(s) && (events == [] || BlockedThroughout(Apply(s, events[0], limit), events[1..], limit))
  }

  /** However the steps come, so many closes and retirement steps at most go by before a
      blocked open finds a table. */
  lemma {:induction false} BlockedForSoLong(s: State, events: seq<Event>, limit: nat)
    requires Invariant(s, limit) && RunOk(s, events, limit) && BlockedThroughout(s, events, limit)
    ensures MovesIn(events) + Left(RunFrom(s, events, limit)) <= Left(s)
    decreases |events|
  {
    hide Invariant, Enabled, Apply, Blocked, Left, Moves;
    if events != [] {
      var t := Apply(s, events[0], limit);
      EventKeeps(s, events[0], limit);
      BlockedForSoLong(t, events[1..], limit);
      EveryMoveCounts(s, events[0], limit);
      assert Blocked(t);
    }
  }

  /** And there always is such a way on: closes and retirement steps, no more of them than
      are left, after which a table may be taken. */
  lemma {:induction false} WayToTable(s: State, limit: nat) returns (events: seq<Event>)
    requires Invariant(s, limit)
    ensures |events| <= Left(s) && (forall i | 0 <= i < |events| :: Moves(events[i]))
    ensures RunOk(s, events, limit) && !Blocked(RunFrom(s, events, limit))
    decreases Left(s), Blocked(s)
  {
    hide Invariant, Enabled, Apply, Left;
    if Blocked(s) {
      var e := NextMove(s, limit);
      var t := Apply(s, e, limit);
      EventKeeps(s, e, limit);
      EveryMoveCounts(s, e, limit);
      if Blocked(t) {
        var rest := WayToTable(t, limit);
        events := [e] + rest;
        assert events[1..] == rest;
      } else {
        events := [e];
        assert events[1..] == [] && RunOk(t, [], limit);
        SomethingLeft(s, e, limit);
      }
    } else {
      events := [];
    }
  }

  lemma {:induction false} NextMove(s: State, limit: nat) returns (e: Event)
    requires Invariant(s, limit) && Blocked(s)
    ensures Moves(e) && Enabled(s, e)
  {
    BlockedOpenIsServed(s, limit);
    e := if RetireEnabled(s) && (Due(s.a) || Due(s.b)) then Retires else Closes(0);
  }

  lemma {:induction false} SomethingLeft(s: State, e: Event, limit: nat)
    requires Enabled(s, e) && Moves(e)
    ensures Left(s) >= 1
  {
  }

  /** Nobody writes to a table that is being restored or cleared, and if the table had
      waited for its readers, nobody reads it while it is cleared. */
  lemma {:induction false} ClearedUnwritten(s: State, limit: nat, tableA: bool)
    requires Invariant(s, limit) && (s.pc == Clearing(tableA) || s.pc == Restoring(tableA))
    ensures Of(s, tableA).writers == 0 && forall i | 0 <= i < |s.wraps| :: s.wraps[i].onA != tableA
    ensures s.pc == Clearing(tableA) && Of(s, tableA).readers > 0 ==> Of(s, tableA).state.Retire?
  {
    NoWriter(s.wraps, tableA);
  }

  lemma {:induction false} NoWriter(ws: seq<Wrap>, tableA: bool)
    requires Writers(ws, tableA) == 0
    ensures forall i | 0 <= i < |ws| :: ws[i].onA != tableA
  {
    if ws != [] {
      NoWriter(ws[1..], tableA);
      assert forall i | 1 <= i < |ws| :: ws[i] == ws[1..][i - 1];
    }
  }

  /** A close hands its table over exactly when that has too many items: no wrap takes it any
      more, and retirement may begin once no writer is left. */
  lemma {:induction false} CloseHandsOver(s: State, i: nat, limit: nat)
    requires Invariant(s, limit) && Enabled(s, Closes(i))
    ensures var x, c := s.wraps[i].onA, Close(s, i, limit);
            && (Available(Of(c, x)) <==> Of(s, x).items <= limit)
            && (Of(c, x).state.Retire? <==> Of(s, x).items > limit && Of(s, x).writers == 1)
            && Of(c, x).writers == Of(s, x).writers - 1 && Of(c, x).items == Of(s, x).items
            && Of(c, !x).readers == Of(s, !x).readers - (if s.wraps[i].readsOther then 1 else 0)
            && Of(c, !x).state == Of(s, !x).state
  {
    AfterClose(s, i, limit);
  }

  /** A table is cleared only after all its items have gone home, and nobody reads it when that
      begins. */
  lemma {:induction false} ClearingBegins(s: State, limit: nat, x: bool)
    requires Invariant(s, limit) && RetireEnabled(s) && s.pc != Clearing(x) && RetireStep(s).pc == Clearing(x)
    ensures Of(s, x).readers == 0 && (s.pc == Restoring(x) || Of(s, x).items == 0)
    ensures Of(RetireStep(s), x).items == 0 && Of(RetireStep(s), x).readers == 0
  {
    hide Writers, Readers;
  }

  /** Whether an open gives the table being cleared a reader: exactly when that table is
      still marked as retiring and the other one may be taken. */
  lemma {:induction false} OpenReads(s: State, limit: nat, x: bool)
    requires Invariant(s, limit) && s.pc == Clearing(x) && Of(s, x).readers == 0
    ensures Of(Open(s), x).readers > 0 <==> Of(s, x).state.Retire? && Available(Of(s, !x))
  {
  }

  /** An open that gets a table gets A if that may be taken. It reads the other one whenever
      that one has items that are not home yet, and is no reader of a table that is empty or only
      waits for its readers to leave. */
  lemma {:induction false} OpenReadsItems(s: State, limit: nat)
    requires Invariant(s, limit) && !Blocked(s)
    ensures var t := Open(s);
            && |t.wraps| == |s.wraps| + 1 && t.wraps[..|s.wraps|] == s.wraps
            && var w := t.wraps[|s.wraps|];
               var o := Of(s, !w.onA);
               && w.onA == Available(s.a) && Of(t, w.onA).writers == Of(s, w.onA).writers + 1
               && (o.items > 0 ==> w.readsOther) && (o.state.Empty? || o.state.WaitReaders? ==> !w.readsOther)
               && Of(t, !w.onA).readers == o.readers + if w.readsOther then 1 else 0
  {
  }

  /** So does every open of every run. */
  lemma {:induction false} EveryOpenReadsItems(events: seq<Event>, limit: nat)
    requires RunOk(Initial(), events, limit) && !Blocked(RunFrom(Initial(), events, limit))
    ensures var s := RunFrom(Initial(), events, limit);
            && |Open(s).wraps| == |s.wraps| + 1
            && var w := Open(s).wraps[|s.wraps|]; Of(s, !w.onA).items > 0 ==> w.readsOther
  {
    EveryRun(events, limit);
    OpenReadsItems(RunFrom(Initial(), events, limit), limit);
  }

  /** Events of the wraps alone, while the retirement thread is busy without the lock. */
  predicate WrapsOnly(events: seq<Event>) {
    forall i | 0 <= i < |events| :: !events[i].Retires?
  }

  predicate MayGetReader(s: State, limit: nat, x: bool, events: seq<Event>) {
    WrapsOnly(events) && RunOk(s, events, limit) && Of(RunFrom(s, events, limit), x).readers > 0
  }

  /** Exactly when a table that nobody reads can get a reader while it is cleared,
      whatever the wraps do meanwhile. */
  lemma {:induction false} ReadWhileCleared(s: State, limit: nat, x: bool)
    requires Invariant(s, limit) && s.pc == Clearing(x) && Of(s, x).readers == 0
    ensures (exists events :: MayGetReader(s, limit, x, events)) <==> Of(s, x).state.Retire? && Available(Of(s, !x))
  {
    if Of(s, x).state.Retire? && Available(Of(s, !x)) {
      OpenReads(s, limit, x);
      assert RunOk(Open(s), [], limit) && [Opens][1..] == [];
      assert MayGetReader(s, limit, x, [Opens]);
    } else {
      forall events | WrapsOnly(events) && RunOk(s, events, limit) ensures Of(RunFrom(s, events, limit), x).readers == 0 {
        StaysShut(s, limit, x, events);
      }
    }
  }

  /** Nobody reads the table being cleared, and nobody can begin to. */
  predicate Shut(s: State, limit: nat, x: bool) {
    && Invariant(s, limit) && s.pc == Clearing(x) && Of(s, x).readers == 0
    && !(Of(s, x).state.Retire? && Available(Of(s, !x)))
  }

  lemma {:induction false} StaysShut(s: State, limit: nat, x: bool, events: seq<Event>)
    requires Shut(s, limit, x) && WrapsOnly(events) && RunOk(s, events, limit)
    ensures Shut(RunFrom(s, events, limit), limit, x)
    decreases |events|
  {
    if events != [] {
      assert !events[0].Retires?;
      match events[0] {
        case Opens => ShutAfterOpen(s, limit, x);
        case Closes(i) => ShutAfterClose(s, limit, x, i);
        case Stores(i) => ShutAfterStore(s, limit, x, i);
      }
      StaysShut(Apply(s, events[0], limit), limit, x, events[1..]);
    }
  }

  lemma {:induction false} ShutAfterOpen(s: State, limit: nat, x: bool)
    requires Shut(s, limit, x)
    ensures Shut(Open(s), limit, x)
  {
    OpenKeeps(s, limit);
  }

  lemma {:induction false} ShutAfterClose(s: State, limit: nat, x: bool, i: nat)
    requires Shut(s, limit, x) && Enabled(s, Closes(i))
    ensures Shut(Close(s, i, limit), limit, x)
  {
    CloseKeeps(s, i, limit);
    AfterClose(s, i, limit);
  }

  lemma {:induction false} ShutAfterStore(s: State, limit: nat, x: bool, i: nat)
    requires Shut(s, limit, x) && i < |s.wraps|
    ensures Shut(AddItem(s, i), limit, x)
  {
    AddItemKeeps(s, i, limit);
  }

  /** A table that had not to wait for readers can get one while it is cleared: it is
      still marked as retiring, and an open on the other table will read it. */
  lemma {:induction false} ReaderWhileCleared() returns (events: seq<Event>)
    ensures RunOk(Initial(), events, 0)
    ensures var s := RunFrom(Initial(), events, 0);
            s.pc == Clearing(true) && s.a.readers == 1 && s.a.state.Retire?
  {
    var s0 := Initial();
    var s1 := Open(s0);
    var s2 := AddItem(s1, 0);
    var s3 := Close(s2, 0, 0);
    var s4 := RetireStep(s3);
    var s5 := RetireStep(s4);
    var s6 := Open(s5);
    events := [Opens, Stores(0), Closes(0), Retires, Retires, Opens];
    assert events[1..] == [Stores(0), Closes(0), Retires, Retires, Opens];
    assert events[1..][1..] == [Closes(0), Retires, Retires, Opens];
    assert events[1..][1..][1..] == [Retires, Retires, Opens];
    assert events[1..][1..][1..][1..] == [Retires, Opens];
    assert events[1..][1..][1..][1..][1..] == [Opens];
    assert s3.wraps == [];
    assert RunOk(s6, [], 0) && RunFrom(s6, [], 0) == s6;
    assert RunOk(s5, [Opens], 0) && RunFrom(s5, [Opens], 0) == s6;
    assert RunOk(s4, [Retires, Opens], 0) && RunFrom(s4, [Retires, Opens], 0) == s6;
    assert RunOk(s3, [Retires, Retires, Opens], 0) && RunFrom(s3, [Retires, Retires, Opens], 0) == s6;
    assert RunOk(s2, [Closes(0), Retires, Retires, Opens], 0) && RunFrom(s2, [Closes(0), Retires, Retires, Opens], 0) == s6;
  }
}

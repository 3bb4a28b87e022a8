/** Pairing tool calls with their results in a stream of recorded sessions. */
module ToolPairing {
  import opened Common

  datatype Content = CallItem(name: Option<Name>, id: Option<Name>, arguments: Name) | OtherItem

  /** A session line; `context` stands for the thinking text and the time that an assistant message carries. */
  datatype Entry =
    | Assistant(content: seq<Content>, context: Name)
    | ResultMessage(name: Option<Name>, id: Option<Name>, body: Name)
    | OtherEntry

  datatype Session = Session(file: Name, entries: seq<Entry>)

  datatype Call = Call(file: Name, id: Name, name: Name, arguments: Name, context: Name)
  datatype Answer = Answer(id: Name, name: Name, body: Name)
  datatype Invocation = Invocation(call: Call, result: Option<Answer>)

  // ---------------------------------------------------------------- the events of a session

  datatype Event = Made(call: Call) | Answered(answer: Answer) {
    function Id(): Name { if Made? then call.id else answer.id }
  }

  predicate Relevant(wanted: set<Name>, name: Option<Name>, id: Option<Name>) {
    name.Some? && id.Some? && name.value in wanted
  }

  function CallOf(file: Name, item: Content, context: Name): Call
    requires item.CallItem? && item.name.Some? && item.id.Some?
  {
    Call(file, item.id.value, item.name.value, item.arguments, context)
  }

  function CallEvents(wanted: set<Name>, file: Name, content: seq<Content>, context: Name): seq<Event> {
    if content == [] then []
    else
      var item := content[|content| - 1];
      CallEvents(wanted, file, content[..|content| - 1], context)
      + if item.CallItem? && Relevant(wanted, item.name, item.id) then [Made(CallOf(file, item, context))] else []
  }

  function EntryEvents(wanted: set<Name>, file: Name, entry: Entry): seq<Event> {
    match entry
    case Assistant(content, context) => CallEvents(wanted, file, content, context)
    case ResultMessage(name, id, body) =>
      if Relevant(wanted, name, id) then [Answered(Answer(id.value, name.value, body))] else []
    case OtherEntry => []
  }

  /** The wanted calls and results of a session, in recorded order. */
  function Events(wanted: set<Name>, file: Name, entries: seq<Entry>): seq<Event> {
    if entries == [] then []
    else Events(wanted, file, entries[..|entries| - 1]) + EntryEvents(wanted, file, entries[|entries| - 1])
  }

  function SessionEvents(wanted: set<Name>, session: Session): seq<Event> {
    Events(wanted, session.file, session.entries)
  }

  // ---------------------------------------------------------------- what pairing means

  /** No event with the id of event i lies strictly between i and j. */
  ghost predicate Quiet(E: seq<Event>, i: nat, j: nat)
    requires i < |E| && j <= |E|
  {
    forall k :: i < k < j ==> E[k].Id() != E[i].Id()
  }

  /** The result at j is the next event that names the id of the call at i. */
  ghost predicate Answers(E: seq<Event>, i: nat, j: nat) {
    i < j < |E| && E[i].Made? && E[j].Answered? && E[i].Id() == E[j].Id() && Quiet(E, i, j)
  }

  /** The id of the call at i is given to another call before any result names it. */
  ghost predicate Reused(E: seq<Event>, i: nat)
    requires i < |E|
  {
    exists j :: i < j < |E| && E[j].Made? && E[i].Id() == E[j].Id() && Quiet(E, i, j)
  }

  /** The call at i is never named again. */
  ghost predicate Unanswered(E: seq<Event>, i: nat) {
    i < |E| && E[i].Made? && Quiet(E, i, |E|)
  }

  /** The calls of one id from `first` to `latest` form a run without a result that begins at `first`. */
  ghost predicate StartsRun(E: seq<Event>, first: nat, latest: nat) {
    && first <= latest < |E| && E[first].Id() == E[latest].Id()
    && (forall k :: first <= k <= latest && E[k].Id() == E[latest].Id() ==> E[k].Made?)
    && (forall k :: 0 <= k < first && E[k].Id() == E[latest].Id() ==> AnsweredWithin(E, k, first))
  }

  /** From k on and before `first`, a result names the id of event k. */
  ghost predicate AnsweredWithin(E: seq<Event>, k: nat, first: nat)
    requires k < |E| && first <= |E|
  {
    exists m :: k <= m < first && E[m].Answered? && E[m].Id() == E[k].Id()
  }

  // ---------------------------------------------------------------- the pending table

  /** A pending call with its event and the event that put its id into the table. */
  datatype Slot = Slot(first: nat, latest: nat, call: Call)

  function Calls(slots: seq<Slot>): (r: seq<Call>)
    ensures |r| == |slots| && forall k :: 0 <= k < |slots| ==> r[k] == slots[k].call
  {
    seq(|slots|, k requires 0 <= k < |slots| => slots[k].call)
  }

  /** Where the id stands in the table, or the table's size. */
  function Find(table: seq<Call>, id: Name): (r: nat)
    ensures r <= |table| && (r < |table| ==> table[r].id == id)
    ensures forall k :: 0 <= k < r ==> table[k].id != id
  {
    if table == [] then 0
    else
      var r := Find(table[..|table| - 1], id);
      if r < |table| - 1 || table[r].id == id then r else |table|
  }

  function Put(slots: seq<Slot>, n: nat, call: Call): seq<Slot> {
    var k := Find(Calls(slots), call.id);
    if k < |slots| then slots[k := Slot(slots[k].first, n, call)] else slots + [Slot(n, n, call)]
  }

  function Drop<T>(s: seq<T>, k: nat): seq<T>
    requires k < |s|
  {
    s[..k] + s[k + 1..]
  }

  /** The table after the events E. */
  function Pending(E: seq<Event>): seq<Slot> {
    if E == [] then []
    else
      var n := |E| - 1;
      var slots := Pending(E[..n]);
      match E[n]
      case Made(call) => Put(slots, n, call)
      case Answered(answer) =>
        var k := Find(Calls(slots), answer.id);
        if k < |slots| then Drop(slots, k) else slots
  }

  // ---------------------------------------------------------------- the trace of what is yielded

  /** An invocation with the session and events it was made of. */
  datatype Yielded = Yielded(session: nat, at: nat, reply: Option<nat>, invocation: Invocation)

  function Resolved(s: nat, E: seq<Event>): seq<Yielded> {
    if E == [] then []
    else
      var n := |E| - 1;
      var slots := Pending(E[..n]);
      Resolved(s, E[..n])
      + match E[n]
        case Made(call) => []
        case Answered(answer) =>
          var k := Find(Calls(slots), answer.id);
          if k < |slots| then [Yielded(s, slots[k].latest, Some(n), Invocation(slots[k].call, Some(answer)))] else []
  }

  function Unresolved(s: nat, slots: seq<Slot>): (r: seq<Yielded>)
    ensures |r| == |slots|
    ensures forall k :: 0 <= k < |slots| ==> r[k] == Yielded(s, slots[k].latest, None, Invocation(slots[k].call, None))
  {
    seq(|slots|, k requires 0 <= k < |slots| => Yielded(s, slots[k].latest, None, Invocation(slots[k].call, None)))
  }

  function SessionTrace(s: nat, E: seq<Event>, includeUnresolved: bool): seq<Yielded> {
    Resolved(s, E) + if includeUnresolved then Unresolved(s, Pending(E)) else []
  }

  /** Everything the stream would yield without a limit. */
  function Trace(wanted: set<Name>, sessions: seq<Session>, includeUnresolved: bool): seq<Yielded> {
    if sessions == [] then []
    else
      var s := |sessions| - 1;
      Trace(wanted, sessions[..s], includeUnresolved)
      + SessionTrace(s, SessionEvents(wanted, sessions[s]), includeUnresolved)
  }

  function Invocations(trace: seq<Yielded>): (r: seq<Invocation>)
    ensures |r| == |trace| && forall k :: 0 <= k < |trace| ==> r[k] == trace[k].invocation
  {
    seq(|trace|, k requires 0 <= k < |trace| => trace[k].invocation)
  }

  // ---------------------------------------------------------------- the limit

  datatype LimitMode = CallLimit | EventLimit

  function EventWeight(mode: LimitMode, invocation: Invocation): nat {
    if mode == CallLimit then 1 else if invocation.result.Some? then 2 else 1
  }

  function Weight(mode: LimitMode, out: seq<Invocation>): nat {
    if out == [] then 0 else Weight(mode, out[..|out| - 1]) + EventWeight(mode, out[|out| - 1])
  }

  ghost predicate Full(mode: LimitMode, maxItems: int, out: seq<Invocation>) {
    out != [] && Weight(mode, out) >= maxItems
  }

  /** No prefix of `out` has reached the limit. */
  ghost predicate Going(mode: LimitMode, maxItems: int, out: seq<Invocation>) {
    forall k :: 0 <= k <= |out| ==> !Full(mode, maxItems, out[..k])
  }

  /** `out` is `all` cut after the first member that reaches the limit. */
  ghost predicate Limited(mode: LimitMode, maxItems: int, all: seq<Invocation>, out: seq<Invocation>) {
    && out <= all
    && (forall k :: 0 <= k < |out| ==> !Full(mode, maxItems, out[..k]))
    && (out == all || Full(mode, maxItems, out))
  }

  /** The limit picks one prefix, and with a positive limit it overshoots by at most one. */
  lemma LimitIsExact(mode: LimitMode, maxItems: int, all: seq<Invocation>, a: seq<Invocation>, b: seq<Invocation>)
    requires Limited(mode, maxItems, all, a)
    ensures Limited(mode, maxItems, all, b) ==> a == b
    ensures maxItems > 0 ==> Weight(mode, a) <= maxItems + (if mode == CallLimit then 0 else 1)
  {
    if Limited(mode, maxItems, all, b) {
      LimitedLength(mode, maxItems, all, a, b);
      LimitedLength(mode, maxItems, all, b, a);
      assert |a| == |b|;
      assert all[..|a|] == a && all[..|b|] == b;
    }
    if a != [] {
      assert !Full(mode, maxItems, a[..|a| - 1]);
    }
  }

  lemma LimitedLength(mode: LimitMode, maxItems: int, all: seq<Invocation>, a: seq<Invocation>, b: seq<Invocation>)
    requires Limited(mode, maxItems, all, a) && Limited(mode, maxItems, all, b)
    ensures |a| >= |b|
  {
    hide Full;
    var k := if |a| < |b| then |a| else |b|;
    assert a[..k] == all[..k] && b[..k] == all[..k];
    assert a[..|a|] == a;
  }

  lemma GoingNext(mode: LimitMode, maxItems: int, out: seq<Invocation>, next: Invocation)
    requires Going(mode, maxItems, out)
    ensures Weight(mode, out + [next]) == Weight(mode, out) + EventWeight(mode, next)
    ensures Going(mode, maxItems, out + [next]) <==> Weight(mode, out + [next]) < maxItems
    ensures forall k :: 0 <= k <= |out| ==> !Full(mode, maxItems, (out + [next])[..k])
  {
    hide Full, EventWeight, Weight;
    var more := out + [next];
    WeightNext(mode, out, next);
    assert more[..|more|] == more;
    forall k | 0 <= k <= |out| ensures !Full(mode, maxItems, more[..k]) {
      assert more[..k] == out[..k];
    }
    FullMeans(mode, maxItems, out, next);
    assert Full(mode, maxItems, more[..|more|]) <==> Weight(mode, more) >= maxItems;
  }

  lemma WeightNext(mode: LimitMode, out: seq<Invocation>, next: Invocation)
    ensures Weight(mode, out + [next]) == Weight(mode, out) + EventWeight(mode, next)
  {
    assert (out + [next])[..|out|] == out;
  }

  lemma FullMeans(mode: LimitMode, maxItems: int, out: seq<Invocation>, next: Invocation)
    ensures Full(mode, maxItems, out + [next]) <==> Weight(mode, out + [next]) >= maxItems
  {
    hide Weight;
  }

  // ---------------------------------------------------------------- prefixes

  lemma {:induction false} ResolvedPrefix(s: nat, E: seq<Event>, n: nat)
    requires n <= |E|
    ensures Resolved(s, E[..n]) <= Resolved(s, E)
  {
    if n < |E| {
      ResolvedPrefix(s, E[..|E| - 1], n);
      assert E[..|E| - 1][..n] == E[..n];
    } else {
      assert E[..n] == E;
    }
  }

  lemma {:induction false} EventsPrefix(wanted: set<Name>, file: Name, entries: seq<Entry>, n: nat)
    requires n <= |entries|
    ensures Events(wanted, file, entries[..n]) <= Events(wanted, file, entries)
  {
    if n < |entries| {
      EventsPrefix(wanted, file, entries[..|entries| - 1], n);
      assert entries[..|entries| - 1][..n] == entries[..n];
    } else {
      assert entries[..n] == entries;
    }
  }

  lemma {:induction false} TracePrefix(wanted: set<Name>, sessions: seq<Session>, includeUnresolved: bool, n: nat)
    requires n <= |sessions|
    ensures Trace(wanted, sessions[..n], includeUnresolved) <= Trace(wanted, sessions, includeUnresolved)
  {
    if n < |sessions| {
      TracePrefix(wanted, sessions[..|sessions| - 1], includeUnresolved, n);
      assert sessions[..|sessions| - 1][..n] == sessions[..n];
    } else {
      assert sessions[..n] == sessions;
    }
  }

  lemma InvocationsPrefix(a: seq<Yielded>, b: seq<Yielded>)
    requires a <= b
    ensures Invocations(a) <= Invocations(b)
  {
  }

  lemma InvocationsConcat(a: seq<Yielded>, b: seq<Yielded>)
    ensures Invocations(a + b) == Invocations(a) + Invocations(b)
  {
  }

  /** What sessions 0..s and the first part of session s yield is a prefix of everything. */
  lemma PartialTrace(wanted: set<Name>, sessions: seq<Session>, includeUnresolved: bool, s: nat, part: seq<Yielded>)
    requires s < |sessions| && part <= SessionTrace(s, SessionEvents(wanted, sessions[s]), includeUnresolved)
    ensures Invocations(Trace(wanted, sessions[..s], includeUnresolved)) + Invocations(part)
         <= Invocations(Trace(wanted, sessions, includeUnresolved))
  {
    hide SessionTrace, SessionEvents, Invocations;
    var before, whole := Trace(wanted, sessions[..s], includeUnresolved),
      SessionTrace(s, SessionEvents(wanted, sessions[s]), includeUnresolved);
    assert sessions[..s + 1][..s] == sessions[..s];
    TracePrefix(wanted, sessions, includeUnresolved, s + 1);
    assert before + part <= before + whole;
    InvocationsPrefix(before + part, Trace(wanted, sessions, includeUnresolved));
    InvocationsConcat(before, part);
  }

  lemma ResolvedPart(wanted: set<Name>, sessions: seq<Session>, includeUnresolved: bool, s: nat, n: nat)
    requires s < |sessions| && n <= |sessions[s].entries|
    ensures Invocations(Trace(wanted, sessions[..s], includeUnresolved))
            + Invocations(Resolved(s, Events(wanted, sessions[s].file, sessions[s].entries[..n])))
         <= Invocations(Trace(wanted, sessions, includeUnresolved))
  {
    hide Invocations, Trace, Resolved, Events;
    var E := SessionEvents(wanted, sessions[s]);
    var some := Events(wanted, sessions[s].file, sessions[s].entries[..n]);
    EventsPrefix(wanted, sessions[s].file, sessions[s].entries, n);
    assert E[..|some|] == some;
    ResolvedPrefix(s, E, |some|);
    PartialTrace(wanted, sessions, includeUnresolved, s, Resolved(s, some));
  }

  // ---------------------------------------------------------------- the stream

  lemma PutCalls(slots: seq<Slot>, n: nat, call: Call)
    ensures Calls(Put(slots, n, call)) == var k := Find(Calls(slots), call.id);
                                          if k < |slots| then Calls(slots)[k := call] else Calls(slots) + [call]
  {
  }

  lemma DropCalls(slots: seq<Slot>, k: nat)
    requires k < |slots|
    ensures Calls(Drop(slots, k)) == Drop(Calls(slots), k)
  {
  }

  lemma AfterCall(s: nat, E: seq<Event>, call: Call)
    ensures Pending(E + [Made(call)]) == Put(Pending(E), |E|, call)
    ensures Resolved(s, E + [Made(call)]) == Resolved(s, E)
  {
    hide Put;
    assert (E + [Made(call)])[..|E|] == E;
  }

  lemma AfterAnswer(s: nat, E: seq<Event>, answer: Answer)
    ensures var k := Find(Calls(Pending(E)), answer.id);
            Pending(E + [Answered(answer)]) == (if k < |Pending(E)| then Drop(Pending(E), k) else Pending(E))
    ensures var k := Find(Calls(Pending(E)), answer.id);
            Invocations(Resolved(s, E + [Answered(answer)]))
            == Invocations(Resolved(s, E))
               + if k < |Pending(E)| then [Invocation(Pending(E)[k].call, Some(answer))] else []
  {
    hide Drop;
    assert (E + [Answered(answer)])[..|E|] == E;
  }

  /** The calls of one assistant message enter the pending table; a repeated id keeps its place. */
  method RecordCalls(wanted: set<Name>, file: Name, content: seq<Content>, context: Name, table: seq<Call>,
                     ghost s: nat, ghost E: seq<Event>)
    returns (pending: seq<Call>)
    requires table == Calls(Pending(E))
    ensures pending == Calls(Pending(E + CallEvents(wanted, file, content, context)))
    ensures Resolved(s, E + CallEvents(wanted, file, content, context)) == Resolved(s, E)
  {
    hide Pending, Resolved, Calls, Put;
    pending := table;
    assert content[..0] == [] && E + [] == E;
    for i := 0 to |content|
      invariant pending == Calls(Pending(E + CallEvents(wanted, file, content[..i], context)))
      invariant Resolved(s, E + CallEvents(wanted, file, content[..i], context)) == Resolved(s, E)
    {
      ghost var now := E + CallEvents(wanted, file, content[..i], context);
      assert content[..i + 1][..i] == content[..i];
      var item := content[i];
      if item.CallItem? && Relevant(wanted, item.name, item.id) {
        var call := CallOf(file, item, context);
        AfterCall(s, now, call);
        PutCalls(Pending(now), |now|, call);
        assert E + CallEvents(wanted, file, content[..i + 1], context) == now + [Made(call)];
        var k := Find(pending, call.id);
        pending := if k < |pending| then pending[k := call] else pending + [call];
      } else {
        assert E + CallEvents(wanted, file, content[..i + 1], context) == now;
      }
    }
    assert content[..|content|] == content;
  }

  /** The calls still pending at the end of session s, in table order, until the limit. */
  method YieldUnresolved(ghost wanted: set<Name>, ghost sessions: seq<Session>, mode: LimitMode, maxItems: int,
                         ghost s: nat, pending: seq<Call>, before: seq<Invocation>, seenBefore: nat)
    returns (out: seq<Invocation>, seenItems: nat, stopped: bool)
    requires s < |sessions| && pending == Calls(Pending(SessionEvents(wanted, sessions[s])))
    requires before == Invocations(Trace(wanted, sessions[..s], true))
                       + Invocations(Resolved(s, SessionEvents(wanted, sessions[s])))
    requires seenBefore == Weight(mode, before) && Going(mode, maxItems, before)
    ensures stopped ==> Limited(mode, maxItems, Invocations(Trace(wanted, sessions, true)), out)
    ensures !stopped ==> seenItems == Weight(mode, out) && Going(mode, maxItems, out)
                         && out == before + Invocations(Unresolved(s, Pending(SessionEvents(wanted, sessions[s]))))
  {
    hide *;
    ghost var slots := Pending(SessionEvents(wanted, sessions[s]));
    ghost var rest := Invocations(Unresolved(s, slots));
    RestIs(s, slots);
    out, seenItems := before, seenBefore;
    for u := 0 to |pending|
      invariant |rest| == |pending| && out == before + rest[..u]
      invariant seenItems == Weight(mode, out) && Going(mode, maxItems, out)
    {
      var invocation := Invocation(pending[u], None);
      assert rest[..u + 1] == rest[..u] + [invocation];
      GoingNext(mode, maxItems, out, invocation);
      seenItems := seenItems + EventWeight(mode, invocation);
      out := out + [invocation];
      if seenItems >= maxItems {
        UnresolvedPart(wanted, sessions, s, u + 1);
        LimitReached(mode, maxItems, Invocations(Trace(wanted, sessions, true)), out);
        return out, seenItems, true;
      }
    }
    assert rest[..|pending|] == rest;
    stopped := false;
  }

  /** The stream of invocations, as the list a consumer that reads it to the end receives. */
  method IterToolInvocations(wanted: set<Name>, sessions: seq<Session>, mode: LimitMode, maxItems: int,
                             includeUnresolved: bool)
    returns (out: seq<Invocation>)
    ensures Limited(mode, maxItems, Invocations(Trace(wanted, sessions, includeUnresolved)), out)
  {
    hide Invocations, Trace, Going, Full, Events, Resolved, Pending, Weight, CallEvents, EventWeight, Limited, Drop,
      Unresolved;
    ghost var all := Invocations(Trace(wanted, sessions, includeUnresolved));
    var seenItems: nat := 0;
    out := [];
    Nothing(wanted, sessions, mode, maxItems, includeUnresolved);
    for s := 0 to |sessions|
      invariant out == Invocations(Trace(wanted, sessions[..s], includeUnresolved))
      invariant seenItems == Weight(mode, out) && Going(mode, maxItems, out)
    {
      var file, entries := sessions[s].file, sessions[s].entries;
      ghost var before := out;
      var pending: seq<Call> := [];
      NoEntries(wanted, file, entries, s);
      for e := 0 to |entries|
        invariant pending == Calls(Pending(Events(wanted, file, entries[..e])))
        invariant out == before + Invocations(Resolved(s, Events(wanted, file, entries[..e])))
        invariant seenItems == Weight(mode, out) && Going(mode, maxItems, out)
      {
        ghost var E := Events(wanted, file, entries[..e]);
        NextEntry(wanted, file, entries, e);
        match entries[e]
        case Assistant(content, context) =>
          pending := RecordCalls(wanted, file, content, context, pending, s, E);
        case ResultMessage(name, id, body) =>
          if Relevant(wanted, name, id) {
            var answer := Answer(id.value, name.value, body);
            AfterAnswer(s, E, answer);
            var k := Find(pending, answer.id);
            if k < |pending| {
              var invocation := Invocation(pending[k], Some(answer));
              GoingNext(mode, maxItems, out, invocation);
              DropCalls(Pending(E), k);
              pending := Drop(pending, k);
              seenItems := seenItems + EventWeight(mode, invocation);
              out := out + [invocation];
              if seenItems >= maxItems {
                ResolvedPart(wanted, sessions, includeUnresolved, s, e + 1);
                LimitReached(mode, maxItems, all, out);
                return;
              }
            }
          }
        case OtherEntry =>
      }
      assert entries[..|entries|] == entries;
      SessionEnd(wanted, sessions, includeUnresolved, s);
      if includeUnresolved {
        var stopped;
        out, seenItems, stopped := YieldUnresolved(wanted, sessions, mode, maxItems, s, pending, out, seenItems);
        if stopped { return; }
      }
    }
    assert sessions[..|sessions|] == sessions;
    EndReached(mode, maxItems, all, out);
  }

  lemma Nothing(wanted: set<Name>, sessions: seq<Session>, mode: LimitMode, maxItems: int, includeUnresolved: bool)
    ensures Invocations(Trace(wanted, sessions[..0], includeUnresolved)) == []
    ensures Weight(mode, []) == 0 && Going(mode, maxItems, [])
  {
  }

  lemma NoEntries(wanted: set<Name>, file: Name, entries: seq<Entry>, s: nat)
    ensures Events(wanted, file, entries[..0]) == [] && Calls(Pending([])) == [] && Invocations(Resolved(s, [])) == []
  {
  }

  lemma NextEntry(wanted: set<Name>, file: Name, entries: seq<Entry>, e: nat)
    requires e < |entries|
    ensures Events(wanted, file, entries[..e + 1])
            == Events(wanted, file, entries[..e]) + EntryEvents(wanted, file, entries[e])
    ensures EntryEvents(wanted, file, entries[e]) == [] ==>
              Events(wanted, file, entries[..e + 1]) == Events(wanted, file, entries[..e])
  {
    assert entries[..e + 1][..e] == entries[..e];
  }

  lemma LimitReached(mode: LimitMode, maxItems: int, all: seq<Invocation>, out: seq<Invocation>)
    requires out <= all && out != [] && Weight(mode, out) >= maxItems
    requires forall k :: 0 <= k <= |out| - 1 ==> !Full(mode, maxItems, out[..k])
    ensures Limited(mode, maxItems, all, out)
  {
  }

  lemma EndReached(mode: LimitMode, maxItems: int, all: seq<Invocation>, out: seq<Invocation>)
    requires out == all && Going(mode, maxItems, out)
    ensures Limited(mode, maxItems, all, out)
  {
    hide Full;
  }

  lemma SessionEnd(wanted: set<Name>, sessions: seq<Session>, includeUnresolved: bool, s: nat)
    requires s < |sessions|
    ensures var E := SessionEvents(wanted, sessions[s]);
            Invocations(Trace(wanted, sessions[..s + 1], includeUnresolved))
            == Invocations(Trace(wanted, sessions[..s], includeUnresolved)) + Invocations(Resolved(s, E))
               + if includeUnresolved then Invocations(Unresolved(s, Pending(E))) else []
  {
    hide Invocations, Resolved, Pending;
    var E := SessionEvents(wanted, sessions[s]);
    var before, r, u := Trace(wanted, sessions[..s], includeUnresolved), Resolved(s, E), Unresolved(s, Pending(E));
    assert sessions[..s + 1][..s] == sessions[..s];
    InvocationsConcat(before, SessionTrace(s, E, includeUnresolved));
    InvocationsConcat(r, u);
    assert r + [] == r;
    assert SessionTrace(s, E, includeUnresolved) == if includeUnresolved then r + u else r;
    assert Invocations(before) + (Invocations(r) + Invocations(u))
           == Invocations(before) + Invocations(r) + Invocations(u);
    assert Invocations(before) + Invocations(r) + [] == Invocations(before) + Invocations(r);
  }

  lemma RestIs(s: nat, slots: seq<Slot>)
    ensures var rest := Invocations(Unresolved(s, slots));
            |rest| == |slots| && forall k :: 0 <= k < |slots| ==> rest[k] == Invocation(Calls(slots)[k], None)
  {
  }

  lemma UnresolvedPart(wanted: set<Name>, sessions: seq<Session>, s: nat, n: nat)
    requires s < |sessions| && n <= |Pending(SessionEvents(wanted, sessions[s]))|
    ensures var E := SessionEvents(wanted, sessions[s]);
            |Invocations(Unresolved(s, Pending(E)))| == |Pending(E)|
            && Invocations(Trace(wanted, sessions[..s], true)) + Invocations(Resolved(s, E))
               + Invocations(Unresolved(s, Pending(E)))[..n]
               <= Invocations(Trace(wanted, sessions, true))
  {
    hide Trace, Resolved, Pending, SessionEvents;
    var E := SessionEvents(wanted, sessions[s]);
    var u := Unresolved(s, Pending(E));
    var part := Resolved(s, E) + u[..n];
    PartialTrace(wanted, sessions, true, s, part);
    InvocationsConcat(Resolved(s, E), u[..n]);
    assert Invocations(u[..n]) == Invocations(u)[..n];
    assert Invocations(Trace(wanted, sessions[..s], true)) + Invocations(part)
        == Invocations(Trace(wanted, sessions[..s], true)) + Invocations(Resolved(s, E)) + Invocations(u)[..n];
  }

  // ---------------------------------------------------------------- the table holds exactly the unanswered calls

  ghost predicate SlotOk(E: seq<Event>, slot: Slot) {
    Unanswered(E, slot.latest) && E[slot.latest] == Made(slot.call) && StartsRun(E, slot.first, slot.latest)
  }

  /** The table in order of the first call of each pending run, with every unanswered call in it. */
  ghost predicate TableOk(E: seq<Event>, slots: seq<Slot>) {
    && (forall k :: 0 <= k < |slots| ==> SlotOk(E, slots[k]))
    && (forall k, l :: 0 <= k < l < |slots| ==> slots[k].first < slots[l].first && slots[k].call.id != slots[l].call.id)
    && (forall i :: 0 <= i < |E| && Unanswered(E, i) ==> exists k :: 0 <= k < |slots| && slots[k].latest == i)
  }

  lemma SlotKept(E: seq<Event>, e: Event, slot: Slot)
    requires SlotOk(E, slot) && e.Id() != slot.call.id
    ensures SlotOk(E + [e], slot)
  {
    RunKept(E, e, slot.first, slot.latest);
    UnansweredNext(E, e, slot.latest);
    var F := E + [e];
    assert F[slot.latest] == E[slot.latest];
  }

  lemma RunKept(E: seq<Event>, e: Event, first: nat, latest: nat)
    requires StartsRun(E, first, latest)
    ensures StartsRun(E + [e], first, latest)
  {
    hide AnsweredWithin;
    var F := E + [e];
    assert forall k :: 0 <= k < |E| ==> F[k] == E[k];
    forall k | 0 <= k < first && F[k].Id() == F[latest].Id() ensures AnsweredWithin(F, k, first) {
      assert E[k].Id() == E[latest].Id();
      WithinKept(E, e, k, first);
    }
  }

  lemma WithinKept(E: seq<Event>, e: Event, k: nat, first: nat)
    requires k < |E| && first <= |E| && AnsweredWithin(E, k, first)
    ensures AnsweredWithin(E + [e], k, first)
  {
    var m :| k <= m < first && E[m].Answered? && E[m].Id() == E[k].Id();
    assert (E + [e])[m] == E[m];
  }

  lemma UnansweredNext(E: seq<Event>, e: Event, i: nat)
    requires i < |E|
    ensures Unanswered(E + [e], i) <==> Unanswered(E, i) && E[i].Id() != e.Id()
  {
    var F := E + [e];
    assert forall k :: 0 <= k < |E| ==> F[k] == E[k];
    assert F[|E|] == e;
  }

  /** A call continues the run of its id. */
  lemma SlotReplaced(E: seq<Event>, call: Call, slot: Slot)
    requires SlotOk(E, slot) && slot.call.id == call.id
    ensures SlotOk(E + [Made(call)], Slot(slot.first, |E|, call))
  {
    var F := E + [Made(call)];
    assert forall k :: 0 <= k < |E| ==> F[k] == E[k];
    RunKept(E, Made(call), slot.first, slot.latest);
    hide AnsweredWithin;
    assert forall k :: slot.latest < k < |E| ==> E[k].Id() != E[slot.latest].Id();
  }

  lemma WaitingHasSlot(E: seq<Event>, slots: seq<Slot>, i: nat)
    requires TableOk(E, slots)
    ensures Unanswered(E, i) ==> exists l :: 0 <= l < |slots| && slots[l].latest == i && slots[l].call.id == E[i].Id()
  {
    if Unanswered(E, i) {
      var l :| 0 <= l < |slots| && slots[l].latest == i;
      assert SlotOk(E, slots[l]);
    }
  }

  /** Without a slot of its id, every earlier call of the id is followed by a result. */
  lemma {:induction false} AnsweredBefore(E: seq<Event>, slots: seq<Slot>, id: Name, k: nat) returns (m: nat)
    requires TableOk(E, slots) && (forall l :: 0 <= l < |slots| ==> slots[l].call.id != id) && k < |E|
             && E[k].Id() == id
    ensures k <= m < |E| && E[m].Answered? && E[m].Id() == id
    decreases |E| - k
  {
    if E[k].Answered? { return k; }
    WaitingHasSlot(E, slots, k);
    var j :| k < j < |E| && E[j].Id() == E[k].Id();
    m := AnsweredBefore(E, slots, id, j);
  }

  lemma SlotOpened(E: seq<Event>, slots: seq<Slot>, call: Call)
    requires TableOk(E, slots) && forall l :: 0 <= l < |slots| ==> slots[l].call.id != call.id
    ensures SlotOk(E + [Made(call)], Slot(|E|, |E|, call))
  {
    var F := E + [Made(call)];
    forall k | 0 <= k < |E| && F[k].Id() == call.id ensures AnsweredWithin(F, k, |E|) {
      var m := AnsweredBefore(E, slots, call.id, k);
      assert F[m] == E[m];
    }
  }

  /** No slot is left out when an event arrives. */
  lemma StillComplete(E: seq<Event>, e: Event, slots: seq<Slot>, next: seq<Slot>)
    requires TableOk(E, slots)
    requires forall k :: 0 <= k < |slots| && slots[k].call.id != e.Id() ==> slots[k] in next
    requires e.Made? ==> exists k :: 0 <= k < |next| && next[k].latest == |E|
    ensures forall i :: 0 <= i < |E + [e]| && Unanswered(E + [e], i) ==> exists k ::
              0 <= k < |next| && next[k].latest == i
  {
    forall i | 0 <= i < |E + [e]| && Unanswered(E + [e], i) ensures exists k :: 0 <= k < |next| && next[k].latest == i {
      if i < |E| {
        UnansweredNext(E, e, i);
        var k :| 0 <= k < |slots| && slots[k].latest == i;
        assert SlotOk(E, slots[k]);
        var l :| 0 <= l < |next| && next[l] == slots[k];
      }
    }
  }

  lemma PutOk(E: seq<Event>, call: Call, slots: seq<Slot>)
    requires TableOk(E, slots)
    ensures TableOk(E + [Made(call)], Put(slots, |E|, call))
  {
    hide SlotOk, StartsRun, Unanswered;
    var F, next := E + [Made(call)], Put(slots, |E|, call);
    var r := Find(Calls(slots), call.id);
    OtherIds(E, slots, call.id);
    forall k | 0 <= k < |next| ensures SlotOk(F, next[k]) {
      if k < |slots| && k != r { SlotKept(E, Made(call), slots[k]); }
      else if r < |slots| { SlotReplaced(E, call, slots[r]); }
      else { SlotOpened(E, slots, call); }
    }
    forall k | 0 <= k < |slots| ensures slots[k].first < |E| { FirstBelow(E, slots[k]); }
    forall k | 0 <= k < |slots| && slots[k].call.id != call.id ensures slots[k] in next { assert next[k] == slots[k]; }
    var at := if r < |slots| then r else |slots|;
    assert next[at].latest == |E|;
    StillComplete(E, Made(call), slots, next);
  }

  lemma FirstBelow(E: seq<Event>, slot: Slot)
    requires SlotOk(E, slot)
    ensures slot.first < |E|
  {
  }

  lemma OtherIds(E: seq<Event>, slots: seq<Slot>, id: Name)
    requires TableOk(E, slots)
    ensures forall k :: 0 <= k < |slots| && k != Find(Calls(slots), id) ==> slots[k].call.id != id
  {
    hide SlotOk, Unanswered;
    var r := Find(Calls(slots), id);
    forall k | 0 <= k < |slots| && k != r ensures slots[k].call.id != id {
      if k < r { assert Calls(slots)[k].id != id; } else { assert Calls(slots)[r].id == id; }
    }
  }

  lemma AnswerOk(E: seq<Event>, answer: Answer, slots: seq<Slot>)
    requires TableOk(E, slots)
    ensures var k := Find(Calls(slots), answer.id);
            TableOk(E + [Answered(answer)], if k < |slots| then Drop(slots, k) else slots)
  {
    hide SlotOk, TableOk, Calls, Find, Drop;
    var r := Find(Calls(slots), answer.id);
    OtherIds(E, slots, answer.id);
    if r < |slots| { AnswerDrops(E, answer, slots, r); } else { AnswerIgnored(E, answer, slots); }
  }

  lemma AnswerIgnored(E: seq<Event>, answer: Answer, slots: seq<Slot>)
    requires TableOk(E, slots) && forall k :: 0 <= k < |slots| ==> slots[k].call.id != answer.id
    ensures TableOk(E + [Answered(answer)], slots)
  {
    hide SlotOk, Unanswered;
    forall k | 0 <= k < |slots| ensures SlotOk(E + [Answered(answer)], slots[k]) {
      SlotKept(E, Answered(answer), slots[k]);
    }
    StillComplete(E, Answered(answer), slots, slots);
  }

  lemma AnswerDrops(E: seq<Event>, answer: Answer, slots: seq<Slot>, r: nat)
    requires TableOk(E, slots) && r < |slots| && slots[r].call.id == answer.id
    requires forall k :: 0 <= k < |slots| && k != r ==> slots[k].call.id != answer.id
    ensures TableOk(E + [Answered(answer)], Drop(slots, r))
  {
    hide SlotOk, Unanswered;
    var F, next := E + [Answered(answer)], Drop(slots, r);
    forall k | 0 <= k < |next| ensures SlotOk(F, next[k]) {
      var l := if k < r then k else k + 1;
      assert next[k] == slots[l];
      SlotKept(E, Answered(answer), slots[l]);
    }
    forall k | 0 <= k < |slots| && slots[k].call.id != answer.id ensures slots[k] in next {
      assert next[if k < r then k else k - 1] == slots[k];
    }
    StillComplete(E, Answered(answer), slots, next);
  }

  /** After any events, the table holds exactly the calls never named again, in the order in which their
      pending runs began. */
  lemma {:induction false} PendingExact(E: seq<Event>)
    ensures TableOk(E, Pending(E))
  {
    hide TableOk, Put, Drop, Calls, Find;
    if E == [] {
      EmptyTable();
    } else {
      var n := |E| - 1;
      PendingExact(E[..n]);
      assert E == E[..n] + [E[n]];
      match E[n]
      case Made(call) => PutOk(E[..n], call, Pending(E[..n]));
      case Answered(answer) => AnswerOk(E[..n], answer, Pending(E[..n]));
    }
  }

  lemma EmptyTable()
    ensures TableOk([], [])
  {
  }

  // ---------------------------------------------------------------- exactly the answered pairs are yielded

  ghost predicate YieldOk(E: seq<Event>, y: Yielded) {
    && y.reply.Some? && Answers(E, y.at, y.reply.value)
    && y.invocation == Invocation(E[y.at].call, Some(E[y.reply.value].answer))
  }

  lemma AnswersNext(E: seq<Event>, e: Event, i: nat, j: nat)
    requires j < |E|
    ensures Answers(E + [e], i, j) <==> Answers(E, i, j)
  {
    var F := E + [e];
    assert forall k :: 0 <= k < |E| ==> F[k] == E[k];
  }

  lemma AnswersLast(E: seq<Event>, e: Event, i: nat)
    ensures Answers(E + [e], i, |E|) <==> e.Answered? && Unanswered(E, i) && E[i].Id() == e.Id()
  {
    var F := E + [e];
    assert forall k :: 0 <= k < |E| ==> F[k] == E[k];
    assert F[|E|] == e;
  }

  /** The yielded pairs with a result, in the order of the results. */
  ghost predicate ResolvedOk(s: nat, E: seq<Event>, ys: seq<Yielded>) {
    && (forall k :: 0 <= k < |ys| ==> ys[k].session == s && YieldOk(E, ys[k]))
    && InReplyOrder(ys)
    && (forall i: nat, j: nat :: Answers(E, i, j) ==> Shows(ys, i, j))
  }

  ghost predicate InReplyOrder(ys: seq<Yielded>) {
    forall k, l :: 0 <= k < l < |ys| ==>
      ys[k].reply.Some? && ys[l].reply.Some? && ys[k].reply.value < ys[l].reply.value
  }

  /** The call at i is yielded with the result at j. */
  ghost predicate Shows(ys: seq<Yielded>, i: nat, j: nat) {
    exists k :: 0 <= k < |ys| && ys[k].at == i && ys[k].reply == Some(j)
  }

  lemma {:induction false} ResolvedExact(s: nat, E: seq<Event>)
    ensures ResolvedOk(s, E, Resolved(s, E))
  {
    hide ResolvedOk, Pending, TableOk;
    if E == [] {
      NoneResolved(s);
    } else {
      var n := |E| - 1;
      ResolvedExact(s, E[..n]);
      PendingExact(E[..n]);
      assert E == E[..n] + [E[n]];
      match E[n]
      case Made(call) => ResolvedKept(s, E[..n], E[n], Resolved(s, E[..n]));
      case Answered(answer) =>
        var slots := Pending(E[..n]);
        var k := Find(Calls(slots), answer.id);
        if k < |slots| {
          ResolvedMore(s, E[..n], answer, Resolved(s, E[..n]), slots, k);
        } else {
          NoneWaiting(E[..n], answer, slots);
          ResolvedKept(s, E[..n], E[n], Resolved(s, E[..n]));
        }
    }
  }

  lemma NoneResolved(s: nat)
    ensures ResolvedOk(s, [], [])
  {
  }

  lemma NoneWaiting(E: seq<Event>, answer: Answer, slots: seq<Slot>)
    requires TableOk(E, slots) && Find(Calls(slots), answer.id) == |slots|
    ensures forall i: nat :: !Answers(E + [Answered(answer)], i, |E|)
  {
    hide Answers, StartsRun, Quiet;
    forall i: nat ensures !Answers(E + [Answered(answer)], i, |E|) {
      AnswersLast(E, Answered(answer), i);
      if Unanswered(E, i) {
        var k :| 0 <= k < |slots| && slots[k].latest == i;
        assert SlotOk(E, slots[k]) && Calls(slots)[k].id != answer.id;
      }
    }
  }

  lemma YieldKept(E: seq<Event>, e: Event, y: Yielded)
    requires YieldOk(E, y)
    ensures YieldOk(E + [e], y)
  {
    AnswersNext(E, e, y.at, y.reply.value);
  }

  lemma ResolvedKept(s: nat, E: seq<Event>, e: Event, ys: seq<Yielded>)
    requires ResolvedOk(s, E, ys) && forall i: nat :: !Answers(E + [e], i, |E|)
    ensures ResolvedOk(s, E + [e], ys + [])
  {
    hide YieldOk, Answers, Shows, InReplyOrder;
    assert ys + [] == ys;
    var F := E + [e];
    forall k | 0 <= k < |ys| ensures ys[k].session == s && YieldOk(F, ys[k]) { YieldKept(E, e, ys[k]); }
    forall i: nat, j: nat | Answers(F, i, j) ensures Shows(ys, i, j) {
      AnswersWithin(F, i, j);
      assert j != |E|;
      AnswersNext(E, e, i, j);
    }
  }

  lemma AnswersWithin(E: seq<Event>, i: nat, j: nat)
    requires Answers(E, i, j)
    ensures i < j < |E|
  {
  }

  lemma YieldWithin(E: seq<Event>, y: Yielded)
    requires YieldOk(E, y)
    ensures y.reply.Some? && y.reply.value < |E|
  {
  }

  lemma ResolvedMore(s: nat, E: seq<Event>, answer: Answer, ys: seq<Yielded>, slots: seq<Slot>, r: nat)
    requires ResolvedOk(s, E, ys) && TableOk(E, slots) && r == Find(Calls(slots), answer.id) < |slots|
    ensures ResolvedOk(s, E + [Answered(answer)],
                       ys + [Yielded(s, slots[r].latest, Some(|E|), Invocation(slots[r].call, Some(answer)))])
  {
    hide YieldOk, Answers;
    var F := E + [Answered(answer)];
    var y := Yielded(s, slots[r].latest, Some(|E|), Invocation(slots[r].call, Some(answer)));
    var zs := ys + [y];
    AnsweredSlot(E, answer, slots, r, s);
    forall k | 0 <= k < |ys| ensures YieldOk(F, ys[k]) && ys[k].reply.Some? && ys[k].reply.value < |E| {
      YieldKept(E, Answered(answer), ys[k]);
      YieldWithin(E, ys[k]);
    }
    forall i: nat, j: nat | Answers(F, i, j) ensures Shows(zs, i, j) {
      AnswersWithin(F, i, j);
      if j == |E| {
        assert zs[|ys|].at == i;
      } else {
        AnswersNext(E, Answered(answer), i, j);
        var k :| 0 <= k < |ys| && ys[k].at == i && ys[k].reply == Some(j);
        assert zs[k] == ys[k];
      }
    }
  }

  /** A result answers the call in the slot of its id, and no other. */
  lemma AnsweredSlot(E: seq<Event>, answer: Answer, slots: seq<Slot>, r: nat, s: nat)
    requires TableOk(E, slots) && r == Find(Calls(slots), answer.id) < |slots|
    ensures YieldOk(E + [Answered(answer)],
                    Yielded(s, slots[r].latest, Some(|E|), Invocation(slots[r].call, Some(answer))))
    ensures forall i: nat :: Answers(E + [Answered(answer)], i, |E|) ==> i == slots[r].latest
  {
    hide Answers, StartsRun, Quiet;
    var F := E + [Answered(answer)];
    assert SlotOk(E, slots[r]) && Calls(slots)[r].id == answer.id;
    AnswersLast(E, Answered(answer), slots[r].latest);
    assert F[slots[r].latest] == E[slots[r].latest] && F[|E|] == Answered(answer);
    OtherIds(E, slots, answer.id);
    forall i: nat | Answers(F, i, |E|) ensures i == slots[r].latest {
      AnswersLast(E, Answered(answer), i);
      var k :| 0 <= k < |slots| && slots[k].latest == i;
      assert SlotOk(E, slots[k]);
    }
  }

  // ---------------------------------------------------------------- the whole stream

  ghost predicate MemberOk(E: seq<Event>, y: Yielded) {
    if y.reply.Some? then YieldOk(E, y) else Unanswered(E, y.at) && y.invocation == Invocation(E[y.at].call, None)
  }

  /** A member pairs a call with a later result of the same id in the same session, or shows a call that
      nothing in its session answers. */
  ghost predicate Faithful(wanted: set<Name>, sessions: seq<Session>, y: Yielded) {
    y.session < |sessions| && MemberOk(SessionEvents(wanted, sessions[y.session]), y)
  }

  /** Should this call be yielded at all? */
  ghost predicate Due(E: seq<Event>, i: nat, includeUnresolved: bool) {
    (includeUnresolved && Unanswered(E, i)) || exists j: nat :: Answers(E, i, j)
  }

  ghost predicate Covers(trace: seq<Yielded>, s: nat, i: nat) {
    exists k :: 0 <= k < |trace| && trace[k].session == s && trace[k].at == i
  }

  ghost predicate NoCallTwice(trace: seq<Yielded>) {
    forall k, l :: 0 <= k < l < |trace| ==> !(trace[k].session == trace[l].session && trace[k].at == trace[l].at)
  }

  lemma AnsweredOnce(E: seq<Event>, i: nat, j: nat, l: nat)
    requires Answers(E, i, j)
    ensures Answers(E, i, l) ==> j == l
    ensures !Unanswered(E, i) && i < |E| && !Reused(E, i)
  {
  }

  lemma {:induction false} FirstNamed(E: seq<Event>, i: nat, n: nat) returns (j: nat)
    requires i < n <= |E|
    ensures i < j <= n && Quiet(E, i, j) && (j < n ==> E[j].Id() == E[i].Id())
  {
    if n == i + 1 { return n; }
    j := FirstNamed(E, i, n - 1);
    if j == n - 1 && E[n - 1].Id() != E[i].Id() { return n; }
  }

  /** A call is due exactly when its id is not reused while it is pending. */
  lemma DueUnlessReused(E: seq<Event>, i: nat)
    requires i < |E| && E[i].Made?
    ensures Due(E, i, true) <==> !Reused(E, i)
  {
    var j := FirstNamed(E, i, |E|);
    if j < |E| {
      if E[j].Answered? {
        assert Answers(E, i, j);
        AnsweredOnce(E, i, j, j);
      } else {
        assert Reused(E, i);
        if l: nat :| Answers(E, i, l) { AnsweredOnce(E, i, l, l); }
      }
    }
  }

  /** The members one session contributes: sound, no call twice, and every call that is due. */
  ghost predicate SessionOk(s: nat, E: seq<Event>, includeUnresolved: bool, part: seq<Yielded>) {
    && (forall k :: 0 <= k < |part| ==> part[k].session == s && MemberOk(E, part[k]))
    && NoCallTwice(part)
    && (forall i: nat :: Due(E, i, includeUnresolved) <==> Covers(part, s, i))
  }

  lemma ResolvedMeans(s: nat, E: seq<Event>)
    ensures var ys := Resolved(s, E);
            && (forall k :: 0 <= k < |ys| ==> ys[k].session == s && YieldOk(E, ys[k]))
            && NoCallTwice(ys)
            && (forall i: nat :: (exists j: nat :: Answers(E, i, j)) <==> Covers(ys, s, i))
  {
    hide Resolved, Answers;
    ResolvedExact(s, E);
    var ys := Resolved(s, E);
    forall k, l | 0 <= k < l < |ys| && ys[k].at == ys[l].at ensures false {
      AnsweredOnce(E, ys[k].at, ys[k].reply.value, ys[l].reply.value);
    }
    forall i: nat ensures (exists j: nat :: Answers(E, i, j)) <==> Covers(ys, s, i) {
      if j: nat :| Answers(E, i, j) {
        var k :| 0 <= k < |ys| && ys[k].at == i && ys[k].reply == Some(j);
      }
      if Covers(ys, s, i) {
        var k :| 0 <= k < |ys| && ys[k].session == s && ys[k].at == i;
        assert Answers(E, i, ys[k].reply.value);
      }
    }
  }

  lemma UnresolvedMeans(s: nat, E: seq<Event>)
    ensures var us := Unresolved(s, Pending(E));
            && (forall k :: 0 <= k < |us| ==> us[k].session == s && us[k].reply == None && MemberOk(E, us[k]))
            && NoCallTwice(us)
            && (forall i: nat :: Unanswered(E, i) <==> Covers(us, s, i))
  {
    hide Pending, StartsRun, Quiet;
    PendingExact(E);
    var slots := Pending(E);
    var us := Unresolved(s, slots);
    forall k | 0 <= k < |us| ensures MemberOk(E, us[k]) { assert SlotOk(E, slots[k]); }
    forall k, l | 0 <= k < l < |us| ensures us[k].at != us[l].at {
      assert SlotOk(E, slots[k]) && SlotOk(E, slots[l]);
    }
    forall i: nat ensures Unanswered(E, i) <==> Covers(us, s, i) {
      if Unanswered(E, i) {
        var k :| 0 <= k < |slots| && slots[k].latest == i;
        assert us[k].at == i;
      }
    }
  }

  lemma CoversConcat(a: seq<Yielded>, b: seq<Yielded>, s: nat, i: nat)
    ensures Covers(a + b, s, i) <==> Covers(a, s, i) || Covers(b, s, i)
  {
    var c := a + b;
    if Covers(a, s, i) {
      var k :| 0 <= k < |a| && a[k].session == s && a[k].at == i;
      assert c[k] == a[k];
    }
    if Covers(b, s, i) {
      var k :| 0 <= k < |b| && b[k].session == s && b[k].at == i;
      assert c[|a| + k] == b[k];
    }
    if Covers(c, s, i) {
      var k :| 0 <= k < |c| && c[k].session == s && c[k].at == i;
      assert c[k] == if k < |a| then a[k] else b[k - |a|];
    }
  }

  lemma NoCallTwiceConcat(a: seq<Yielded>, b: seq<Yielded>)
    requires NoCallTwice(a) && NoCallTwice(b)
    requires forall k, l :: 0 <= k < |a| && 0 <= l < |b| ==> !(a[k].session == b[l].session && a[k].at == b[l].at)
    ensures NoCallTwice(a + b)
  {
  }

  lemma SessionIsOk(s: nat, E: seq<Event>, includeUnresolved: bool)
    ensures SessionOk(s, E, includeUnresolved, SessionTrace(s, E, includeUnresolved))
  {
    hide Resolved, Unresolved, Pending, Unanswered, Answers, Covers, NoCallTwice;
    ResolvedMeans(s, E);
    var ys := Resolved(s, E);
    if !includeUnresolved {
      assert ys + [] == ys;
    } else {
      var us := Unresolved(s, Pending(E));
      UnresolvedMeans(s, E);
      forall i: nat ensures Covers(ys + us, s, i) <==> Covers(ys, s, i) || Covers(us, s, i) {
        CoversConcat(ys, us, s, i);
      }
      forall k, l | 0 <= k < |ys| && 0 <= l < |us| ensures ys[k].at != us[l].at {
        assert YieldOk(E, ys[k]) && MemberOk(E, us[l]);
        AnsweredOnce(E, ys[k].at, ys[k].reply.value, 0);
      }
      NoCallTwiceConcat(ys, us);
    }
  }

  /** The trace is sound, shows no call twice, and shows exactly the calls that are due. */
  ghost predicate TraceOk(wanted: set<Name>, sessions: seq<Session>, includeUnresolved: bool, trace: seq<Yielded>) {
    && (forall k :: 0 <= k < |trace| ==> Faithful(wanted, sessions, trace[k]))
    && NoCallTwice(trace)
    && (forall s: nat, i: nat ::
          Covers(trace, s, i) <==> s < |sessions| && Due(SessionEvents(wanted, sessions[s]), i, includeUnresolved))
  }

  lemma {:induction false} TraceExact(wanted: set<Name>, sessions: seq<Session>, includeUnresolved: bool)
    ensures TraceOk(wanted, sessions, includeUnresolved, Trace(wanted, sessions, includeUnresolved))
  {
    hide TraceOk, SessionTrace, SessionEvents;
    if sessions == [] {
      NothingYielded(wanted, includeUnresolved);
    } else {
      var s := |sessions| - 1;
      var E := SessionEvents(wanted, sessions[s]);
      TraceExact(wanted, sessions[..s], includeUnresolved);
      SessionIsOk(s, E, includeUnresolved);
      TraceNext(wanted, sessions, includeUnresolved, Trace(wanted, sessions[..s], includeUnresolved),
                SessionTrace(s, E, includeUnresolved));
    }
  }

  lemma NothingYielded(wanted: set<Name>, includeUnresolved: bool)
    ensures TraceOk(wanted, [], includeUnresolved, [])
  {
  }

  lemma TraceNext(wanted: set<Name>, sessions: seq<Session>, includeUnresolved: bool, before: seq<Yielded>,
                  part: seq<Yielded>)
    requires sessions != [] && TraceOk(wanted, sessions[..|sessions| - 1], includeUnresolved, before)
    requires SessionOk(|sessions| - 1, SessionEvents(wanted, sessions[|sessions| - 1]), includeUnresolved, part)
    ensures TraceOk(wanted, sessions, includeUnresolved, before + part)
  {
    hide SessionEvents, MemberOk, Due, NoCallTwice, Covers;
    var n := |sessions| - 1;
    var init := sessions[..n];
    var trace := before + part;
    forall k | 0 <= k < |trace| ensures Faithful(wanted, sessions, trace[k]) {
      if k < |before| {
        assert Faithful(wanted, init, before[k]) && trace[k] == before[k];
      } else {
        assert trace[k] == part[k - |before|];
      }
    }
    forall k, l | 0 <= k < |before| && 0 <= l < |part| ensures before[k].session != part[l].session {
      assert Faithful(wanted, init, before[k]);
    }
    NoCallTwiceConcat(before, part);
    forall s: nat, i: nat
      ensures Covers(trace, s, i) <==> s < |sessions| && Due(SessionEvents(wanted, sessions[s]), i, includeUnresolved)
    {
      CoversConcat(before, part, s, i);
      if s != n { OtherSession(part, n, s, i); }
    }
  }

  lemma OtherSession(part: seq<Yielded>, n: nat, s: nat, i: nat)
    requires (forall k :: 0 <= k < |part| ==> part[k].session == n) && s != n
    ensures !Covers(part, s, i)
  {
  }

  /** With unresolved calls included and no limit hit, a wanted call is yielded exactly once unless its
      id is reused while it is pending, and then not at all. */
  lemma EveryCallOnceUnlessReused(wanted: set<Name>, sessions: seq<Session>, s: nat, i: nat)
    requires s < |sessions| && i < |SessionEvents(wanted, sessions[s])| && SessionEvents(wanted, sessions[s])[i].Made?
    ensures Covers(Trace(wanted, sessions, true), s, i) <==> !Reused(SessionEvents(wanted, sessions[s]), i)
    ensures NoCallTwice(Trace(wanted, sessions, true))
  {
    hide Trace, Reused, Due, Covers, NoCallTwice, SessionEvents;
    TraceExact(wanted, sessions, true);
    DueUnlessReused(SessionEvents(wanted, sessions[s]), i);
  }

  // ---------------------------------------------------------------- events and the session's own lines

  /** Where an event stands: its line and, for a call, its item of that line's content. */
  datatype Place = Place(entry: nat, item: nat)

  /** The line, or its item, is a wanted call or result that says exactly what the event says. */
  predicate StandsAt(wanted: set<Name>, file: Name, entries: seq<Entry>, p: Place, e: Event) {
    p.entry < |entries| &&
    match entries[p.entry]
    case Assistant(content, context) =>
      && p.item < |content| && content[p.item].CallItem? && e.Made?
      && content[p.item].name == Some(e.call.name) && e.call.name in wanted && content[p.item].id == Some(e.call.id)
      && e.call.arguments == content[p.item].arguments && e.call.context == context && e.call.file == file
    case ResultMessage(name, id, body) =>
      p.item == 0 && e.Answered? && name == Some(e.answer.name) && e.answer.name in wanted && id == Some(e.answer.id)
      && e.answer.body == body
    case OtherEntry => false
  }

  predicate Earlier(p: Place, q: Place) {
    p.entry < q.entry || (p.entry == q.entry && p.item < q.item)
  }

  /** The events are what stands at these places, in order, and nothing that stands anywhere is left out. */
  ghost predicate Recorded(wanted: set<Name>, file: Name, entries: seq<Entry>, E: seq<Event>, places: seq<Place>) {
    && |places| == |E|
    && (forall k :: 0 <= k < |E| ==> StandsAt(wanted, file, entries, places[k], E[k]))
    && (forall k, l :: 0 <= k < l < |E| ==> Earlier(places[k], places[l]))
    && (forall p, e :: StandsAt(wanted, file, entries, p, e) ==> p in places)
  }

  /** The items of one message that are wanted calls. */
  ghost predicate CallsAt(wanted: set<Name>, file: Name, content: seq<Content>, context: Name, E: seq<Event>,
                          items: seq<nat>) {
    && |items| == |E|
    && (forall k :: 0 <= k < |E| ==> StandsAt(wanted, file, [Assistant(content, context)], Place(0, items[k]), E[k]))
    && (forall k, l :: 0 <= k < l < |E| ==> items[k] < items[l])
    && (forall i: nat, e :: StandsAt(wanted, file, [Assistant(content, context)], Place(0, i), e) ==> i in items)
  }

  lemma ItemStands(wanted: set<Name>, file: Name, content: seq<Content>, context: Name, n: nat, i: nat, e: Event)
    requires n <= |content|
    ensures StandsAt(wanted, file, [Assistant(content[..n], context)], Place(0, i), e) <==>
              i < n && StandsAt(wanted, file, [Assistant(content, context)], Place(0, i), e)
  {
    if i < n { assert content[..n][i] == content[i]; }
  }

  lemma ItemIsCall(wanted: set<Name>, file: Name, content: seq<Content>, context: Name, i: nat, e: Event)
    requires i < |content|
    ensures StandsAt(wanted, file, [Assistant(content, context)], Place(0, i), e) <==>
              content[i].CallItem? && Relevant(wanted, content[i].name, content[i].id)
                  && e == Made(CallOf(file, content[i], context))
  {
  }

  lemma {:induction false} CallPlaces(wanted: set<Name>, file: Name, content: seq<Content>, context: Name)
    returns (items: seq<nat>)
    ensures CallsAt(wanted, file, content, context, CallEvents(wanted, file, content, context), items)
    ensures forall k :: 0 <= k < |items| ==> items[k] < |content|
  {
    items := [];
    if content != [] {
      var n := |content| - 1;
      var before := CallPlaces(wanted, file, content[..n], context);
      var item := content[n];
      var wantedCall := item.CallItem? && Relevant(wanted, item.name, item.id);
      items := if wantedCall then before + [n] else before;
      CallsNext(wanted, file, content, context, CallEvents(wanted, file, content[..n], context), before);
    }
  }

  lemma CallsNext(wanted: set<Name>, file: Name, content: seq<Content>, context: Name, E: seq<Event>, before: seq<nat>)
    requires content != [] && CallsAt(wanted, file, content[..|content| - 1], context, E, before)
    requires forall k :: 0 <= k < |before| ==> before[k] < |content| - 1
    ensures var n := |content| - 1; var item := content[n];
            if item.CallItem? && Relevant(wanted, item.name, item.id)
            then CallsAt(wanted, file, content, context, E + [Made(CallOf(file, item, context))], before + [n])
            else CallsAt(wanted, file, content, context, E, before)
  {
    var n := |content| - 1;
    forall i: nat, e: Event
      ensures StandsAt(wanted, file, [Assistant(content[..n], context)], Place(0, i), e) <==>
                i < n && StandsAt(wanted, file, [Assistant(content, context)], Place(0, i), e)
    {
      ItemStands(wanted, file, content, context, n, i, e);
    }
    forall e ensures StandsAt(wanted, file, [Assistant(content, context)], Place(0, n), e) <==>
                       content[n].CallItem? && Relevant(wanted, content[n].name, content[n].id)
                       && e == Made(CallOf(file, content[n], context))
    {
      ItemIsCall(wanted, file, content, context, n, e);
    }
    StandsInside(wanted, file, content, context);
    hide StandsAt, CallOf, Relevant;
  }

  lemma StandsInside(wanted: set<Name>, file: Name, content: seq<Content>, context: Name)
    ensures forall i: nat, e :: StandsAt(wanted, file, [Assistant(content, context)], Place(0, i), e) ==> i < |content|
  {
  }

  lemma EntryStands(wanted: set<Name>, file: Name, entries: seq<Entry>, n: nat, p: Place, e: Event)
    requires n <= |entries|
    ensures StandsAt(wanted, file, entries[..n], p, e) <==> p.entry < n && StandsAt(wanted, file, entries, p, e)
  {
    if p.entry < n { assert entries[..n][p.entry] == entries[p.entry]; }
  }

  lemma LineStands(wanted: set<Name>, file: Name, entries: seq<Entry>, n: nat, item: nat, e: Event)
    requires n < |entries|
    ensures StandsAt(wanted, file, entries, Place(n, item), e) <==>
              StandsAt(wanted, file, [entries[n]], Place(0, item), e)
  {
  }

  /** What one line contributes. */
  ghost predicate LineAt(wanted: set<Name>, file: Name, entry: Entry, E: seq<Event>, items: seq<nat>) {
    && |items| == |E|
    && (forall k :: 0 <= k < |E| ==> StandsAt(wanted, file, [entry], Place(0, items[k]), E[k]))
    && (forall k, l :: 0 <= k < l < |E| ==> items[k] < items[l])
    && (forall i: nat, e :: StandsAt(wanted, file, [entry], Place(0, i), e) ==> i in items)
  }

  lemma LinePlaces(wanted: set<Name>, file: Name, entry: Entry) returns (items: seq<nat>)
    ensures LineAt(wanted, file, entry, EntryEvents(wanted, file, entry), items)
  {
    match entry
    case Assistant(content, context) =>
      items := CallPlaces(wanted, file, content, context);
      hide StandsAt, CallEvents;
    case ResultMessage(name, id, body) => items := if Relevant(wanted, name, id) then [0] else [];
    case OtherEntry => items := [];
  }

  function PlacesOf(n: nat, items: seq<nat>): (r: seq<Place>)
    ensures |r| == |items| && forall k :: 0 <= k < |items| ==> r[k] == Place(n, items[k])
  {
    seq(|items|, k requires 0 <= k < |items| => Place(n, items[k]))
  }

  lemma OrderedNext(places: seq<Place>, n: nat, items: seq<nat>)
    requires forall k, l :: 0 <= k < l < |places| ==> Earlier(places[k], places[l])
    requires forall k :: 0 <= k < |places| ==> places[k].entry < n
    requires forall k, l :: 0 <= k < l < |items| ==> items[k] < items[l]
    ensures var more := places + PlacesOf(n, items); forall k, l :: 0 <= k < l < |more| ==> Earlier(more[k], more[l])
  {
    var more, m := places + PlacesOf(n, items), |places|;
    forall k, l | 0 <= k < l < |more| ensures Earlier(more[k], more[l]) {
      if l < m { assert more[k] == places[k] && more[l] == places[l]; }
      else if k < m { assert more[k] == places[k] && more[l] == Place(n, items[l - m]); }
      else { assert more[k] == Place(n, items[k - m]) && more[l] == Place(n, items[l - m]); }
    }
  }

  lemma RecordedNext(wanted: set<Name>, file: Name, entries: seq<Entry>, E: seq<Event>, places: seq<Place>,
                     F: seq<Event>, items: seq<nat>)
    requires entries != [] && Recorded(wanted, file, entries[..|entries| - 1], E, places)
    requires LineAt(wanted, file, entries[|entries| - 1], F, items)
    ensures Recorded(wanted, file, entries, E + F, places + PlacesOf(|entries| - 1, items))
  {
    var n := |entries| - 1;
    var all, more := E + F, places + PlacesOf(n, items);
    forall p: Place, e: Event
      ensures StandsAt(wanted, file, entries[..n], p, e) <==> p.entry < n && StandsAt(wanted, file, entries, p, e)
      ensures p.entry == n ==>
                (StandsAt(wanted, file, entries, p, e) <==> StandsAt(wanted, file, [entries[n]], Place(0, p.item), e))
      ensures StandsAt(wanted, file, entries, p, e) ==> p.entry <= n
    {
      EntryStands(wanted, file, entries, n, p, e);
      if p.entry == n { LineStands(wanted, file, entries, n, p.item, e); }
    }
    hide StandsAt, Earlier;
    forall k | 0 <= k < |all| ensures StandsAt(wanted, file, entries, more[k], all[k]) {
      if k < |E| {
        assert more[k] == places[k] && all[k] == E[k];
      } else {
        assert more[k] == Place(n, items[k - |E|]) && all[k] == F[k - |E|];
        assert StandsAt(wanted, file, [entries[n]], Place(0, items[k - |E|]), F[k - |E|]);
      }
    }
    forall k | 0 <= k < |E|
      ensures places[k].entry < n { assert StandsAt(wanted, file, entries[..n], places[k], E[k]); }
    OrderedNext(places, n, items);
    forall p, e | StandsAt(wanted, file, entries, p, e) ensures p in more {
      if p.entry == n {
        assert p.item in items;
        var k :| 0 <= k < |items| && items[k] == p.item;
        assert more[|places| + k] == p;
      } else {
        assert p in places;
        var k :| 0 <= k < |places| && places[k] == p;
        assert more[k] == p;
      }
    }
  }

  /** The events of a session are exactly its wanted calls and results, each as its line states it, in order. */
  lemma {:induction false} EventsAreRecorded(wanted: set<Name>, file: Name, entries: seq<Entry>)
    returns (places: seq<Place>)
    ensures Recorded(wanted, file, entries, Events(wanted, file, entries), places)
  {
    places := [];
    if entries != [] {
      hide StandsAt, EntryEvents, Recorded, LineAt, PlacesOf;
      var n := |entries| - 1;
      var before := EventsAreRecorded(wanted, file, entries[..n]);
      var items := LinePlaces(wanted, file, entries[n]);
      RecordedNext(wanted, file, entries, Events(wanted, file, entries[..n]), before,
                   EntryEvents(wanted, file, entries[n]), items);
      places := before + PlacesOf(n, items);
    }
  }

  function ResultPlaces(out: seq<Invocation>): set<nat> {
    set k: nat | k < |out| && out[k].result.Some?
  }

  /** Limited by calls, every invocation counts once; limited by events, one with a result counts twice. */
  lemma {:induction false} WeightCounts(out: seq<Invocation>)
    ensures Weight(CallLimit, out) == |out| && Weight(EventLimit, out) == |out| + |ResultPlaces(out)|
  {
    if out == [] {
      assert ResultPlaces(out) == {};
    } else {
      var n := |out| - 1;
      WeightCounts(out[..n]);
      assert ResultPlaces(out) == ResultPlaces(out[..n]) + if out[n].result.Some? then {n} else {};
    }
  }
}

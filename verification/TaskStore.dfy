/** The store of tasks: events are appended to a file, snapshots only cache what the events say
    (malong/tools/entry-store.js, malong/tools/entry-shared.js: operationEvent). */
module TaskStore {
  import opened Common
  import opened Lines

  datatype Operation = Operation(id: string, data: string)

  /** A task: the fields that an operation event touches, and the rest. An empty node or result kind is none. */
  datatype Task = Task(revision: nat, operations: seq<Operation>, node: string, resultKind: string, rest: string)

  datatype Event =
    | Created(task: Task)
    | Operated(operation: Operation, node: string, resultKind: string, revision: nat)
  {
    function Revision(): nat {
      if Created? then task.revision else revision
    }
  }

  /** JSON.stringify and JSON.parse on events. */
  datatype Json = Json(stringify: Event -> string, parse: string -> Option<Event>)

  /** Parsing undoes printing; the text of an event is one non-empty line, and no beginning of it parses. */
  ghost predicate Lawful(json: Json) {
    forall e :: LawfulOn(json, e)
  }

  ghost predicate LawfulOn(json: Json, e: Event) {
    var text := json.stringify(e);
    && text != "" && '\n' !in text && json.parse(text) == Some(e)
    && forall k :: 0 <= k < |text| ==> json.parse(text[..k]) == None
  }

  // ---- Replay ----

  /** Replace the first entry with the same id, or append: operationEvent and upsertById do the same. */
  function Upsert(ops: seq<Operation>, op: Operation): seq<Operation> {
    if ops == [] then [op]
    else if ops[0].id == op.id then [op] + ops[1..]
    else [ops[0]] + Upsert(ops[1..], op)
  }

  /** An upsert changes the one operation with the id and keeps all others in place, or appends. */
  lemma {:induction false} UpsertMeaning(ops: seq<Operation>, op: Operation) returns (at: nat)
    ensures var r := Upsert(ops, op);
            && at < |r| && FirstOf(r, at, op) && r[at] == op
            && |r| == (if exists o :: o in ops && o.id == op.id then |ops| else |ops| + 1)
            && forall i :: 0 <= i < |ops| && i != at ==> r[i] == ops[i]
  {
    if ops == [] {
      at := 0;
    } else if ops[0].id == op.id {
      at := 0;
      assert ops[0] in ops;
    } else {
      var k := UpsertMeaning(ops[1..], op);
      at := k + 1;
      assert Upsert(ops, op) == [ops[0]] + Upsert(ops[1..], op);
      assert ops == [ops[0]] + ops[1..];
    }
  }

  /** Entry i is the first with the operation's id. */
  ghost predicate FirstOf(ops: seq<Operation>, i: nat, op: Operation)
    requires i < |ops|
  {
    ops[i].id == op.id && forall j :: 0 <= j < i ==> ops[j].id != op.id
  }

  function OrElse(s: string, t: string): string {
    if s != "" then s else t
  }

  function Replayed(t: Option<Task>, e: Event): Option<Task> {
    match e
    case Created(task) => Some(task)
    case Operated(op, node, resultKind, revision) =>
      if t.None? then None
      else Some(t.value.(operations := Upsert(t.value.operations, op), revision := revision,
                         node := OrElse(node, t.value.node), resultKind := OrElse(resultKind, t.value.resultKind)))
  }

  /** rebuildTask: what the first n events make of a task. */
  function Replay(log: seq<Event>, n: nat): Option<Task>
    requires n <= |log|
  {
    if n == 0 then None else Replayed(Replay(log, n - 1), log[n-1])
  }

  // ---- What a record says of its events ----

  /** The record after an operation: the first entry with its id, or a new one at the end, is the operation, and all
      other entries are as they were; node and result kind are the given ones if there are any; the rest stays. */
  ghost predicate OperationMade(before: Task, op: Operation, node: string, resultKind: string, after: Task) {
    && (exists at: nat :: PutAt(before.operations, op, at, after.operations))
    && after.node == (if node != "" then node else before.node)
    && after.resultKind == (if resultKind != "" then resultKind else before.resultKind)
    && after.rest == before.rest
  }

  ghost predicate PutAt(ops: seq<Operation>, op: Operation, at: nat, after: seq<Operation>) {
    && at <= |ops| && (forall i :: 0 <= i < at ==> ops[i].id != op.id)
    && (at < |ops| ==> ops[at].id == op.id)
    && after == ops[..at] + [op] + (if at < |ops| then ops[at+1..] else [])
  }

  lemma {:induction false} UpsertPuts(ops: seq<Operation>, op: Operation) returns (at: nat)
    ensures PutAt(ops, op, at, Upsert(ops, op))
  {
    at := 0;
    if ops != [] && ops[0].id != op.id {
      var k := UpsertPuts(ops[1..], op);
      at := k + 1;
      assert ops[..at] == [ops[0]] + ops[1..][..k];
      assert at < |ops| ==> ops[at+1..] == ops[1..][k+1..];
    }
  }

  lemma {:induction false} ReplayedMeaning(t: Task, e: Event)
    requires e.Operated?
    ensures Replayed(Some(t), e).Some?
    ensures OperationMade(t, e.operation, e.node, e.resultKind, Replayed(Some(t), e).value)
    ensures Replayed(Some(t), e).value.revision == e.revision
  {
    var at := UpsertPuts(t.operations, e.operation);
    assert PutAt(t.operations, e.operation, at, Replayed(Some(t), e).value.operations);
  }

  /** Entry o is in the list, and no entry before it has its id. */
  ghost predicate Stands(ops: seq<Operation>, o: Operation) {
    exists k: nat :: k < |ops| && ops[k] == o && FirstOf(ops, k, o)
  }

  /** An operation written does not move any other. */
  lemma {:induction false} OthersStand(ops: seq<Operation>, op: Operation, at: nat, after: seq<Operation>, o: Operation)
    requires PutAt(ops, op, at, after)
    ensures Stands(after, op)
    ensures o.id != op.id ==> (Stands(after, o) <==> Stands(ops, o))
  {
    assert after[at] == op && FirstOf(after, at, op);
    assert forall i :: 0 <= i < |ops| && i != at ==> after[i] == ops[i];
    assert at == |ops| ==> |after| == |ops| + 1;
    if o.id != op.id {
      if Stands(after, o) {
        var k: nat :| k < |after| && after[k] == o && FirstOf(after, k, o);
        assert k < |ops| && FirstOf(ops, k, o);
      }
      if Stands(ops, o) {
        var k: nat :| k < |ops| && ops[k] == o && FirstOf(ops, k, o);
        assert FirstOf(after, k, o);
      }
    }
  }

  /** Event i is the last of the first n that writes an operation with this id. */
  ghost predicate LastUnder(log: seq<Event>, n: nat, id: string, i: nat)
    requires n <= |log|
  {
    && i < n && log[i].Operated? && log[i].operation.id == id
    && forall j :: i < j < n ==> log[j].Operated? ==> log[j].operation.id != id
  }

  ghost predicate Untouched(log: seq<Event>, n: nat, id: string)
    requires n <= |log|
  {
    forall j :: 0 <= j < n && log[j].Operated? ==> log[j].operation.id != id
  }

  /** Event i is the last of the first n that gives a value. */
  ghost predicate LastGiver(log: seq<Event>, n: nat, given: Event -> string, i: nat)
    requires n <= |log|
  {
    0 < i < n && given(log[i]) != "" && forall j :: i < j < n ==> given(log[j]) == ""
  }

  /** What the first n events say of node and result kind: the last that was given, or that of the creation. */
  ghost predicate LastGiven(log: seq<Event>, n: nat, given: Event -> string, first: string, value: string)
    requires n <= |log|
  {
    || (exists i: nat :: LastGiver(log, n, given, i) && value == given(log[i]))
    || (value == first && forall j :: 0 < j < n ==> given(log[j]) == "")
  }

  ghost function NodeOf(e: Event): string {
    if e.Operated? then e.node else ""
  }

  ghost function KindOf(e: Event): string {
    if e.Operated? then e.resultKind else ""
  }

  /** The record is what the first n events of a log say: of every operation what was last written under its id, of
      an untouched one what the creation said, of node and result kind the last given. */
  ghost predicate Tells(log: seq<Event>, n: nat, t: Task)
    requires n <= |log|
  {
    && 0 < n && log[0].Created?
    && (forall id, i: nat :: LastUnder(log, n, id, i) ==> Stands(t.operations, log[i].operation))
    && (forall o: Operation ::
           Untouched(log, n, o.id) ==> (Stands(t.operations, o) <==> Stands(log[0].task.operations, o)))
    && LastGiven(log, n, NodeOf, log[0].task.node, t.node)
    && LastGiven(log, n, KindOf, log[0].task.resultKind, t.resultKind)
    && t.rest == log[0].task.rest
  }

  lemma {:induction false} ReplayTells(log: seq<Event>, n: nat)
    requires Chronological(log) && 0 < n <= |log|
    ensures Replay(log, n).Some? && Tells(log, n, Replay(log, n).value)
  {
    Latest(log, n);
    if n > 1 {
      ReplayTells(log, n - 1);
      ReplayedMeaning(Replay(log, n - 1).value, log[n-1]);
      TellsOneMore(log, n, Replay(log, n - 1).value, Replay(log, n).value);
    }
  }

  lemma {:induction false} TellsOneMore(log: seq<Event>, n: nat, t: Task, t': Task)
    requires 1 < n <= |log| && log[n-1].Operated? && Tells(log, n - 1, t)
    requires OperationMade(t, log[n-1].operation, log[n-1].node, log[n-1].resultKind, t')
    ensures Tells(log, n, t')
  {
    var op := log[n-1].operation;
    var at: nat :| PutAt(t.operations, op, at, t'.operations);
    forall id, i: nat | LastUnder(log, n, id, i) ensures Stands(t'.operations, log[i].operation) {
      OthersStand(t.operations, op, at, t'.operations, log[i].operation);
      if i < n - 1 {
        assert LastUnder(log, n - 1, id, i);
      }
    }
    forall o: Operation | Untouched(log, n, o.id)
      ensures Stands(t'.operations, o) <==> Stands(log[0].task.operations, o)
    {
      OthersStand(t.operations, op, at, t'.operations, o);
      assert Untouched(log, n - 1, o.id);
    }
    GivenOneMore(log, n, NodeOf, log[0].task.node, t.node, t'.node);
    GivenOneMore(log, n, KindOf, log[0].task.resultKind, t.resultKind, t'.resultKind);
  }

  lemma {:induction false} GivenOneMore(log: seq<Event>, n: nat, given: Event -> string, first: string, value: string,
                                        value': string)
    requires 1 < n <= |log| && LastGiven(log, n - 1, given, first, value)
    requires value' == if given(log[n-1]) != "" then given(log[n-1]) else value
    ensures LastGiven(log, n, given, first, value')
  {
    if given(log[n-1]) == "" {
      if i: nat :| LastGiver(log, n - 1, given, i) && value == given(log[i]) {
        assert LastGiver(log, n, given, i);
      }
    } else {
      assert LastGiver(log, n, given, n - 1);
    }
  }

  // ---- The event file ----

  /** readEvents: the events of the lines that parse; the others are skipped. */
  function EventsOf(json: Json, lines: seq<Line>): seq<Event> {
    if lines == [] then []
    else
      var rest := EventsOf(json, lines[1..]);
      if lines[0] == "" then rest
      else match json.parse(lines[0])
           case None => rest
           case Some(e) => [e] + rest
  }

  function ReadEvents(json: Json, file: string): seq<Event> {
    EventsOf(json, Split(file))
  }

  predicate EndsWithNewline(file: string) {
    file == "" || file[|file|-1] == '\n'
  }

  /** What appendEventFile writes: a newline first if the last line is a torn one. */
  function Appended(json: Json, file: string, e: Event): string {
    (if EndsWithNewline(file) then "" else "\n") + json.stringify(e) + "\n"
  }

  lemma {:induction false} EventsOfConcat(json: Json, a: seq<Line>, b: seq<Line>)
    ensures EventsOf(json, a + b) == EventsOf(json, a) + EventsOf(json, b)
  {
    if a == [] {
      assert a + b == b;
    } else {
      assert (a + b)[1..] == a[1..] + b;
      EventsOfConcat(json, a[1..], b);
    }
  }

  lemma {:induction false} ReadAfterNewline(json: Json, a: string, b: string)
    ensures ReadEvents(json, a + "\n" + b) == ReadEvents(json, a) + ReadEvents(json, b)
  {
    SplitAtNewline(a, b);
    EventsOfConcat(json, Split(a), Split(b));
  }

  lemma {:induction false} ReadOneLine(json: Json, line: string)
    requires '\n' !in line
    ensures ReadEvents(json, line) == if line == "" || json.parse(line).None? then [] else [json.parse(line).value]
  {
    SplitOneLine(line);
    assert EventsOf(json, [line]) == if line == "" || json.parse(line).None? then [] else [json.parse(line).value];
  }

  /** Reading after a clean end or, behind a newline, after a torn line: what was there is read as before. */
  lemma {:induction false} ReadBehind(json: Json, file: string, text: string)
    ensures ReadEvents(json, file + (if EndsWithNewline(file) then "" else "\n") + text) ==
              ReadEvents(json, file) + ReadEvents(json, text)
  {
    if file == "" {
      assert "" + "" + text == text;
      ReadOneLine(json, "");
    } else if EndsWithNewline(file) {
      var body := file[..|file|-1];
      assert file == body + "\n" + "" && file + "" + text == body + "\n" + text;
      ReadAfterNewline(json, body, text);
      ReadAfterNewline(json, body, "");
      ReadOneLine(json, "");
    } else {
      ReadAfterNewline(json, file, text);
    }
  }

  /** However much of an append reaches the disk: the events before it are read as before, and the new one is
      read exactly if its text is complete. */
  lemma {:induction false} TornAppend(json: Json, file: string, e: Event, reach: nat)
    requires Lawful(json) && reach <= |Appended(json, file, e)|
    ensures var whole := reach + 1 >= |Appended(json, file, e)|;
            ReadEvents(json, file + Appended(json, file, e)[..reach]) == ReadEvents(json, file) + if whole then
                [e] else []
  {
    assert LawfulOn(json, e);
    var pre := if EndsWithNewline(file) then "" else "\n";
    var text := json.stringify(e);
    var written := Appended(json, file, e)[..reach];
    if reach < |pre| {
      assert file + written == file;
    } else {
      var part := (text + "\n")[..reach-|pre|];
      assert file + written == file + pre + part;
      ReadBehind(json, file, part);
      if reach - |pre| <= |text| {
        assert part == text[..reach-|pre|];
        assert text[..|text|] == text;
        ReadOneLine(json, part);
      } else {
        assert part == text + "\n" + "";
        ReadAfterNewline(json, text, "");
        ReadOneLine(json, text);
        ReadOneLine(json, "");
      }
    }
  }

  // ---- Logs as the updates write them ----

  /** (cur.revision || 1) + 1 */
  function Next(revision: nat): nat {
    (if revision == 0 then 1 else revision) + 1
  }

  /** A creation, then operations, each with the next revision. */
  ghost predicate Chronological(log: seq<Event>) {
    forall i ::
        0 <= i < |log| ==> (log[i].Created? <==> i == 0) && (i > 0 ==> log[i].Revision() == Next(log[i-1].Revision()))
  }

  lemma {:induction false} Latest(log: seq<Event>, n: nat)
    requires Chronological(log) && 0 < n <= |log|
    ensures Replay(log, n).Some? && Replay(log, n).value.revision == log[n-1].Revision()
    ensures forall i :: 0 <= i < n - 1 ==> log[i].Revision() < log[n-1].Revision()
  {
    if n > 1 {
      Latest(log, n - 1);
    }
  }

  /** A revision counts the updates from the one a task was created with, or from one. */
  lemma {:induction false} RevisionCounts(log: seq<Event>, n: nat)
    requires Chronological(log) && 0 < n <= |log|
    ensures Replay(log, n).Some?
    ensures n > 1 ==>
              Replay(log, n).value.revision == (if log[0].Revision() == 0 then 1 else log[0].Revision()) + (n - 1)
  {
    Latest(log, n);
    if n > 2 {
      Latest(log, n - 1);
      RevisionCounts(log, n - 1);
    }
  }

  lemma {:induction false} ReplayPrefix(log: seq<Event>, e: Event, n: nat)
    requires n <= |log|
    ensures Replay(log + [e], n) == Replay(log, n)
  {
    if n > 0 {
      ReplayPrefix(log, e, n - 1);
    }
  }

  lemma {:induction false} NextIsChronological(log: seq<Event>, e: Event)
    requires Chronological(log) && Replay(log, |log|).Some? && e.Operated? &&
              e.revision == Next(Replay(log, |log|).value.revision)
    ensures Chronological(log + [e])
  {
    Latest(log, |log|);
  }

  lemma {:induction false} ReplayAppend(log: seq<Event>, e: Event)
    ensures Replay(log + [e], |log| + 1) == Replayed(Replay(log, |log|), e)
  {
    ReplayPrefix(log, e, |log|);
  }

  datatype Outcome = NotFound | Conflict(current: nat) | Updated(task: Task) | Died

  class Store {
    const json: Json
    var file: string
    var snapshot: Option<Task>
    /** All events that were written in full. */
    ghost var log: seq<Event>

    /** The file holds the log, and the snapshot is what some beginning of it says. */
    ghost predicate Valid()
      reads this
    {
      && Lawful(json)
      && ReadEvents(json, file) == log && Chronological(log)
      && (snapshot.Some? ==> exists n :: 0 < n <= |log| && snapshot == Replay(log, n))
    }

    constructor (json: Json)
      requires Lawful(json)
      ensures Valid() && log == [] && snapshot == None
    {
      this.json, file, snapshot, log := json, "", None, [];
      new;
      ReadOneLine(json, "");
    }

    /** latestEventRevision */
    method LatestEventRevision(events: seq<Event>) returns (rev: Option<nat>)
      ensures events == [] <==> rev == None
      ensures rev.Some? ==> forall i :: 0 <= i < |events| ==> events[i].Revision() <= rev.value
      ensures rev.Some? ==> exists i :: 0 <= i < |events| && events[i].Revision() == rev.value
    {
      rev := None;
      for i := 0 to |events|
        invariant i == 0 <==> rev == None
        invariant rev.Some? ==> forall j :: 0 <= j < i ==> events[j].Revision() <= rev.value
        invariant rev.Some? ==> exists j :: 0 <= j < i && events[j].Revision() == rev.value
      {
        if rev.None? || events[i].Revision() > rev.value {
          rev := Some(events[i].Revision());
        }
      }
    }

    method RebuildTask() returns (t: Option<Task>)
      requires Valid()
      ensures t == Replay(log, |log|)
    {
      var events := ReadEvents(json, file);
      t := None;
      for i := 0 to |events|
        invariant t == Replay(log, i)
      {
        t := Replayed(t, events[i]);
      }
    }

    /** getTask: whatever crashes came before, what is returned is what all fully written events say. */
    method GetTask() returns (t: Option<Task>)
      requires Valid()
      modifies this`snapshot
      ensures Valid() && t == Replay(log, |log|)
      ensures t.None? <==> log == []
      ensures t.Some? ==> Tells(log, |log|, t.value)
      ensures snapshot == if t.Some? then t else old(snapshot)
    {
      if log != [] {
        ReplayTells(log, |log|);
      }
      if snapshot.Some? {
        var rev := LatestEventRevision(ReadEvents(json, file));
        ghost var n :| 0 < n <= |log| && snapshot == Replay(log, n);
        Latest(log, n);
        Latest(log, |log|);
        if rev.None? || snapshot.value.revision >= rev.value {
          return snapshot;
        }
      }
      t := RebuildTask();
      if t.Some? {
        snapshot := t;
      }
    }

    /** appendEventFile, of whose text only the first `reach` characters may get to the disk. */
    method AppendEvent(e: Event, reach: nat) returns (complete: bool)
      requires Valid() && Chronological(log + [e])
      modifies this`file, this`log
      ensures Valid()
      ensures complete <==> reach >= |Appended(json, old(file), e)|
      ensures log == old(log) + if reach + 1 >= |Appended(json, old(file), e)| then [e] else []
    {
      var text := Appended(json, file, e);
      complete := reach >= |text|;
      TornAppend(json, file, e, if complete then |text| else reach);
      assert text[..|text|] == text;
      file := file + if complete then text else text[..reach];
      log := log + if reach + 1 >= |text| then [e] else [];
      if snapshot.Some? {
        ghost var n :| 0 < n <= |old(log)| && snapshot == Replay(old(log), n);
        ReplayPrefix(old(log), e, n);
        assert old(log) + [] == old(log);
        assert snapshot == Replay(log, n);
      }
    }

    /** putTask of a new task; the process may die while appending or before the snapshot. */
    method PutTask(task: Task, reach: nat, alive: bool) returns (done: bool)
      requires Valid() && log == []
      modifies this
      ensures Valid()
      ensures done ==> log == [Created(task)] && snapshot == Some(task) && Replay(log, 1) == Some(task)
      ensures log == [] || log == [Created(task)]
      ensures done <==> alive && reach >= |Appended(json, old(file), Created(task))|
    {
      var complete := AppendEvent(Created(task), reach);
      done := complete && alive;
      if done {
        snapshot := Some(task);
        assert snapshot == Replay(log, 1);
      }
    }

    /** updateTaskCas with the mutation operationEvent; the process may die while appending or before the
        snapshot. */
    method UpdateTaskCas(expected: Option<nat>, op: Operation, node: string, resultKind: string, reach: nat,
                         alive: bool)
      returns (outcome: Outcome)
      requires Valid()
      modifies this
      ensures Valid()
      ensures var cur := old(Replay(log, |log|));
              match outcome
              case NotFound => cur.None? && log == old(log)
              case Conflict(r) =>
                  cur.Some? && r == cur.value.revision && expected.Some? && expected.value != r && log == old(log)
              case Updated(task) =>
                  cur.Some? && log == old(log) + [Operated(op, node, resultKind, Next(cur.value.revision))]
                                 && Replay(log, |log|) == Some(task) && task.revision == Next(cur.value.revision)
                                 && OperationMade(cur.value, op, node, resultKind, task) && Tells(log, |log|, task)
              case Died =>
                  cur.Some? &&
                      (log == old(log) || log == old(log) + [Operated(op, node, resultKind, Next(cur.value.revision))])
      ensures outcome.NotFound? <==> old(Replay(log, |log|)).None?
      ensures outcome.Conflict? <==>
                var cur := old(Replay(log, |log|)); cur.Some? && expected.Some? && expected.value != cur.value.revision
      ensures outcome.Died? ==>
                var e := Operated(op, node, resultKind, Next(old(Replay(log, |log|)).value.revision));
                !alive || reach < |Appended(json, old(file), e)|
      ensures outcome.Updated? ==> alive && snapshot == Some(outcome.task)
    {
      var cur := GetTask();
      if cur.None? {
        return NotFound;
      }
      if expected.Some? && cur.value.revision != expected.value {
        return Conflict(cur.value.revision);
      }
      // operationEvent on a copy of the record
      var next := cur.value.(operations := Upsert(cur.value.operations, op),
                             node := OrElse(node, cur.value.node), resultKind := OrElse(resultKind,
                                 cur.value.resultKind));
      next := next.(revision := Next(cur.value.revision));
      var e := Operated(op, node, resultKind, next.revision);
      NextIsChronological(log, e);
      var complete := AppendEvent(e, reach);
      ReplayAppend(old(log), e);
      ReplayedMeaning(cur.value, e);
      if log != [] {
        ReplayTells(log, |log|);
      }
      if !complete || !alive {
        return Died;
      }
      snapshot := Some(next);
      assert snapshot == Replay(log, |log|);
      outcome := Updated(next);
    }
  }
}

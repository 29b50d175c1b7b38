/** The request ledger: one record per request id, and which records retention may take away
    (malong/tools/outlet-ledger.js: ledgerRecord, pruneRecords, ledgerLookup). */
module Retention {
  import opened Common

  type Id = string

  const MAX_ENTRIES := 500

  datatype Record = Record(state: string, ok: bool, errorCode: string, payloadHash: string, created: string,
      pruned: bool, rest: string)

  /** What a caller hands to ledgerRecord: the fields it gives replace those of the record so far. */
  datatype Update = Update(state: Option<string>, ok: Option<bool>, errorCode: Option<string>,
      payloadHash: Option<string>, rest: Option<string>)

  /** A file of the ledger's directory; one that does not parse holds no record. */
  datatype File = File(mtime: nat, record: Option<Record>)

  const Blank := Record("", false, "", "", "", false, "")

  function Or<T>(a: Option<T>, b: T): T {
    if a.Some? then a.value else b
  }

  /** { ...prev, ...record }, except that the first creation time stays. */
  function Merge(prev: Option<Record>, u: Update, now: string): Record {
    var p := Or(prev, Blank);
    Record(Or(u.state, p.state), Or(u.ok, p.ok), Or(u.errorCode, p.errorCode), Or(u.payloadHash, p.payloadHash),
           if p.created != "" then p.created else now, p.pruned, Or(u.rest, p.rest))
  }

  /** recordState */
  function State(r: Record): string {
    if r.state != "" then r.state else if r.ok then "succeeded" else "indeterminate"
  }

  /** isSafeEvictable: the request is known to have succeeded, or to have failed without side effects left half
      done. */
  predicate Safe(r: Record) {
    (State(r) == "succeeded" || State(r) == "failed") && !(State(r) == "failed" && r.errorCode == "delegate_failed")
  }

  /** Whether the request was executed may still be open: it has not ended, or it broke off half way. A record
      without a state says by its ok whether it succeeded. */
  ghost predicate MayHaveRun(r: Record) {
    if r.state == "" then !r.ok
    else r.state != "succeeded" && (r.state == "failed" ==> r.errorCode == "delegate_failed")
  }

  /** A record is safe exactly if it is known how the request ended. */
  lemma {:induction false} SafeMeaning(r: Record)
    ensures Safe(r) <==> !MayHaveRun(r)
    ensures r.state != "" ==> State(r) == r.state
    ensures r.state == "" ==> State(r) == if r.ok then "succeeded" else "indeterminate"
  {
  }

  /** What a record says after an update: what the update gives, and otherwise what it said before; only the first
      creation time and the mark of a compaction stay whatever is given. */
  lemma {:induction false} MergeMeaning(prev: Option<Record>, u: Update, now: string)
    ensures var r := Merge(prev, u, now);
            && r.state == (if u.state.Some? then u.state.value else if prev.Some? then prev.value.state else "")
            && r.ok == (if u.ok.Some? then u.ok.value else prev.Some? && prev.value.ok)
            && r.errorCode ==
                   (if u.errorCode.Some? then u.errorCode.value else if prev.Some? then prev.value.errorCode else "")
            && r.payloadHash == (if u.payloadHash.Some? then u.payloadHash.value
                                 else if prev.Some? then prev.value.payloadHash else "")
            && r.rest == (if u.rest.Some? then u.rest.value else if prev.Some? then prev.value.rest else "")
            && r.created == (if prev.Some? && prev.value.created != "" then prev.value.created else now)
            && (r.pruned <==> prev.Some? && prev.value.pruned)
  {
  }

  /** What is left of a compacted record: how it stood, for which payload, since when, and the mark. */
  lemma {:induction false} PlaceholderMeaning(r: Record)
    ensures var p := Placeholder(r);
            && p.state == State(r) && p.payloadHash == r.payloadHash && p.created == r.created
            && p.pruned && p.rest == "" && p.errorCode == "" && !p.ok
            && State(p) == State(r)
  {
  }

  /** writeRecoveryPlaceholder: of the record, what a retry has to know. */
  function Placeholder(r: Record): Record {
    Record(State(r), false, "", r.payloadHash, r.created, true, "")
  }

  /** A full record, not yet compacted. */
  predicate Full(f: File) {
    f.record.Some? && !f.record.value.pruned
  }

  /** What must not be forgotten of a request: how it stands, and for which payload. */
  ghost predicate Remembers(files: map<Id, File>, id: Id, r: Record) {
    && id in files && files[id].record.Some?
    && State(files[id].record.value) == State(r) && files[id].record.value.payloadHash == r.payloadHash
  }

  // ---- One prune ----

  /** What a prune may do to one file: leave it, take away a safe or unreadable one, compact an unsafe one. A live
      claim or an earlier compaction protects it. */
  ghost predicate PrunedFile(before: map<Id, File>, after: map<Id, File>, live: set<Id>, id: Id)
    requires id in before
  {
    var f := before[id];
    || (id in after && after[id] == f)
    || (f.record.None? && id !in after)
    || (Full(f) && id !in live && Safe(f.record.value) && id !in after)
    || (Full(f) && id !in live && !Safe(f.record.value) && id in after &&
           after[id].record == Some(Placeholder(f.record.value)))
  }

  function FullAmong(files: map<Id, File>, live: set<Id>): set<Id> {
    set id | id in files && Full(files[id]) && id !in live
  }

  ghost predicate Pruned(before: map<Id, File>, after: map<Id, File>, live: set<Id>) {
    && after.Keys <= before.Keys
    && (forall id :: id in before ==> PrunedFile(before, after, live, id))
    && |FullAmong(after, live)| <= MAX_ENTRIES
    // The oldest go first.
    && (forall a, b :: a in FullAmong(after, live) && b in FullAmong(before, live) && b !in FullAmong(after, live) ==>
          before[b].mtime <= before[a].mtime)
  }

  /** What is not safe is remembered. */
  lemma {:induction false} UnsafeIsRemembered(before: map<Id, File>, after: map<Id, File>, live: set<Id>, id: Id,
                                              r: Record)
    requires Pruned(before, after, live) && Remembers(before, id, r)
    requires !Safe(before[id].record.value) || before[id].record.value.pruned
    ensures Remembers(after, id, r)
    ensures after[id] == before[id] || after[id].record.value.pruned
  {
    assert PrunedFile(before, after, live, id);
  }

  lemma {:induction false} NewestExists(files: map<Id, File>, todo: set<Id>)
    requires todo != {} && todo <= files.Keys
    ensures exists id :: id in todo && forall j :: j in todo ==> files[j].mtime <= files[id].mtime
    decreases todo
  {
    var x :| x in todo;
    var rest := todo - {x};
    if rest == {} {
      assert todo == {x};
    } else {
      NewestExists(files, rest);
      var y :| y in rest && forall j :: j in rest ==> files[j].mtime <= files[y].mtime;
      assert todo == rest + {x};
      if files[x].mtime <= files[y].mtime {
        assert forall j :: j in todo ==> files[j].mtime <= files[y].mtime;
      } else {
        assert forall j :: j in todo ==> files[j].mtime <= files[x].mtime;
      }
    }
  }

  /** The files in `todo` are untouched, and none of them is newer than one that has been dealt with. */
  ghost predicate PrunedSoFar(before: map<Id, File>, after: map<Id, File>, live: set<Id>, todo: set<Id>) {
    && todo <= after.Keys <= before.Keys
    && (forall id :: id in todo ==> after[id] == before[id])
    && (forall id :: id in before && id !in todo ==> PrunedFile(before, after, live, id))
    && (forall a, j :: a in before && a !in todo && j in todo ==> before[j].mtime <= before[a].mtime)
  }

  /** How far the loop of a prune has come: `todo` is untouched, `room` is what was kept without a live claim. */
  ghost predicate Pruning(before: map<Id, File>, after: map<Id, File>, live: set<Id>, todo: set<Id>, room: set<Id>,
                          kept: nat) {
    && PrunedSoFar(before, after, live, todo)
    && (forall id :: id in room <==> id in after && id !in todo && id !in live && Full(after[id]))
    && |room| <= kept && |room| <= MAX_ENTRIES
    && (kept < MAX_ENTRIES ==> forall b :: b in before && b !in todo && b !in live && Full(before[b]) ==> b in room)
    && (forall a, b :: a in room && b in before && b !in todo && b !in live && Full(before[b]) && b !in room ==>
          before[b].mtime <= before[a].mtime)
  }

  /** What the loop of a prune makes of the newest file it has not yet looked at. */
  function Decide(files: map<Id, File>, live: set<Id>, id: Id, kept: nat, clock: nat): (map<Id, File>, nat) {
    if id !in files then (files, kept)
    else
    var f := files[id];
    if f.record.None? then (files - {id}, kept)
    else if f.record.value.pruned then (files, kept)
    else if id in live then (files, kept + 1)
    else if kept < MAX_ENTRIES then (files, kept + 1)
    else if Safe(f.record.value) then (files - {id}, kept)
    else (files[id := File(clock, Some(Placeholder(f.record.value)))], kept)
  }

  lemma {:induction false} DecidePrunes(before: map<Id, File>, files: map<Id, File>, live: set<Id>, todo: set<Id>,
                                        kept: nat, id: Id, clock: nat)
    requires PrunedSoFar(before, files, live, todo) && id in todo
    requires forall j :: j in todo ==> files[j].mtime <= files[id].mtime
    ensures PrunedSoFar(before, Decide(files, live, id, kept, clock).0, live, todo - {id})
  {
    var files' := Decide(files, live, id, kept, clock).0;
    assert files[id] == before[id];
    assert forall j :: j != id ==> (j in files' <==> j in files) && (j in files ==> files'[j] == files[j]);
    forall j | j in before && j !in todo - {id} ensures PrunedFile(before, files', live, j) {
      if j != id {
        assert PrunedFile(before, files, live, j);
      }
    }
  }

  lemma {:induction false} DecideKeeps(before: map<Id, File>, files: map<Id, File>, live: set<Id>, todo: set<Id>,
                                       room: set<Id>, kept: nat, id: Id, clock: nat)
    requires Pruning(before, files, live, todo, room, kept)
    requires id in todo && forall j :: j in todo ==> files[j].mtime <= files[id].mtime
    ensures var (files', kept') := Decide(files, live, id, kept, clock);
            Pruning(before, files', live, todo - {id},
                if id !in live && Full(files[id]) && kept < MAX_ENTRIES then room + {id} else room, kept')
  {
    DecidePrunes(before, files, live, todo, kept, id, clock);
    var files' := Decide(files, live, id, kept, clock).0;
    assert forall j :: j != id ==> (j in files' <==> j in files) && (j in files ==> files'[j] == files[j]);
  }

  /** The files of `order` are distinct, and each is at least as new as whatever does not come before it. */
  ghost predicate Newest(files: map<Id, File>, order: seq<Id>) {
    && (forall k :: 0 <= k < |order| ==> order[k] in files)
    && (forall k, l :: 0 <= k < l < |order| ==> order[k] != order[l])
    && (forall k, j ::
           0 <= k < |order| && j in files ==> files[j].mtime <= files[order[k]].mtime || Earlier(order, k, j))
  }

  predicate Earlier(order: seq<Id>, n: nat, id: Id)
    requires n <= |order|
  {
    exists k :: 0 <= k < n && order[k] == id
  }

  /** All files, the newest first. */
  ghost predicate NewestFirst(files: map<Id, File>, order: seq<Id>) {
    Newest(files, order) && forall id :: id in files ==> id in order
  }

  /** The loop of pruneRecords over the files in this order: what is left, and how many records it counted. */
  function Pass(files: map<Id, File>, live: set<Id>, order: seq<Id>, clock: nat): (map<Id, File>, nat) {
    if order == [] then (files, 0)
    else
      var (soFar, kept) := Pass(files, live, order[..|order|-1], clock);
      Decide(soFar, live, order[|order|-1], kept, clock)
  }

  lemma {:induction false} PassOn(files: map<Id, File>, live: set<Id>, order: seq<Id>, id: Id, clock: nat)
    ensures var (soFar, kept) := Pass(files, live, order, clock);
              Pass(files, live, order + [id], clock) == Decide(soFar, live, id, kept, clock)
  {
    assert (order + [id])[..|order|] == order;
  }

  /** pruneRecords */
  function PruneBy(files: map<Id, File>, live: set<Id>, order: seq<Id>, clock: nat): map<Id, File> {
    if |files| <= MAX_ENTRIES then files else Pass(files, live, order, clock).0
  }

  function AsSet(order: seq<Id>): set<Id> {
    set id | id in order
  }

  lemma {:induction false} PassKeeps(before: map<Id, File>, live: set<Id>, order: seq<Id>, clock: nat)
      returns (room: set<Id>)
    requires Newest(before, order)
    ensures Pruning(before, Pass(before, live, order, clock).0, live, before.Keys - AsSet(order), room,
              Pass(before, live, order, clock).1)
  {
    if order == [] {
      room := {};
    } else {
      var n := |order| - 1;
      var id, init := order[n], order[..n];
      AllButLast(before, order);
      room := PassKeeps(before, live, init, clock);
      var (files, kept) := Pass(before, live, init, clock);
      DecideKeeps(before, files, live, before.Keys - AsSet(init), room, kept, id, clock);
      room := if id !in live && Full(files[id]) && kept < MAX_ENTRIES then room + {id} else room;
    }
  }

  lemma {:induction false} AllButLast(files: map<Id, File>, order: seq<Id>)
    requires Newest(files, order) && order != []
    ensures var init, id := order[..|order|-1], order[|order|-1];
            && Newest(files, init) && id in files.Keys - AsSet(init)
            && files.Keys - AsSet(order) == files.Keys - AsSet(init) - {id}
            && forall j :: j in files.Keys - AsSet(init) ==> files[j].mtime <= files[id].mtime
  {
    var n := |order| - 1;
    var init, id := order[..n], order[n];
    assert order == init + [id];
    assert forall k, j :: 0 <= k <= n ==> (Earlier(init, k, j) <==> Earlier(order, k, j));
    forall j | j in files.Keys - AsSet(init) ensures files[j].mtime <= files[id].mtime {
      assert j !in init && !Earlier(order, n, j);
    }
  }

  /** What a prune leaves, whatever files it finds and whichever claims are live. */
  lemma {:induction false} PruneMeaning(before: map<Id, File>, live: set<Id>, order: seq<Id>, clock: nat)
    requires |before| > MAX_ENTRIES ==> NewestFirst(before, order)
    ensures Pruned(before, PruneBy(before, live, order, clock), live)
  {
    if |before| <= MAX_ENTRIES {
      FewFiles(before, live);
    } else {
      var room := PassKeeps(before, live, order, clock);
      assert before.Keys - AsSet(order) == {};
      assert FullAmong(Pass(before, live, order, clock).0, live) == room;
    }
  }

  /** The loop of pruneRecords over the files, the newest first. */
  method PruneAll(before: map<Id, File>, live: set<Id>, clock: nat) returns (files: map<Id, File>, ghost order: seq<Id>)
    requires forall id :: id in before ==> before[id].mtime <= clock
    ensures NewestFirst(before, order) && files == Pass(before, live, order, clock).0
    ensures forall id :: id in files ==> files[id].mtime <= clock
  {
    files, order := before, [];
    var todo, kept := files.Keys, 0;
    while todo != {}
      invariant Halfway(before, live, order, todo, files, kept, clock)
      decreases todo
    {
      NewestExists(files, todo);
      var id :| id in todo && forall j :: j in todo ==> files[j].mtime <= files[id].mtime;
      var (files', kept') := Decide(files, live, id, kept, clock);
      HalfwayOn(before, live, order, todo, files, kept, id, files', kept', clock);
      todo, order, files, kept := todo - {id}, order + [id], files', kept';
    }
  }

  ghost predicate Halfway(before: map<Id, File>, live: set<Id>, order: seq<Id>, todo: set<Id>, files: map<Id, File>,
                          kept: nat, clock: nat) {
    && Newest(before, order) && todo == before.Keys - AsSet(order)
    && (files, kept) == Pass(before, live, order, clock)
    && (forall id :: id in todo ==> id in files && files[id] == before[id])
    && (forall id :: id in files ==> files[id].mtime <= clock)
  }

  /** A decision concerns one file only. */
  lemma {:induction false} DecideIsLocal(files: map<Id, File>, live: set<Id>, id: Id, kept: nat, clock: nat)
    ensures var (files', _) := Decide(files, live, id, kept, clock);
            && (forall j :: j != id ==> (j in files' <==> j in files) && (j in files ==> files'[j] == files[j]))
            && (id in files' ==> id in files && files'[id].mtime <= if files[id].mtime > clock then
                   files[id].mtime else clock)
  {
  }

  lemma {:induction false} HalfwayOn(before: map<Id, File>, live: set<Id>, order: seq<Id>, todo: set<Id>,
                                     files: map<Id, File>, kept: nat,
                                     id: Id, files': map<Id, File>, kept': nat, clock: nat)
    requires Halfway(before, live, order, todo, files, kept, clock)
    requires id in todo && forall j :: j in todo ==> files[j].mtime <= files[id].mtime
    requires (files', kept') == Decide(files, live, id, kept, clock)
    ensures Halfway(before, live, order + [id], todo - {id}, files', kept', clock)
  {
    DecideIsLocal(files, live, id, kept, clock);
    OneMore(before, order, id);
    PassOn(before, live, order, id, clock);
    assert todo - {id} == before.Keys - AsSet(order + [id]);
  }

  lemma {:induction false} OneMore(files: map<Id, File>, order: seq<Id>, id: Id)
    requires Newest(files, order) && id in files && id !in order
    requires forall j :: j in files && j !in order ==> files[j].mtime <= files[id].mtime
    ensures Newest(files, order + [id]) && (order + [id])[..|order|] == order &&
              AsSet(order + [id]) == AsSet(order) + {id}
  {
    var more := order + [id];
    assert forall k :: 0 <= k < |order| ==> more[k] == order[k];
    assert forall k, j :: 0 <= k <= |order| ==> (Earlier(more, k, j) <==> Earlier(order, k, j));
    assert more[..|order|] == order;
  }

  lemma {:induction false} AllKept(before: map<Id, File>, after: map<Id, File>, live: set<Id>, last: map<Id, Record>)
    requires Pruned(before, after, live)
    requires forall id :: id in last && MayHaveRun(last[id]) ==> Kept(before, id, last[id])
    ensures forall id :: id in last && MayHaveRun(last[id]) ==> Kept(after, id, last[id])
  {
    forall id | id in last && MayHaveRun(last[id]) ensures Kept(after, id, last[id]) {
      SafeMeaning(last[id]);
      UnsafeIsRemembered(before, after, live, id, last[id]);
    }
  }

  class Ledger {
    var files: map<Id, File>
    /** The single file of earlier versions, only read. */
    const legacy: map<Id, Record>
    var clock: nat
    /** For each request id, the record as it was last written by ledgerRecord. */
    ghost var last: map<Id, Record>

    /** Nothing that may have been executed is forgotten: of every request whose last record is not a safe end,
        the ledger still knows state and payload, and knows all unless it was compacted. */
    ghost predicate Valid()
      reads this
    {
      && (forall id :: id in files ==> files[id].mtime <= clock)
      && (forall id :: id in last && MayHaveRun(last[id]) ==> Kept(files, id, last[id]))
    }

    constructor (legacy: map<Id, Record>)
      ensures Valid() && last == map[] && this.legacy == legacy
    {
      this.legacy, files, clock, last := legacy, map[], 0, map[];
    }

    /** ledgerLookup */
    method Lookup(id: Id) returns (r: Option<Record>)
      requires Valid()
      ensures id in last && MayHaveRun(last[id]) ==>
                r.Some? && State(r.value) == State(last[id]) && r.value.payloadHash == last[id].payloadHash
      ensures r == if id in files && files[id].record.Some? then files[id].record else if id in legacy then
                Some(legacy[id]) else None
    {
      if id in files && files[id].record.Some? {
        return files[id].record;
      }
      r := if id in legacy then Some(legacy[id]) else None;
    }

    /** pruneRecords, given the request ids whose claim is held by a living process. */
    method Prune(live: set<Id>) returns (ghost order: seq<Id>)
      requires Valid()
      modifies this`files, this`clock
      ensures Valid() && clock == old(clock) + 1
      ensures |old(files)| > MAX_ENTRIES ==> NewestFirst(old(files), order)
      ensures files == PruneBy(old(files), live, order, clock) && Pruned(old(files), files, live)
    {
      clock, order := clock + 1, [];
      if |files| > MAX_ENTRIES {
        files, order := PruneAll(files, live, clock);
      }
      PruneMeaning(old(files), live, order, clock);
      AllKept(old(files), files, live, last);
    }

    /** ledgerRecord */
    method Put(id: Id, u: Update, now: string, live: set<Id>) returns (next: Record, ghost order: seq<Id>)
      requires Valid() && now != ""
      modifies this
      ensures Valid() && last == old(last)[id := next]
      ensures next == Merge(if id in old(files) then old(files)[id].record else None, u, now)
      ensures var written := Written(Books(old(files), old(clock)), id, u, now);
              && clock == old(clock) + 2 && (|written| > MAX_ENTRIES ==> NewestFirst(written, order))
              && files == PruneBy(written, live, order, clock) && Pruned(written, files, live)
    {
      ghost var written := Written(Books(files, clock), id, u, now);
      clock := clock + 1;
      next := Merge(if id in files then files[id].record else None, u, now);
      files := files[id := File(clock, Some(next))];
      last := last[id := next];
      assert files == written;
      order := Prune(live);
    }
  }

  // ---- Runs ----

  datatype Books = Books(files: map<Id, File>, clock: nat)

  /** A record is written, or the files are pruned; `live` are the claims held then, `order` lists the files. */
  datatype Event =
    | PutEvent(id: Id, u: Update, now: string, live: set<Id>, order: seq<Id>)
    | PruneEvent(live: set<Id>, order: seq<Id>)

  function Written(b: Books, id: Id, u: Update, now: string): map<Id, File> {
    b.files[id := File(b.clock + 1, Some(Merge(if id in b.files then b.files[id].record else None, u, now)))]
  }

  /** The files that the prune of an event finds, and its time. */
  function Unpruned(b: Books, e: Event): Books {
    match e
    case PutEvent(id, u, now, _, _) => Books(Written(b, id, u, now), b.clock + 2)
    case PruneEvent(_, _) => Books(b.files, b.clock + 1)
  }

  function After(b: Books, e: Event): Books {
    Books(PruneBy(Unpruned(b, e).files, e.live, e.order, Unpruned(b, e).clock), Unpruned(b, e).clock)
  }

  ghost predicate Enabled(b: Books, e: Event) {
    && (e.PutEvent? ==> e.now != "")
    && (|Unpruned(b, e).files| > MAX_ENTRIES ==> NewestFirst(Unpruned(b, e).files, e.order))
  }

  /** From an empty ledger, event by event. */
  ghost predicate IsRun(states: seq<Books>, events: seq<Event>) {
    && |states| == |events| + 1 && states[0] == Books(map[], 0)
    && forall i :: 0 <= i < |events| ==> Leads(states[i], events[i], states[i+1])
  }

  ghost predicate Leads(b: Books, e: Event, b': Books) {
    Enabled(b, e) && b' == After(b, e)
  }

  predicate Marked(files: map<Id, File>, id: Id) {
    id in files && files[id].record.Some? && files[id].record.value.pruned
  }

  predicate HasContent(files: map<Id, File>, id: Id) {
    id in files && files[id].record.Some? && files[id].record.value.rest != ""
  }

  lemma {:induction false} LastStep(states: seq<Books>, events: seq<Event>, n: nat)
    requires IsRun(states, events) && 0 < n < |states|
    ensures Leads(states[n-1], events[n-1], states[n])
  {
    assert Leads(states[n-1], events[n-1], states[n-1+1]);
  }

  /** One event and one id. A marked record is only changed by being written again, and stays marked; a record that
      becomes marked has lost its content. */
  lemma {:induction false} EventMarks(b: Books, e: Event, id: Id)
    requires Enabled(b, e)
    ensures Marked(b.files, id) ==> Marked(After(b, e).files, id)
    ensures Marked(b.files, id) && !(e.PutEvent? && e.id == id) ==> After(b, e).files[id] == b.files[id]
    ensures Marked(b.files, id) && e.PutEvent? && e.id == id ==> After(b, e).files[id] == Written(b, id, e.u, e.now)[id]
    ensures !Marked(b.files, id) && Marked(After(b, e).files, id) ==> !HasContent(After(b, e).files, id)
  {
    var w := Unpruned(b, e);
    PruneMeaning(w.files, e.live, e.order, w.clock);
    if id in w.files {
      assert PrunedFile(w.files, After(b, e).files, e.live, id);
    }
  }

  lemma {:induction false} EventRefills(b: Books, e: Event, id: Id)
    requires Enabled(b, e)
    ensures var files := After(b, e).files;
            Marked(files, id) && HasContent(files, id) <==>
              Marked(b.files, id) && if e.PutEvent? && e.id == id && e.u.rest.Some? then e.u.rest.value != ""
                  else HasContent(b.files, id)
  {
    EventMarks(b, e, id);
  }

  /** What was compacted is never forgotten: over any run it stays present and marked. */
  lemma {:induction false} MarkedStays(states: seq<Books>, events: seq<Event>, m: nat, n: nat, id: Id)
    requires IsRun(states, events) && m <= n < |states| && Marked(states[m].files, id)
    ensures Marked(states[n].files, id)
  {
    if m < n {
      MarkedStays(states, events, m, n - 1, id);
      LastStep(states, events, n);
      EventMarks(states[n-1], events[n-1], id);
    }
  }

  /** The ids that were recorded with content again after they had been compacted. */
  ghost function RecordedAgain(states: seq<Books>, events: seq<Event>, n: nat): set<Id>
    requires n <= |events| < |states|
  {
    if n == 0 then {}
    else
      var so, e := RecordedAgain(states, events, n - 1), events[n-1];
      if e.PutEvent? && e.u.rest.Some? && Marked(states[n-1].files, e.id) then
        if e.u.rest.value != "" then so + {e.id} else so - {e.id}
      else so
  }

  /** A marked record has content exactly if it was recorded with content again. */
  lemma {:induction false} RefilledMeaning(states: seq<Books>, events: seq<Event>, n: nat, id: Id)
    requires IsRun(states, events) && n <= |events|
    ensures id in RecordedAgain(states, events, n) <==> Marked(states[n].files, id) && HasContent(states[n].files, id)
  {
    if n > 0 {
      RefilledMeaning(states, events, n - 1, id);
      LastStep(states, events, n);
      EventRefills(states[n-1], events[n-1], id);
    }
  }

  function ContentAmong(files: map<Id, File>, live: set<Id>): set<Id> {
    set id | id in files && HasContent(files, id) && id !in live
  }

  function UnmarkedAmong(files: map<Id, File>, live: set<Id>): set<Id> {
    set id | id in files && HasContent(files, id) && !Marked(files, id) && id !in live
  }

  /** How many records with content survive a prune: at most 500 that were never compacted, and on top of them every
      one that was recorded again after it had been. So the limit of 500 on records with content holds exactly if no
      more of these were recorded again than the others leave room for; and if none was, it holds. */
  lemma {:induction false} ContentBound(states: seq<Books>, events: seq<Event>, n: nat)
    requires IsRun(states, events) && n < |events|
    ensures var files, live := states[n+1].files, events[n].live;
            var refilled := RecordedAgain(states, events, n + 1) - live;
            && |UnmarkedAmong(files, live)| <= MAX_ENTRIES
            && |ContentAmong(files, live)| == |UnmarkedAmong(files, live)| + |refilled|
            && (|ContentAmong(files, live)| <= MAX_ENTRIES <==>
                   |refilled| <= MAX_ENTRIES - |UnmarkedAmong(files, live)|)
            && (refilled == {} ==> |ContentAmong(files, live)| <= MAX_ENTRIES)
  {
    var files, live := states[n+1].files, events[n].live;
    var refilled := RecordedAgain(states, events, n + 1) - live;
    var w := Unpruned(states[n], events[n]);
    LastStep(states, events, n + 1);
    PruneMeaning(w.files, live, events[n].order, w.clock);
    assert UnmarkedAmong(files, live) <= FullAmong(files, live);
    Smaller(UnmarkedAmong(files, live), FullAmong(files, live));
    forall id ensures id in refilled <==> id in ContentAmong(files, live) && id !in UnmarkedAmong(files, live) {
      RefilledMeaning(states, events, n + 1, id);
    }
    assert ContentAmong(files, live) == UnmarkedAmong(files, live) + refilled;
    assert UnmarkedAmong(files, live) !! refilled;
  }

  // ---- A run over the limit ----

  function Name(i: nat): Id {
    seq(i, _ => 'x')
  }

  predicate HasRest(u: Update) {
    u.rest.Some? && u.rest.value != ""
  }

  /** The files after the first n of many requests. */
  function Table(n: nat, r: Record): (t: map<Id, File>)
    ensures forall id :: id in t <==> |id| < n && id == Name(|id|)
    ensures forall id :: id in t ==> t[id] == File(2 * |id| + 1, Some(r))
    ensures |t| == n
  {
    if n == 0 then map[] else
      var t := Table(n - 1, r);
      var u := t[Name(n - 1) := File(2 * (n - 1) + 1, Some(r))];
      assert u.Keys == t.Keys + {Name(n - 1)} && |u.Keys| == |t.Keys| + 1;
      u
  }

  /** The k newest of them, the newest first. */
  function Newer(n: nat, k: nat): (order: seq<Id>)
    requires k <= n
    ensures |order| == k && forall i :: 0 <= i < k ==> order[i] == Name(n - 1 - i)
  {
    if k == 0 then [] else Newer(n, k - 1) + [Name(n - k)]
  }

  lemma {:induction false} Continued(states: seq<Books>, events: seq<Event>, e: Event)
      returns (states': seq<Books>, events': seq<Event>)
    requires IsRun(states, events) && Enabled(states[|states|-1], e)
    ensures IsRun(states', events') && events' == events + [e] && states' == states + [After(states[|states|-1], e)]
  {
    states', events' := states + [After(states[|states|-1], e)], events + [e];
    forall i | 0 <= i < |events'| ensures Leads(states'[i], events'[i], states'[i+1]) {
      if i < |events| {
        assert states'[i] == states[i] && states'[i+1] == states[i+1] && events'[i] == events[i];
      }
    }
  }

  /** Up to the limit nothing is pruned. */
  lemma {:induction false} FillStep(n: nat, u: Update, now: string, r: Record)
    requires n < MAX_ENTRIES && r == Merge(None, u, now) && now != ""
    ensures var b, e := Books(Table(n, r), 2 * n), PutEvent(Name(n), u, now, {}, []);
            Enabled(b, e) && After(b, e) == Books(Table(n + 1, r), 2 * n + 2)
  {
    var b := Books(Table(n, r), 2 * n);
    assert Name(n) !in b.files;
    assert Written(b, Name(n), u, now) == Table(n + 1, r);
  }

  lemma {:induction false} Filled(n: nat, u: Update, now: string, r: Record)
      returns (states: seq<Books>, events: seq<Event>)
    requires n <= MAX_ENTRIES && r == Merge(None, u, now) && now != ""
    ensures IsRun(states, events) && states[|states|-1] == Books(Table(n, r), 2 * n)
  {
    if n == 0 {
      states, events := [Books(map[], 0)], [];
    } else {
      states, events := Filled(n - 1, u, now, r);
      FillStep(n - 1, u, now, r);
      states, events := Continued(states, events, PutEvent(Name(n - 1), u, now, {}, []));
    }
  }

  /** A pass over at most 500 uncompacted records keeps them. */
  lemma {:induction false} PassLeaves(files: map<Id, File>, first: seq<Id>, n: nat, k: nat, clock: nat)
    requires Pass(files, {}, first, clock) == (files, 0) && k <= n && k <= MAX_ENTRIES
    requires forall i :: n - k <= i < n ==> Name(i) in files && Full(files[Name(i)])
    ensures Pass(files, {}, first + Newer(n, k), clock) == (files, k)
  {
    if k == 0 {
      assert first + Newer(n, k) == first;
    } else {
      PassLeaves(files, first, n, k - 1, clock);
      var order := first + Newer(n, k);
      assert order[..|order|-1] == first + Newer(n, k - 1) && order[|order|-1] == Name(n - k);
    }
  }

  /** Their order is that of the times at which they were written. */
  lemma {:induction false} TableOrder(n: nat, r: Record)
    ensures NewestFirst(Table(n, r), Newer(n, n))
  {
    var t, order := Table(n, r), Newer(n, n);
    forall k | 0 <= k < n ensures |order[k]| == n - 1 - k && order[k] in t {
    }
    forall k, j | 0 <= k < n && j in t ensures t[j].mtime <= t[order[k]].mtime || Earlier(order, k, j) {
      assert order[n-1-|j|] == j;
    }
    forall id | id in t ensures id in order {
      assert order[n-1-|id|] == id;
    }
  }

  lemma {:induction false} NewestKept(r: Record, n: nat, clock: nat)
    requires !r.pruned && n == MAX_ENTRIES + 1
    ensures Pass(Table(n, r), {}, Newer(n, n - 1), clock) == (Table(n, r), n - 1)
  {
    var t := Table(n, r);
    forall i | 1 <= i < n ensures Name(i) in t && Full(t[Name(i)]) {
      assert |Name(i)| == i;
    }
    PassLeaves(t, [], n, n - 1, clock);
    assert [] + Newer(n, n - 1) == Newer(n, n - 1);
  }

  /** The oldest of one request too many is compacted. */
  lemma {:induction false} OneTooMany(r: Record, n: nat, clock: nat)
    requires !r.pruned && !Safe(r) && n == MAX_ENTRIES + 1
    ensures PruneBy(Table(n, r), {}, Newer(n, n), clock) == Table(n, r)[Name(0) := File(clock, Some(Placeholder(r)))]
  {
    var t := Table(n, r);
    NewestKept(r, n, clock);
    assert Name(0) in t && Newer(n, n) == Newer(n, n - 1) + [Name(0)];
    PassOn(t, {}, Newer(n, n - 1), Name(0), clock);
  }

  /** 501 files, the first of them this one. */
  function WithFirst(r: Record, f: File): (t: map<Id, File>)
    ensures forall id :: id in t <==> |id| < MAX_ENTRIES + 1 && id == Name(|id|)
    ensures forall id :: id in t ==> t[id] == if |id| == 0 then f else File(2 * |id| + 1, Some(r))
    ensures |t| == MAX_ENTRIES + 1
  {
    var t := Table(MAX_ENTRIES + 1, r);
    assert Name(0) in t && t[Name(0) := f].Keys == t.Keys;
    t[Name(0) := f]
  }

  /** Where the file with a name of this length stands when the first is the newest. */
  function PlaceOf(n: nat, length: nat): nat
    requires length < n
  {
    if length == 0 then 0 else n - length
  }

  lemma {:induction false} OrderByLength(t: map<Id, File>, order: seq<Id>, n: nat)
    requires n > 0 && |order| == n
    requires forall k :: 0 <= k < n ==> order[k] in t && |order[k]| == PlaceOf(n, k)
    requires forall id :: id in t ==> |id| < n && order[PlaceOf(n, |id|)] == id
    requires forall id :: id in t ==> if |id| == 0 then t[id].mtime >= 2 * n - 1 else t[id].mtime == 2 * |id| + 1
    ensures NewestFirst(t, order)
  {
    forall k, l | 0 <= k < l < n ensures order[k] != order[l] {
      assert PlaceOf(n, k) != PlaceOf(n, l);
    }
    forall k, j | 0 <= k < n && j in t ensures t[j].mtime <= t[order[k]].mtime || Earlier(order, k, j) {
      assert PlaceOf(n, |j|) >= k || Earlier(order, k, j);
    }
  }

  lemma {:induction false} FirstIsNewest(r: Record, f: File, n: nat)
    requires f.mtime >= 2 * MAX_ENTRIES + 1 && n == MAX_ENTRIES + 1
    ensures NewestFirst(WithFirst(r, f), [Name(0)] + Newer(n, n - 1))
  {
    var t, rest := WithFirst(r, f), Newer(n, n - 1);
    var order := [Name(0)] + rest;
    forall k | 0 <= k < n ensures order[k] in t && |order[k]| == PlaceOf(n, k) {
      assert order[k] == if k == 0 then Name(0) else rest[k-1];
    }
    forall id | id in t ensures |id| < n && order[PlaceOf(n, |id|)] == id {
      assert |id| > 0 ==> order[n-|id|] == rest[n-1-|id|];
    }
    OrderByLength(t, order, n);
  }

  /** Its result, recorded later, is written into the marked record; prunes neither count nor touch that. */
  lemma {:induction false} ResultStays(r: Record, f: File, clock: nat)
    requires !r.pruned && f.record.Some? && f.record.value.pruned
    ensures PruneBy(WithFirst(r, f), {}, [Name(0)] + Newer(MAX_ENTRIES + 1, MAX_ENTRIES), clock) == WithFirst(r, f)
  {
    var t := WithFirst(r, f);
    assert [Name(0)][..0] == [] && Pass(t, {}, [], clock) == (t, 0) && Pass(t, {}, [Name(0)], clock) == (t, 0);
    PassLeaves(t, [Name(0)], MAX_ENTRIES + 1, MAX_ENTRIES, clock);
  }

  lemma {:induction false} SecondWritten(r: Record, stub: File, ended: Update, now: string)
    ensures Written(Books(WithFirst(r, stub), 2 * MAX_ENTRIES + 2), Name(0), ended, now)
         == WithFirst(r, File(2 * MAX_ENTRIES + 3, Some(Merge(stub.record, ended, now))))
  {
    assert Name(0) in WithFirst(r, stub) && WithFirst(r, stub)[Name(0)] == stub;
  }

  lemma {:induction false} SecondPart(r: Record, ended: Update, now: string)
    requires !r.pruned && !Safe(r) && now != ""
    ensures var n, stub := MAX_ENTRIES, File(2 * MAX_ENTRIES + 2, Some(Placeholder(r)));
            var b, e := Books(WithFirst(r, stub), 2 * n + 2), PutEvent(Name(0), ended, now, {},
                [Name(0)] + Newer(n + 1, n));
            var full := File(2 * n + 3, Some(Merge(stub.record, ended, now)));
            Enabled(b, e) && After(b, e) == Books(WithFirst(r, full), 2 * n + 4)
  {
    var n, stub := MAX_ENTRIES, File(2 * MAX_ENTRIES + 2, Some(Placeholder(r)));
    var full := File(2 * n + 3, Some(Merge(stub.record, ended, now)));
    SecondWritten(r, stub, ended, now);
    FirstIsNewest(r, full, n + 1);
    ResultStays(r, full, 2 * n + 4);
  }

  lemma {:induction false} FirstPart(begun: Update, now: string, r: Record)
    requires r == Merge(None, begun, now) && !Safe(r) && now != ""
    ensures var n := MAX_ENTRIES;
            var b, e := Books(Table(n, r), 2 * n), PutEvent(Name(n), begun, now, {}, Newer(n + 1, n + 1));
            Enabled(b, e) && After(b, e) == Books(WithFirst(r, File(2 * n + 2, Some(Placeholder(r)))), 2 * n + 2)
  {
    var n := MAX_ENTRIES;
    var b := Books(Table(n, r), 2 * n);
    assert Name(n) !in b.files;
    assert Written(b, Name(n), begun, now) == Table(n + 1, r);
    TableOrder(n + 1, r);
    OneTooMany(r, n + 1, 2 * n + 2);
  }

  lemma {:induction false} AllContent(r: Record, files: map<Id, File>)
    requires r.rest != "" && Name(0) in files && files == WithFirst(r, files[Name(0)]) && HasContent(files, Name(0))
    ensures |ContentAmong(files, {})| == MAX_ENTRIES + 1
  {
    forall id | id in files ensures HasContent(files, id) {
      assert |id| == 0 ==> id == Name(0);
    }
    assert ContentAmong(files, {}) == files.Keys;
  }

  /** A run after which 501 records with content survive a prune though no claim is live: one request more than the
      limit is begun, so the first is compacted; then that one's result is recorded. So it is whatever the records
      say, if what is begun is not a safe end and both have content. */
  lemma {:induction false} MoreThanTheLimit(begun: Update, ended: Update, now: string)
      returns (states: seq<Books>, events: seq<Event>)
    requires now != "" && !Safe(Merge(None, begun, now)) && HasRest(begun) && HasRest(ended)
    ensures IsRun(states, events) && events != [] && events[|events|-1].live == {}
    ensures |ContentAmong(states[|states|-1].files, {})| == MAX_ENTRIES + 1
  {
    var n, r := MAX_ENTRIES, Merge(None, begun, now);
    states, events := Compacted(n, begun, now, r);
    var b := states[|states|-1];
    SecondPart(r, ended, now);
    states, events := Continued(states, events, PutEvent(Name(0), ended, now, {}, [Name(0)] + Newer(n + 1, n)));
    AllContent(r, After(b, events[|events|-1]).files);
  }

  lemma {:induction false} Compacted(n: nat, begun: Update, now: string, r: Record)
      returns (states: seq<Books>, events: seq<Event>)
    requires n == MAX_ENTRIES && r == Merge(None, begun, now) && !Safe(r) && now != ""
    ensures IsRun(states, events) &&
              states[|states|-1] == Books(WithFirst(r, File(2 * n + 2, Some(Placeholder(r)))), 2 * n + 2)
  {
    states, events := Filled(n, begun, now, r);
    FirstPart(begun, now, r);
    states, events := Continued(states, events, PutEvent(Name(n), begun, now, {}, Newer(n + 1, n + 1)));
  }

  ghost predicate Kept(files: map<Id, File>, id: Id, r: Record) {
    Remembers(files, id, r) && (files[id].record.value == r || files[id].record.value.pruned)
  }

  lemma {:induction false} FewFiles(files: map<Id, File>, live: set<Id>)
    requires |files| <= MAX_ENTRIES
    ensures Pruned(files, files, live)
  {
    assert FullAmong(files, live) <= files.Keys;
    Smaller(FullAmong(files, live), files.Keys);
  }

  lemma {:induction false} Smaller<T>(a: set<T>, b: set<T>)
    requires a <= b
    ensures |a| <= |b|
    decreases a
  {
    if a != {} {
      var x :| x in a;
      Smaller(a - {x}, b - {x});
    }
  }
}

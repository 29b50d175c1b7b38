/** What a strict multi-file batch leaves on disk at any moment of its life, and why recovery can always
    bring it to all-new or all-old (malong/write-runtime.js, malong/write-journal.js). */
module Batch {
  import opened Common
  import opened Journal

  /** One batch marker, .malong/batches/<id>.json. */
  datatype Marker = Marker(files: seq<Path>, ids: seq<TxnId>, strict: bool)

  function Paths(es: seq<Edit>): seq<Path> {
    seq(|es|, i requires 0 <= i < |es| => es[i].path)
  }

  /** The batches the claim is about: distinct paths, and nothing under a file to be created. */
  predicate Wellformed(es: seq<Edit>) {
    && (forall i :: 0 <= i < |es| ==> es[i].WellFormed())
    && (forall i, j :: 0 <= i < j < |es| ==> es[i].path != es[j].path)
  }

  predicate CreatesNoEmptyFile(es: seq<Edit>) {
    forall i :: 0 <= i < |es| ==> !es[i].CreatesEmptyFile()
  }

  /** The batches that are crash-atomic: beside the creation of an empty file, nothing changes anything. */
  predicate AtomicBatch(es: seq<Edit>) {
    forall i, j :: 0 <= i < |es| && 0 <= j < |es| && i != j && es[j].CreatesEmptyFile() ==> !es[i].Effective()
  }

  predicate AllOld(files: Files, es: seq<Edit>) {
    forall i :: 0 <= i < |es| ==> es[i].Old(files)
  }

  predicate AllNew(files: Files, es: seq<Edit>) {
    forall i :: 0 <= i < |es| ==> es[i].New(files)
  }

  /** What the journal of one batch member says about its file. */
  predicate MemberOk(files: Files, t: Txn, owner: Pid, e: Edit) {
    && t.owner == owner && t.file == Some(e.path) && t.backup == Some(e.before)
    && t.state.Some? && t.state.value.created == e.create
    && (t.state.value.newHash == None || t.state.value.newHash == Some(Sha256(e.after)))
    && match t.state.value.phase
       case Committed => t.state.value.newHash.Some? && (e.Old(files) || e.New(files))
       case Staged => e.Old(files) || (e.New(files) && t.state.value.newHash.Some?)
       case RolledBack => e.Old(files)
       case Abandoned => e.Old(files)
       case NeedsReview => e.Old(files)
       case Failed => e.Old(files)
       case _ => false
  }

  predicate InFlight(t: Txn) {
    t.Is(Committed) || t.Is(Staged)
  }

  predicate MembersOk(files: Files, txns: map<TxnId, Txn>, m: Marker, owner: Pid, es: seq<Edit>) {
    && m.files == Paths(es) && m.strict
    && |m.ids| <= |es|
    && (forall i, j :: 0 <= i < j < |m.ids| ==> m.ids[i] != m.ids[j])
    && (forall i :: 0 <= i < |m.ids| ==> m.ids[i] in txns && MemberOk(files, txns[m.ids[i]], owner, es[i]))
    && (forall i :: |m.ids| <= i < |es| ==> es[i].Old(files))
  }

  /** The batch can still end with every file new. */
  predicate MayComplete(txns: map<TxnId, Txn>, m: Marker, es: seq<Edit>) {
    |m.ids| == |es| && forall i :: 0 <= i < |m.ids| ==> m.ids[i] in txns && InFlight(txns[m.ids[i]])
  }

  /** The crash invariant of a strict batch: it holds between any two durable steps of the writer, of its
      rollback and of recovery. Without a marker the batch is all old or all new; with one, every journal
      tells the truth about its file, and a committed file may only be old again once some other member
      can no longer commit. */
  predicate Recoverable(files: Files, txns: map<TxnId, Txn>, marker: Option<Marker>, owner: Pid, es: seq<Edit>) {
    match marker
    case None => AllOld(files, es) || AllNew(files, es)
    case Some(m) =>
      && MembersOk(files, txns, m, owner, es)
      && (MayComplete(txns, m, es) ==>
            forall i :: 0 <= i < |m.ids| && txns[m.ids[i]].Is(Committed) ==> es[i].New(files))
  }

  /** `after` is `before` with some of its directories settled: what a recovery pass that may have died
      half-way leaves behind. */
  predicate PartlySettled(files: Files, alive: set<Pid>, before: map<TxnId, Txn>, after: map<TxnId, Txn>) {
    && (forall t ::
           t in after ==> t in before && (after[t] == before[t] || Settle(files, alive, before[t]) == Some(after[t])))
    && (forall t :: t in before && t !in after ==> Settle(files, alive, before[t]) == None)
  }

  /** The pass has come to one directory; it has come to all but those in `todo`. */
  function SettledAt(files: Files, alive: set<Pid>, txns: map<TxnId, Txn>, t: TxnId): map<TxnId, Txn>
    requires t in txns
  {
    match Settle(files, alive, txns[t])
    case None => txns - {t}
    case Some(x) => txns[t := x]
  }

  ghost predicate SettledBut(files: Files, alive: set<Pid>, before: map<TxnId, Txn>, after: map<TxnId, Txn>,
                             todo: set<TxnId>) {
    forall t :: t in before && t !in todo ==> Entry(after, t) == Settle(files, alive, before[t])
  }

  lemma {:induction false} SettledOneMore(files: Files, alive: set<Pid>, before: map<TxnId, Txn>, txns: map<TxnId, Txn>,
                                          after: map<TxnId, Txn>, todo: set<TxnId>, t: TxnId)
    requires PartlySettled(files, alive, before, txns) && txns.Keys <= before.Keys
    requires t in todo && todo <= txns.Keys && forall u :: u in todo ==> txns[u] == before[u]
    requires after == txns || after == SettledAt(files, alive, txns, t)
    ensures PartlySettled(files, alive, before, after) && after.Keys <= before.Keys
    ensures forall u :: u in todo - {t} ==> u in after && after[u] == before[u]
    ensures SettledBut(files, alive, before, txns, todo) && after == SettledAt(files, alive, txns, t) ==>
              SettledBut(files, alive, before, after, todo - {t})
  {
  }

  lemma {:induction false} PartlySettledMeaning(files: Files, alive: set<Pid>, before: map<TxnId, Txn>,
                                                after: map<TxnId, Txn>)
    requires PartlySettled(files, alive, before, after)
    ensures RecoveredPartly(files, alive, before, after)
  {
    forall t | t in before && Entry(after, t) != Some(before[t])
      ensures !InUse(alive, before[t]) && !HasOutcome(before[t]) && Judged(files, alive, before[t], Entry(after, t))
    {
      SettleMeaning(files, alive, before[t]);
    }
  }

  lemma {:induction false} SettlingMember(files: Files, alive: set<Pid>, t: Txn, owner: Pid, e: Edit)
    requires MemberOk(files, t, owner, e) && e.WellFormed() && owner !in alive && !e.CreatesEmptyFile()
    ensures Settle(files, alive, t).Some?
    ensures var u := Settle(files, alive, t).value;
            && MemberOk(files, u, owner, e)
            && !u.Is(Staged)
            && (InFlight(u) ==> InFlight(t))
            && (u.Is(Committed) ==> t.Is(Committed) || e.New(files))
  {
    if t.Is(Staged) {
      CrashedWriteIsClassified(files, alive, t, e);
    }
  }

  lemma {:induction false} SettlingKeepsRecoverable(files: Files, alive: set<Pid>, before: map<TxnId, Txn>,
                                                    after: map<TxnId, Txn>,
                                 marker: Option<Marker>, owner: Pid, es: seq<Edit>)
    requires Wellformed(es) && CreatesNoEmptyFile(es) && owner !in alive
    requires Recoverable(files, before, marker, owner, es)
    requires PartlySettled(files, alive, before, after)
    ensures Recoverable(files, after, marker, owner, es)
    ensures marker.Some? && after == SettleAll(files, alive, before) ==>
              forall i :: 0 <= i < |marker.value.ids| ==> !after[marker.value.ids[i]].Is(Staged)
  {
    if marker.Some? {
      var m := marker.value;
      forall i | 0 <= i < |m.ids|
        ensures m.ids[i] in after && MemberOk(files, after[m.ids[i]], owner, es[i])
        ensures InFlight(after[m.ids[i]]) ==> InFlight(before[m.ids[i]])
        ensures after[m.ids[i]].Is(Committed) ==> before[m.ids[i]].Is(Committed) || es[i].New(files)
        ensures after == SettleAll(files, alive, before) ==> !after[m.ids[i]].Is(Staged)
      {
        SettlingMember(files, alive, before[m.ids[i]], owner, es[i]);
      }
    }
  }

  // ---- The writer's own view of a batch in progress ----

  /** The first |ids| files are written and committed, the marker lists them, the others are old. */
  predicate WrittenSoFar(files: Files, txns: map<TxnId, Txn>, marker: Option<Marker>, es: seq<Edit>, ids: seq<TxnId>) {
    && |ids| <= |es|
    && marker == Some(Marker(Paths(es), ids, true))
    && (forall i :: 0 <= i < |ids| ==> ids[i] in txns && txns[ids[i]].Is(Committed) && es[i].New(files))
    && (forall i :: |ids| <= i < |es| ==> es[i].Old(files))
  }

  /** The batch has failed after `ids` were committed; the one member journalled after them (if any) did
      not land, and the first k have been taken back. */
  predicate RollingBack(files: Files, txns: map<TxnId, Txn>, marker: Option<Marker>, es: seq<Edit>, ids: seq<TxnId>,
                        k: nat) {
    && marker.Some? && ids <= marker.value.ids
    && k <= |ids| < |es|
    && (|ids| < |marker.value.ids| ==> marker.value.ids[|ids|] in txns && txns[marker.value.ids[|ids|]].Is(Failed))
    && (forall i :: 0 <= i < |es| && !(k <= i < |ids|) ==> es[i].Old(files))
    && (forall i :: k <= i < |ids| ==> ids[i] in txns && txns[ids[i]].Is(Committed) && es[i].New(files))
  }

  /** Exactly the first |ids| edits have been made, and exactly their journals have been added. */
  ghost predicate Recorded(files0: Files, txns0: map<TxnId, Txn>, files: Files, txns: map<TxnId, Txn>,
                           pid: Pid, b: BatchId, es: seq<Edit>, ids: seq<TxnId>)
  {
    && |ids| <= |es|
    && (forall i ::
           0 <= i < |ids| ==>
               ids[i] in txns && txns[ids[i]] == es[i].AsTxn(pid, Committed, Some(Sha256(es[i].after)), Some(b)))
    && (forall t :: t in txns && t !in ids ==> t in txns0 && txns[t] == txns0[t])
    && (forall t :: t in txns0 ==> t in txns && txns[t] == txns0[t] && t !in ids)
    && (forall i :: 0 <= i < |ids| ==> es[i].New(files))
    && (forall p :: (forall i :: 0 <= i < |ids| ==> es[i].path != p) ==> SameAt(files0, files, p))
  }

  lemma {:induction false} RecordStep(files0: Files, txns0: map<TxnId, Txn>, files: Files, txns: map<TxnId, Txn>,
                                      files': Files, txns': map<TxnId, Txn>,
                   pid: Pid, b: BatchId, es: seq<Edit>, ids: seq<TxnId>, t: TxnId)
    requires Recorded(files0, txns0, files, txns, pid, b, es, ids) && |ids| < |es| && Wellformed(es) && t !in txns
    requires files' == files[es[|ids|].path := es[|ids|].after]
    requires txns' == txns[t := es[|ids|].AsTxn(pid, Committed, Some(Sha256(es[|ids|].after)), Some(b))]
    ensures Recorded(files0, txns0, files', txns', pid, b, es, ids + [t])
  {
    var ids' := ids + [t];
    forall i | 0 <= i < |ids|
      ensures ids'[i] == ids[i] && es[i].path != es[|ids|].path
    {}
    forall i | 0 <= i < |ids'| ensures es[i].New(files') {
      assert i < |ids| ==> es[i].New(files);
    }
    forall p | forall i :: 0 <= i < |ids'| ==> es[i].path != p
      ensures SameAt(files0, files', p)
    {
      OthersAsBefore(files0, files, es, |ids|, p);
    }
  }

  lemma {:induction false} OthersAsBefore(files0: Files, files: Files, es: seq<Edit>, n: nat, p: Path)
    requires n < |es| && (forall i :: 0 <= i < n + 1 ==> es[i].path != p)
    requires forall q :: (forall i :: 0 <= i < n ==> es[i].path != q) ==> SameAt(files0, files, q)
    ensures SameAt(files0, files, p) && p != es[n].path
  {
    assert es[n].path != p;
    assert forall i :: 0 <= i < n ==> es[i].path != p;
  }

  /** The member that has just been journalled: neither committed nor failed yet. */
  predicate Pending(files: Files, txns: map<TxnId, Txn>, marker: Option<Marker>, pid: Pid, b: BatchId, es: seq<Edit>,
                    ids: seq<TxnId>, t: TxnId)
    requires |ids| < |es|
  {
    && marker == Some(Marker(Paths(es), ids + [t], true))
    && t !in ids && t in txns && txns[t] == es[|ids|].AsTxn(pid, Staged, Some(Sha256(es[|ids|].after)), Some(b))
    && forall i :: 0 <= i < |ids| ==> ids[i] in txns && txns[ids[i]].Is(Committed) && es[i].New(files)
  }

  /** The writer died right after the rename of member |ids|, before its commit record. */
  predicate Renamed(files: Files, txns: map<TxnId, Txn>, marker: Option<Marker>, pid: Pid, b: BatchId, es: seq<Edit>,
                    ids: seq<TxnId>, t: TxnId)
  {
    && |ids| < |es| && Pending(files, txns, marker, pid, b, es, ids, t) && es[|ids|].New(files)
    && forall i :: |ids| < i < |es| ==> es[i].Old(files)
  }

  ghost predicate DiedAt(files: Files, txns: map<TxnId, Txn>, marker: Option<Marker>, pid: Pid, b: BatchId,
                         es: seq<Edit>, j: nat) {
    exists ids, t :: |ids| == j && Renamed(files, txns, marker, pid, b, es, ids, t)
  }

  /** A journal directory outside the marker does not matter to the batch. */
  lemma {:induction false} StrangerKeepsRecoverable(files: Files, txns: map<TxnId, Txn>, txns': map<TxnId, Txn>,
                                                    marker: Option<Marker>,
                                 owner: Pid, es: seq<Edit>)
    requires Recoverable(files, txns, marker, owner, es)
    requires forall t :: t in txns ==> t in txns' && txns'[t] == txns[t]
    ensures Recoverable(files, txns', marker, owner, es)
  {}

  /** Listing a freshly journalled member in the marker. */
  lemma {:induction false} EnlistKeepsRecoverable(files: Files, txns: map<TxnId, Txn>, m: Marker, t: TxnId, owner: Pid,
                                                  es: seq<Edit>)
    requires Recoverable(files, txns, Some(m), owner, es) && |m.ids| < |es|
    requires t in txns && t !in m.ids && MemberOk(files, txns[t], owner, es[|m.ids|])
    requires forall i :: 0 <= i < |m.ids| ==> es[i].New(files)
    requires !txns[t].Is(Committed)
    ensures Recoverable(files, txns, Some(m.(ids := m.ids + [t])), owner, es)
  {
    var m' := m.(ids := m.ids + [t]);
    forall i | 0 <= i < |m'.ids|
      ensures m'.ids[i] in txns && MemberOk(files, txns[m'.ids[i]], owner, es[i])
    {}
  }

  /** Changing one member's file between its two contents, or its journal, keeps the invariant as long as
      the member stays truthful and the batch does not become completable again. */
  lemma {:induction false} MemberStep(files: Files, txns: map<TxnId, Txn>, files': Files, t': Txn, m: Marker, k: nat,
                                      owner: Pid, es: seq<Edit>)
    requires Wellformed(es) && k < |m.ids|
    requires Recoverable(files, txns, Some(m), owner, es)
    requires MemberOk(files', t', owner, es[k])
    requires forall p :: p != es[k].path ==> (p in files <==> p in files') && (p in files ==> files[p] == files'[p])
    requires InFlight(t') ==> InFlight(txns[m.ids[k]])
    requires t'.Is(Committed) ==> es[k].New(files') || !MayComplete(txns, m, es)
    ensures Recoverable(files', txns[m.ids[k] := t'], Some(m), owner, es)
    ensures forall i ::
              0 <= i < |es| && i != k ==>
                  (es[i].Old(files') <==> es[i].Old(files)) && (es[i].New(files') <==> es[i].New(files))
    ensures MayComplete(txns[m.ids[k] := t'], m, es) ==> MayComplete(txns, m, es)
  {
    var txns' := txns[m.ids[k] := t'];
    forall i | 0 <= i < |es| && i != k
      ensures es[i].path != es[k].path
    {
      if i < k { assert es[i].path != es[k].path; } else { assert es[k].path != es[i].path; }
    }
    forall i | 0 <= i < |m.ids| && i != k
      ensures m.ids[i] in txns' && txns'[m.ids[i]] == txns[m.ids[i]]
    {
      if i < k { assert m.ids[i] != m.ids[k]; } else { assert m.ids[k] != m.ids[i]; }
    }
    if MayComplete(txns', m, es) {
      forall i | 0 <= i < |m.ids|
        ensures m.ids[i] in txns && InFlight(txns[m.ids[i]])
      {
        assert InFlight(txns'[m.ids[i]]);
      }
    }
  }

  // ---- Recovery of a half-finished batch ----

  /** What every marker on disk satisfies: distinct members, whose journals are complete once committed. */
  predicate MarkerOk(txns: map<TxnId, Txn>, m: Marker) {
    && (forall i, j :: 0 <= i < j < |m.ids| ==> m.ids[i] != m.ids[j])
    && (forall t :: t in m.ids && t in txns && txns[t].Is(Committed) ==> txns[t].file.Some? && txns[t].backup.Some?)
  }

  function CommittedIds(txns: map<TxnId, Txn>, ids: seq<TxnId>): seq<TxnId> {
    if ids == [] then []
    else if ids[0] in txns && txns[ids[0]].Is(Committed) then [ids[0]] + CommittedIds(txns, ids[1..])
    else CommittedIds(txns, ids[1..])
  }

  lemma {:induction false} CommittedIdsMeaning(txns: map<TxnId, Txn>, ids: seq<TxnId>)
    requires forall i, j :: 0 <= i < j < |ids| ==> ids[i] != ids[j]
    ensures var cs := CommittedIds(txns, ids);
            && (forall t :: t in cs <==> t in ids && t in txns && txns[t].Is(Committed))
            && (forall i, j :: 0 <= i < j < |cs| ==> cs[i] != cs[j])
            && |cs| <= |ids|
            && (|cs| == |ids| <==> forall t :: t in ids ==> t in txns && txns[t].Is(Committed))
  {
    if ids != [] {
      CommittedIdsMeaning(txns, ids[1..]);
      assert forall t :: t in ids <==> t == ids[0] || t in ids[1..];
      assert ids[0] !in ids[1..];
    }
  }

  /** Recovery's roll-back of one committed member of a batch that cannot complete. */
  lemma {:induction false} RecoveryStep(files: Files, txns: map<TxnId, Txn>, m: Marker, k: nat, owner: Pid,
                                        es: seq<Edit>)
    requires Wellformed(es) && k < |m.ids|
    requires Recoverable(files, txns, Some(m), owner, es) && !MayComplete(txns, m, es)
    requires txns[m.ids[k]].Is(Committed)
    ensures var t := txns[m.ids[k]];
            if HoldsNew(files, t) then
              && Recoverable(Reverted(files, t), txns, Some(m), owner, es)
              && Recoverable(Reverted(files, t), txns[m.ids[k] := t.WithPhase(RolledBack)], Some(m), owner, es)
              && !MayComplete(txns[m.ids[k] := t.WithPhase(RolledBack)], m, es)
              && es[k].Old(Reverted(files, t))
              && forall i :: 0 <= i < |es| && i != k ==> (es[i].Old(Reverted(files, t)) <==> es[i].Old(files))
            else
              && Recoverable(files, txns[m.ids[k] := t.WithPhase(NeedsReview)], Some(m), owner, es)
              && !MayComplete(txns[m.ids[k] := t.WithPhase(NeedsReview)], m, es)
              && es[k].Old(files)
  {
    var t := txns[m.ids[k]];
    assert MemberOk(files, t, owner, es[k]);
    if HoldsNew(files, t) {
      MemberStep(files, txns, Reverted(files, t), t, m, k, owner, es);
      assert txns[m.ids[k] := t] == txns;
      MemberStep(files, txns, Reverted(files, t), t.WithPhase(RolledBack), m, k, owner, es);
    } else {
      MemberStep(files, txns, files, t.WithPhase(NeedsReview), m, k, owner, es);
    }
  }

  /** Once nothing is staged any more, the number of committed members decides the batch. */
  lemma {:induction false} Verdict(files: Files, txns: map<TxnId, Txn>, m: Marker, owner: Pid, es: seq<Edit>)
    requires Recoverable(files, txns, Some(m), owner, es)
    requires forall i :: 0 <= i < |m.ids| ==> !txns[m.ids[i]].Is(Staged)
    ensures var n := |CommittedIds(txns, m.ids)|;
            && n <= |m.files| == |es|
            && (n == 0 ==> AllOld(files, es))
            && (n == |es| ==> AllNew(files, es))
            && (n < |es| ==> !MayComplete(txns, m, es))
  {
    CommittedIdsMeaning(txns, m.ids);
    var cs := CommittedIds(txns, m.ids);
    if cs == [] {
      forall i | 0 <= i < |es|
        ensures es[i].Old(files)
      {
        if i < |m.ids| {
          assert m.ids[i] !in cs;
          assert MemberOk(files, txns[m.ids[i]], owner, es[i]);
        }
      }
    }
    if |cs| == |es| {
      forall i | 0 <= i < |es|
        ensures txns[m.ids[i]].Is(Committed)
      {
        assert m.ids[i] in m.ids;
      }
      assert MayComplete(txns, m, es);
    } else {
      if |m.ids| == |es| {
        var u :| u in m.ids && !(u in txns && txns[u].Is(Committed));
        var i :| 0 <= i < |m.ids| && m.ids[i] == u;
        assert !InFlight(txns[m.ids[i]]);
      }
    }
  }

  lemma {:induction false} CommittedPrefix(txns: map<TxnId, Txn>, ids: seq<TxnId>, t: TxnId)
    requires forall u :: u in ids ==> u in txns && txns[u].Is(Committed)
    requires t in txns ==> !txns[t].Is(Committed)
    ensures CommittedIds(txns, ids + [t]) == ids
  {
    if ids == [] {
      assert ([] + [t])[1..] == [];
    } else {
      CommittedPrefix(txns, ids[1..], t);
      assert (ids + [t])[0] == ids[0] && (ids + [t])[1..] == ids[1..] + [t];
    }
  }

  /** The members `ids` of the batch landed, their journals are complete, and so did the empty file after them. */
  predicate HalfApplied(files: Files, txns: map<TxnId, Txn>, es: seq<Edit>, ids: seq<TxnId>) {
    && Wellformed(es) && |ids| < |es| && es[|ids|].CreatesEmptyFile() && es[|ids|].New(files)
    && (forall i :: |ids| < i < |es| ==> es[i].Old(files))
    && (forall i :: 0 <= i < |ids| ==>
          && ids[i] in txns && HoldsNew(files, txns[ids[i]])
          && txns[ids[i]].file == Some(es[i].path) && txns[ids[i]].backup == Some(es[i].before)
          && txns[ids[i]].state.value.created == es[i].create)
  }

  /** A crash right after the rename of an empty created file: recovery takes the file for untouched,
      and so the members before it for a half-finished batch. */
  lemma {:induction false} EmptyCreateSettles(files: Files, txns: map<TxnId, Txn>, alive: set<Pid>,
                                              marker: Option<Marker>, pid: Pid, b: BatchId,
                           es: seq<Edit>, ids: seq<TxnId>, t: TxnId)
    requires Wellformed(es) && Recoverable(files, txns, marker, pid, es)
    requires Renamed(files, txns, marker, pid, b, es, ids, t) && es[|ids|].CreatesEmptyFile() && pid !in alive
    ensures var settled := SettleAll(files, alive, txns);
            && MarkerOk(settled, marker.value)
            && CommittedIds(settled, marker.value.ids) == ids
            && HalfApplied(files, settled, es, ids)
            && DistinctFiles(settled, AsSet(ids))
  {
    var settled := SettleAll(files, alive, txns);
    var m := marker.value;
    CrashedWriteIsClassified(files, alive, txns[t], es[|ids|]);
    forall i | 0 <= i < |ids|
      ensures ids[i] in settled && settled[ids[i]] == txns[ids[i]] && HoldsNew(files, txns[ids[i]])
      ensures MemberOk(files, txns[ids[i]], pid, es[i])
    {
      assert m.ids[i] == ids[i] && MemberOk(files, txns[ids[i]], pid, es[i]);
    }
    CommittedPrefix(settled, ids, t);
    forall u, v | u in AsSet(ids) && v in AsSet(ids) && u != v
      ensures settled[u].file != settled[v].file
    {
      var i :| 0 <= i < |ids| && ids[i] == u;
      var k :| 0 <= k < |ids| && ids[k] == v;
      assert es[i].path != es[k].path;
    }
  }

  /** The roll-back that follows leaves the empty file in place and every other file old. */
  lemma {:induction false} EmptyCreateStays(files: Files, files': Files, txns: map<TxnId, Txn>, es: seq<Edit>,
                                            ids: seq<TxnId>, i: nat)
    requires HalfApplied(files, txns, es, ids) && i < |es| && i != |ids| && es[i].Effective()
    requires OnlyReverts(files, files', txns, AsSet(ids))
    requires 0 < |ids| ==> TakenBack(files, files', txns, ids)
    ensures !AllOld(files', es) && !AllNew(files', es)
  {
    var j := |ids|;
    assert SameAt(files, files', es[j].path);
    assert !es[j].Old(files');
    if i < j {
      assert TakenBackAt(files, files', txns[ids[i]], es[i].path);
    } else {
      assert SameAt(files, files', es[i].path);
    }
    assert !es[i].New(files');
  }

  // ---- An empty file beside edits that change nothing ----

  predicate EachOldOrNew(files: Files, es: seq<Edit>) {
    forall i :: 0 <= i < |es| ==> es[i].Old(files) || es[i].New(files)
  }

  /** The journal belongs to the edit, whatever its phase. */
  predicate Targets(t: Txn, e: Edit) {
    t.file == Some(e.path) && t.backup == Some(e.before) && t.state.Some? && t.state.value.created == e.create
  }

  predicate Shaped(files: Files, txns: map<TxnId, Txn>, marker: Option<Marker>, es: seq<Edit>) {
    && EachOldOrNew(files, es)
    && (marker.Some? ==> MembersTarget(txns, marker.value.ids, es))
  }

  predicate MembersTarget(txns: map<TxnId, Txn>, ids: seq<TxnId>, es: seq<Edit>) {
    && |ids| <= |es|
    && (forall i, j :: 0 <= i < j < |ids| ==> ids[i] != ids[j])
    && (forall i :: 0 <= i < |ids| ==> ids[i] in txns && Targets(txns[ids[i]], es[i]))
  }

  /** What recovery relies on, according to the kind of batch. */
  predicate Consistent(files: Files, txns: map<TxnId, Txn>, marker: Option<Marker>, owner: Pid, es: seq<Edit>) {
    if CreatesNoEmptyFile(es) then Recoverable(files, txns, marker, owner, es) else Shaped(files, txns, marker, es)
  }

  lemma {:induction false} RecoverableIsConsistent(files: Files, txns: map<TxnId, Txn>, marker: Option<Marker>,
                                                   owner: Pid, es: seq<Edit>)
    requires Recoverable(files, txns, marker, owner, es)
    ensures Consistent(files, txns, marker, owner, es)
    ensures marker.Some? ==> MembersTarget(txns, marker.value.ids, es)
  {
    if marker.Some? {
      var m := marker.value;
      forall i | 0 <= i < |m.ids| ensures Targets(txns[m.ids[i]], es[i]) && (es[i].Old(files) || es[i].New(files)) {
        assert MemberOk(files, txns[m.ids[i]], owner, es[i]);
      }
    }
  }

  /** Where all but one edit change nothing, the files are always all old or all new. */
  lemma {:induction false} LoneCreation(files: Files, es: seq<Edit>)
    requires AtomicBatch(es) && !CreatesNoEmptyFile(es) && EachOldOrNew(files, es)
    ensures AllOld(files, es) || AllNew(files, es)
  {
    var j :| 0 <= j < |es| && es[j].CreatesEmptyFile();
    forall i | 0 <= i < |es| && i != j ensures es[i].Old(files) && es[i].New(files) {
      assert !es[i].Effective();
    }
  }

  lemma {:induction false} SettlingKeepsTargets(files: Files, alive: set<Pid>, before: map<TxnId, Txn>,
                                                after: map<TxnId, Txn>,
                                                ids: seq<TxnId>, es: seq<Edit>)
    requires PartlySettled(files, alive, before, after) && MembersTarget(before, ids, es)
    ensures MembersTarget(after, ids, es)
  {
    forall i | 0 <= i < |ids| ensures ids[i] in after && Targets(after[ids[i]], es[i]) {
      assert Targets(before[ids[i]], es[i]);
    }
  }

  /** The journals stay where they are and belong to the same files. */
  ghost predicate SameTargets(txns: map<TxnId, Txn>, txns': map<TxnId, Txn>) {
    forall t :: t in txns && txns[t].state.Some? ==>
      t in txns' && txns'[t].state.Some? && txns'[t] == txns[t].WithPhase(txns'[t].state.value.phase)
  }

  lemma {:induction false} RevertsKeepEach(files: Files, files': Files, txns: map<TxnId, Txn>, ids: seq<TxnId>,
                                           cs: seq<TxnId>, es: seq<Edit>)
    requires Wellformed(es) && EachOldOrNew(files, es) && MembersTarget(txns, ids, es)
    requires forall t :: t in cs ==> t in ids
    ensures DistinctFiles(txns, AsSet(cs))
    ensures OnlyReverts(files, files', txns, AsSet(cs)) ==> EachOldOrNew(files', es)
  {
    forall t, u | t in AsSet(cs) && u in AsSet(cs) && t != u ensures txns[t].file != txns[u].file {
      var i :| 0 <= i < |ids| && ids[i] == t;
      var k :| 0 <= k < |ids| && ids[k] == u;
      assert es[i].path != es[k].path;
    }
    if OnlyReverts(files, files', txns, AsSet(cs)) {
      forall i | 0 <= i < |es| ensures es[i].Old(files') || es[i].New(files') {
        if !SameAt(files, files', es[i].path) {
          var t :| t in AsSet(cs) && t in txns && TakenBackAt(files, files', txns[t], es[i].path);
          var k :| 0 <= k < |ids| && ids[k] == t;
          assert es[k].path == es[i].path && k == i;
        }
      }
    }
  }

  // ---- Undo of a whole batch ----

  /** After a completed batch its members are exactly the transactions carrying its id, they wrote
      different files, and none of them blocks an undo. */
  lemma {:induction false} BatchUndoReady(files0: Files, txns0: map<TxnId, Txn>, files: Files, txns: map<TxnId, Txn>,
                       pid: Pid, b: BatchId, es: seq<Edit>, ids: seq<TxnId>)
    requires Wellformed(es) && |ids| == |es| && Recorded(files0, txns0, files, txns, pid, b, es, ids)
    requires forall t :: t in txns0 && txns0[t].state.Some? ==> txns0[t].state.value.batch != Some(b)
    ensures forall t ::
              t in ids <==>
                  t in txns && txns[t].state.Some? && txns[t].state.value.batch == Some(b) && txns[t].file.Some?
    ensures DistinctFiles(txns, AsSet(ids))
    ensures forall t :: t in ids ==> !UndoVerdictOf(files, txns[t]).Blocks() && txns[t].state.value.newHash.Some?
  {
    forall t, u | t in AsSet(ids) && u in AsSet(ids) && t != u
      ensures txns[t].file != txns[u].file
    {
      var i :| 0 <= i < |ids| && ids[i] == t;
      var k :| 0 <= k < |ids| && ids[k] == u;
      assert es[i].path != es[k].path;
    }
    forall t | t in ids
      ensures !UndoVerdictOf(files, txns[t]).Blocks() && txns[t].state.value.newHash.Some?
    {
      var i :| 0 <= i < |ids| && ids[i] == t;
      assert es[i].New(files);
    }
  }

  lemma {:induction false} BatchRestored(files0: Files, written: Files, files: Files, txns0: map<TxnId, Txn>,
                                         txns: map<TxnId, Txn>,
                      pid: Pid, b: BatchId, es: seq<Edit>, ids: seq<TxnId>)
    requires Wellformed(es) && AllOld(files0, es) && |ids| == |es| &&
              Recorded(files0, txns0, written, txns, pid, b, es, ids)
    requires OnlyUndoes(written, files, txns, AsSet(ids))
    requires forall t :: t in AsSet(ids) ==>
               t in txns && txns[t].state.Some? && txns[t].file.Some? && DoneAsJudged(written, files, txns[t])
    ensures files == files0
  {
    forall p
      ensures SameAt(files0, files, p)
    {
      if i :| 0 <= i < |es| && es[i].path == p {
        assert txns[ids[i]] == es[i].AsTxn(pid, Committed, Some(Sha256(es[i].after)), Some(b));
        assert ids[i] in AsSet(ids);
        assert es[i].New(written) && es[i].Old(files0);
      } else {
        assert SameAt(files0, written, p);
        assert SameAt(written, files, p);
      }
    }
    SameEverywhere(files0, files);
  }
}

/** The undo journal: what one transaction directory holds on disk, and what crash recovery
    decides about it (malong/write-journal.js). */
module Journal {
  import opened Common

  type TxnId = nat
  type BatchId = nat

  datatype Phase =
    | Created | Staged | Committed | CommittedRecovered | RolledBack
    | Abandoned | NeedsReview | Failed | Undone | Indeterminate

  /** state.json */
  datatype TxnState = TxnState(phase: Phase, newHash: Option<Digest>, created: bool, batch: Option<BatchId>)

  /** One journal directory. A field is None until the corresponding file has been written. */
  datatype Txn = Txn(owner: Pid, backup: Option<Content>, file: Option<Path>, state: Option<TxnState>)
  {
    function WithPhase(phase: Phase): Txn
      requires state.Some?
    {
      this.(state := Some(state.value.(phase := phase)))
    }

    /** updateJournalState: a new phase, and a new hash when one is given. */
    function Restate(phase: Phase, newHash: Option<Digest>): Txn
      requires state.Some?
    {
      var s := state.value;
      this.(state := Some(s.(phase := phase, newHash := if newHash.Some? then newHash else s.newHash)))
    }

    predicate Is(phase: Phase) {
      state.Some? && state.value.phase == phase
    }
  }

  type Files = map<Path, Content>

  /** The phases that recovery leaves alone; Undone, Indeterminate and CommittedRecovered are not among them. */
  predicate Settled(phase: Phase) {
    phase in {Committed, RolledBack, Abandoned, NeedsReview, Failed}
  }

  /** The file holds exactly what this transaction recorded as its result. */
  predicate HoldsNew(files: Files, t: Txn) {
    && t.file.Some? && t.file.value in files
    && t.state.Some? && t.state.value.newHash == Some(Sha256(files[t.file.value]))
  }

  /** Target file and backup both exist and are equal. */
  predicate HoldsBackup(files: Files, t: Txn) {
    && t.file.Some? && t.file.value in files
    && t.backup.Some? && files[t.file.value] == t.backup.value
  }

  /** What taking back a transaction does to the files: the backup returns, or the created file goes. */
  function Reverted(files: Files, t: Txn): Files
    requires t.file.Some? && t.state.Some? && t.backup.Some?
  {
    if t.state.value.created then files - {t.file.value} else files[t.file.value := t.backup.value]
  }

  predicate SameAt(files: Files, files': Files, p: Path) {
    (p in files <==> p in files') && (p in files ==> files'[p] == files[p])
  }

  /** Transaction t wrote p, p still held exactly what it wrote, and is now what its backup says. */
  predicate TakenBackAt(files: Files, files': Files, t: Txn, p: Path) {
    && t.file == Some(p) && t.backup.Some? && HoldsNew(files, t)
    && SameAt(Reverted(files, t), files', p)
  }

  /** The files differ only where a transaction of `ts` was taken back. */
  ghost predicate OnlyReverts(files: Files, files': Files, txns: map<TxnId, Txn>, ts: set<TxnId>) {
    forall p :: SameAt(files, files', p) || exists t :: t in ts && t in txns && TakenBackAt(files, files', txns[t], p)
  }

  /** Every transaction of `ids` whose file still held what it wrote has been taken back. */
  ghost predicate TakenBack(files: Files, files': Files, txns: map<TxnId, Txn>, ids: seq<TxnId>) {
    forall t ::
        t in ids && t in txns && HoldsNew(files, txns[t]) ==> TakenBackAt(files, files', txns[t], txns[t].file.value)
  }

  /** No two of these transactions wrote the same file. */
  ghost predicate DistinctFiles(txns: map<TxnId, Txn>, ts: set<TxnId>) {
    forall t, u ::
        t in ts && u in ts && t in txns && u in txns && t != u && txns[t].file.Some? ==> txns[t].file != txns[u].file
  }

  /** One more transaction is taken back, or left alone. */
  lemma {:induction false} TakeBackStep(files0: Files, files: Files, files': Files, txns: map<TxnId, Txn>,
                                        ts: set<TxnId>, t: TxnId)
    requires t in txns && t !in ts && txns[t].file.Some? && txns[t].state.Some?
    requires OnlyReverts(files0, files, txns, ts) && SameAt(files0, files, txns[t].file.value)
    requires files' == files || (txns[t].backup.Some? && HoldsNew(files, txns[t]) && files' == Reverted(files, txns[t]))
    ensures OnlyReverts(files0, files', txns, ts + {t})
  {
    forall p
      ensures SameAt(files0, files', p) ||
                exists u :: u in ts + {t} && u in txns && TakenBackAt(files0, files', txns[u], p)
    {
      if !SameAt(files0, files', p) {
        if txns[t].file == Some(p) {
          assert TakenBackAt(files0, files', txns[t], p);
        } else {
          assert SameAt(files, files', p) && !SameAt(files0, files, p);
          var u :| u in ts && u in txns && TakenBackAt(files0, files, txns[u], p);
          assert TakenBackAt(files0, files', txns[u], p);
        }
      }
    }
  }

  /** The phase recovery gives to a transaction of a dead writer that is not settled. */
  function SettledPhase(files: Files, t: Txn): Phase
    requires t.state.Some?
  {
    var s := t.state.value;
    if t.file.None? then NeedsReview
    else if s.phase in {Staged, Created} && t.backup.Some? && t.file.value in files then
      if HoldsBackup(files, t) then Abandoned
      else if HoldsNew(files, t) then Committed
      else NeedsReview
    else if s.phase == Created || s.created then Abandoned
    else NeedsReview
  }

  /** Recovery's decision for one journal directory; None means the directory is removed. */
  function Settle(files: Files, alive: set<Pid>, t: Txn): Option<Txn> {
    if t.state.None? then
      if t.owner in alive then Some(t)
      else if t.file.Some? && t.backup.Some? && t.file.value in files && !HoldsBackup(files, t) then Some(t)
      else None
    else if Settled(t.state.value.phase) then Some(t)
    else if t.file.Some? && t.owner in alive then Some(t)
    else Some(t.WithPhase(SettledPhase(files, t)))
  }

  /** One pass over the journal root. */
  function SettleAll(files: Files, alive: set<Pid>, txns: map<TxnId, Txn>): map<TxnId, Txn> {
    map t | t in txns && Settle(files, alive, txns[t]).Some? :: Settle(files, alive, txns[t]).value
  }

  // ---- What recovery does, in terms of what is on disk ----

  /** Still the business of a living writer: it has written no state file yet, or its manifest names a file. */
  ghost predicate InUse(alive: set<Pid>, t: Txn) {
    t.owner in alive && (t.state.None? || t.file.Some?)
  }

  /** An outcome was recorded that needs no looking after. */
  ghost predicate HasOutcome(t: Txn) {
    t.Is(Committed) || t.Is(RolledBack) || t.Is(Abandoned) || t.Is(NeedsReview) || t.Is(Failed)
  }

  /** A dead writer left a directory before its state file, and nothing is to be saved: it is not the case that the
      file is there with something else in it than the backup. */
  ghost predicate IsLeftover(files: Files, alive: set<Pid>, t: Txn) {
    && t.state.None? && t.owner !in alive
    && !(t.file.Some? && t.backup.Some? && t.file.value in files && files[t.file.value] != t.backup.value)
  }

  /** The writer died before the rename, as far as the disk tells: the file is as the backup has it; or, with nothing
      to compare, journalling had just begun or the file was to be created. */
  ghost predicate LooksUntouched(files: Files, t: Txn)
    requires t.state.Some?
  {
    && t.file.Some?
    && if CanCompare(files, t) then files[t.file.value] == t.backup.value
       else t.Is(Created) || t.state.value.created
  }

  /** It died behind the rename: the file differs from the backup and has the recorded hash. */
  ghost predicate LooksLanded(files: Files, t: Txn)
    requires t.state.Some?
  {
    && CanCompare(files, t) && files[t.file.value] != t.backup.value
    && t.state.value.newHash == Some(Sha256(files[t.file.value]))
  }

  ghost predicate CanCompare(files: Files, t: Txn) {
    && (t.Is(Created) || t.Is(Staged)) && t.backup.Some?
    && t.file.Some? && t.file.value in files
  }

  /** What becomes of a directory that neither is in use nor has an outcome: it goes if it is a leftover, stays if it
      has no state file, and gets the label that the disk suggests; anything else, foreign content among it, is left
      to a human. */
  ghost predicate Judged(files: Files, alive: set<Pid>, t: Txn, u: Option<Txn>) {
    && (u.None? <==> IsLeftover(files, alive, t))
    && (u.Some? && t.state.None? ==> u.value == t)
    && (u.Some? && t.state.Some? ==>
          && u.value.state.Some? && u.value == t.WithPhase(u.value.state.value.phase)
          && (u.value.Is(Abandoned) <==> LooksUntouched(files, t))
          && (u.value.Is(Committed) <==> LooksLanded(files, t))
          && (u.value.Is(NeedsReview) <==> !LooksUntouched(files, t) && !LooksLanded(files, t)))
  }

  function Entry(txns: map<TxnId, Txn>, t: TxnId): Option<Txn> {
    if t in txns then Some(txns[t]) else None
  }

  /** A recovery pass that may have died half-way: what is in use or has an outcome is as before, everything else too or
      as judged. */
  ghost predicate RecoveredPartly(files: Files, alive: set<Pid>, before: map<TxnId, Txn>, after: map<TxnId, Txn>) {
    && after.Keys <= before.Keys
    && forall t :: t in before ==>
         || Entry(after, t) == Some(before[t])
         || (!InUse(alive, before[t]) && !HasOutcome(before[t]) && Judged(files, alive, before[t], Entry(after, t)))
  }

  /** A whole pass. */
  ghost predicate RecoveredFully(files: Files, alive: set<Pid>, before: map<TxnId, Txn>, after: map<TxnId, Txn>) {
    && after.Keys <= before.Keys
    && forall t :: t in before ==>
         if InUse(alive, before[t]) || HasOutcome(before[t]) then Entry(after, t) == Some(before[t])
         else Judged(files, alive, before[t], Entry(after, t))
  }

  lemma {:induction false} SettleMeaning(files: Files, alive: set<Pid>, t: Txn)
    ensures InUse(alive, t) || HasOutcome(t) ==> Settle(files, alive, t) == Some(t)
    ensures !InUse(alive, t) && !HasOutcome(t) ==> Judged(files, alive, t, Settle(files, alive, t))
  {}

  lemma {:induction false} SettleAllMeaning(files: Files, alive: set<Pid>, txns: map<TxnId, Txn>)
    ensures RecoveredFully(files, alive, txns, SettleAll(files, alive, txns))
  {
    forall t | t in txns
      ensures Entry(SettleAll(files, alive, txns), t) == Settle(files, alive, txns[t])
    {
      SettleMeaning(files, alive, txns[t]);
    }
    forall t | t in txns
      ensures var u := Entry(SettleAll(files, alive, txns), t);
              if InUse(alive, txns[t]) || HasOutcome(txns[t]) then u == Some(txns[t])
                  else Judged(files, alive, txns[t], u)
    {
      SettleMeaning(files, alive, txns[t]);
    }
  }

  /** A second recovery changes nothing, whatever the first one found. */
  lemma {:induction false} SettleIsIdempotent(files: Files, alive: set<Pid>, txns: map<TxnId, Txn>)
    ensures SettleAll(files, alive, SettleAll(files, alive, txns)) == SettleAll(files, alive, txns)
  {
    var once := SettleAll(files, alive, txns);
    forall t | t in once
      ensures Settle(files, alive, once[t]) == Some(once[t])
    {
      var x := txns[t];
      if x.state.Some? && !Settled(x.state.value.phase) && !(x.file.Some? && x.owner in alive) {
        assert Settled(SettledPhase(files, x));
      }
    }
    assert SettleAll(files, alive, once).Keys == once.Keys;
  }

  // ---- Undo ----

  datatype UndoVerdict = TakeBack | Already | NotCommitted | BackupMissing | TargetMissing | ExternalChange
  {
    predicate Blocks() {
      !TakeBack? && !Already?
    }
  }

  /** Whether one committed transaction can be undone; the single and the batch undo decide alike. */
  function UndoVerdictOf(files: Files, t: Txn): UndoVerdict
    requires t.state.Some? && t.file.Some?
  {
    var s := t.state.value;
    if s.phase == Undone then Already
    else if s.phase !in {Committed, CommittedRecovered} then NotCommitted
    else if t.backup.None? then BackupMissing
    else if s.created then
      if t.file.value !in files then Already
      else if s.newHash.Some? && s.newHash.value != Sha256(files[t.file.value]) then ExternalChange
      else TakeBack
    else if t.file.value !in files then TargetMissing
    else if files[t.file.value] == t.backup.value then Already
    else if s.newHash.Some? && s.newHash.value != Sha256(files[t.file.value]) then ExternalChange
    else TakeBack
  }

  predicate IsCommitted(t: Txn) {
    t.state.Some? && t.state.value.phase in {Committed, CommittedRecovered}
  }

  /** A committed transaction knows the hash of what it wrote; what a crash left behind need not. */
  predicate Hashed(t: Txn) {
    IsCommitted(t) ==> t.state.value.newHash.Some?
  }

  /** Undo acts exactly on a committed transaction with a backup whose file still holds what it wrote (and
      is not already the backup); a foreign edit in between is always refused. Only a committed transaction
      without a recorded hash is taken back whatever its file holds. */
  lemma {:induction false} UndoActsOnOwnContentOnly(files: Files, t: Txn)
    requires t.state.Some? && t.file.Some?
    ensures UndoVerdictOf(files, t) == TakeBack <==>
              && IsCommitted(t) && t.backup.Some? && t.file.value in files
              && (t.state.value.newHash.None? || HoldsNew(files, t)) &&
                     (t.state.value.created || !HoldsBackup(files, t))
    ensures IsCommitted(t) && t.backup.Some? && t.file.value in files && t.state.value.newHash.Some? &&
            !HoldsNew(files, t) && (t.state.value.created || !HoldsBackup(files, t)) ==>
              UndoVerdictOf(files, t) == ExternalChange
    ensures !IsCommitted(t) && !t.Is(Undone) ==> UndoVerdictOf(files, t) == NotCommitted
  {}

  /** Every answer of the check before an undo. */
  lemma {:induction false} VerdictMeaning(files: Files, t: Txn)
    requires t.state.Some? && t.file.Some?
    ensures var v, p, created := UndoVerdictOf(files, t), t.file.value, t.state.value.created;
            && (v == NotCommitted <==> !IsCommitted(t) && !t.Is(Undone))
            && (v == BackupMissing <==> IsCommitted(t) && t.backup.None?)
            && (v == TargetMissing <==> IsCommitted(t) && t.backup.Some? && !created && p !in files)
            && (v == Already <==>
                  || t.Is(Undone)
                  || (IsCommitted(t) && t.backup.Some? && created && p !in files)
                  || (IsCommitted(t) && t.backup.Some? && !created && p in files && files[p] == t.backup.value))
            && (v == ExternalChange <==>
                  && IsCommitted(t) && t.backup.Some? && p in files && (created || files[p] != t.backup.value)
                  && t.state.value.newHash.Some? && t.state.value.newHash.value != Sha256(files[p]))
    ensures UndoVerdictOf(files, t).Blocks() <==> UndoVerdictOf(files, t) !in {TakeBack, Already}
    ensures IsCommitted(t) <==> t.Is(Committed) || t.Is(CommittedRecovered)
  {}

  /** So undo overwrites what it did not write exactly where the hash is missing: for every foreign content but the
      backup itself, if the transaction is committed, its backup is there and so is the file. */
  lemma {:induction false} UndoOverwritesIff(files: Files, t: Txn)
    requires t.state.Some? && t.file.Some?
    ensures UndoVerdictOf(files, t) == TakeBack && !HoldsNew(files, t) <==>
              && IsCommitted(t) && t.state.value.newHash.None? && t.backup.Some? && t.file.value in files
              && (t.state.value.created || !HoldsBackup(files, t))
    ensures Hashed(t) && UndoVerdictOf(files, t) == TakeBack ==> HoldsNew(files, t)
  {}

  /** Transaction t was undone: what p held passed the check, and p is now what the backup says. */
  predicate UndoneAt(files: Files, files': Files, t: Txn, p: Path) {
    && t.file == Some(p) && t.backup.Some? && IsCommitted(t) && p in files
    && (t.state.value.newHash.None? || HoldsNew(files, t))
    && SameAt(Reverted(files, t), files', p)
  }

  /** An undo did to the file of transaction t what the check before it said. */
  ghost predicate DoneAsJudged(files: Files, files': Files, t: Txn)
    requires t.state.Some? && t.file.Some?
  {
    if UndoVerdictOf(files, t) == TakeBack then UndoneAt(files, files', t, t.file.value)
    else SameAt(files, files', t.file.value)
  }

  /** The files differ only where a transaction of `ts` was undone. */
  ghost predicate OnlyUndoes(files: Files, files': Files, txns: map<TxnId, Txn>, ts: set<TxnId>) {
    forall p :: SameAt(files, files', p) || exists t :: t in ts && t in txns && UndoneAt(files, files', txns[t], p)
  }

  ghost predicate AllHashed(txns: map<TxnId, Txn>, ts: set<TxnId>) {
    forall t :: t in ts && t in txns ==> Hashed(txns[t])
  }

  /** With all hashes recorded an undo changes nothing but what its own transactions wrote. */
  lemma {:induction false} UndoesAreReverts(files: Files, files': Files, txns: map<TxnId, Txn>, ts: set<TxnId>)
    requires OnlyUndoes(files, files', txns, ts) && AllHashed(txns, ts)
    ensures OnlyReverts(files, files', txns, ts)
  {
    forall p | !SameAt(files, files', p)
      ensures exists t :: t in ts && t in txns && TakenBackAt(files, files', txns[t], p)
    {
      var t :| t in ts && t in txns && UndoneAt(files, files', txns[t], p);
      assert Hashed(txns[t]) && TakenBackAt(files, files', txns[t], p);
    }
  }

  /** One more transaction is undone, or left alone. */
  lemma {:induction false} UndoStep(files0: Files, files: Files, files': Files, txns: map<TxnId, Txn>, ts: set<TxnId>,
                                    t: TxnId)
    requires t in txns && t !in ts && txns[t].file.Some? && txns[t].state.Some?
    requires OnlyUndoes(files0, files, txns, ts) && SameAt(files0, files, txns[t].file.value)
    requires files' == files || (UndoVerdictOf(files, txns[t]) == TakeBack && files' == Reverted(files, txns[t]))
    ensures OnlyUndoes(files0, files', txns, ts + {t})
  {
    UndoActsOnOwnContentOnly(files, txns[t]);
    forall p
      ensures SameAt(files0, files', p) ||
                exists u :: u in ts + {t} && u in txns && UndoneAt(files0, files', txns[u], p)
    {
      if !SameAt(files0, files', p) {
        if txns[t].file == Some(p) {
          assert UndoneAt(files0, files', txns[t], p);
        } else {
          assert SameAt(files, files', p) && !SameAt(files0, files, p);
          var u :| u in ts && u in txns && UndoneAt(files0, files, txns[u], p);
          assert UndoneAt(files0, files', txns[u], p);
        }
      }
    }
  }

  /** One step of the restore loop of a batch undo. */
  lemma {:induction false} UndoLoopStep(files0: Files, files: Files, files': Files, txns: map<TxnId, Txn>,
                                        ms: seq<TxnId>, k: nat)
    requires k < |ms| && DistinctFiles(txns, AsSet(ms))
    requires forall i, j :: 0 <= i < j < |ms| ==> ms[i] != ms[j]
    requires forall t :: t in ms ==> t in txns && txns[t].state.Some? && txns[t].file.Some?
    requires OnlyUndoes(files0, files, txns, AsSet(ms[k+1..]))
    requires SameAt(files0, files, txns[ms[k]].file.value)
    requires files' == files ||
              (UndoVerdictOf(files, txns[ms[k]]) == TakeBack && files' == Reverted(files, txns[ms[k]]))
    ensures OnlyUndoes(files0, files', txns, AsSet(ms[k..]))
    ensures UndoVerdictOf(files0, txns[ms[k]]) == UndoVerdictOf(files, txns[ms[k]])
    ensures forall i :: 0 <= i < |ms| && i != k ==> SameAt(files, files', txns[ms[i]].file.value)
  {
    UndoActsOnOwnContentOnly(files, txns[ms[k]]);
    UndoStep(files0, files, files', txns, AsSet(ms[k+1..]), ms[k]);
    assert AsSet(ms[k..]) == AsSet(ms[k+1..]) + {ms[k]};
    forall i | 0 <= i < |ms| && i != k
      ensures SameAt(files, files', txns[ms[i]].file.value)
    {
      assert ms[i] != ms[k] && ms[i] in AsSet(ms) && ms[k] in AsSet(ms);
    }
  }

  /** Undoing a committed edit that still stands restores the files as they were before it, and a second
      undo of it does nothing more. */
  lemma {:induction false} UndoInvertsEdit(before: Files, t: Txn, e: Edit)
    requires e.WellFormed() && e.Old(before)
    requires t == e.AsTxn(t.owner, Committed, Some(Sha256(e.after)), None)
    ensures var files := before[e.path := e.after];
            && !UndoVerdictOf(files, t).Blocks()
            && (UndoVerdictOf(files, t) == TakeBack ==> Reverted(files, t) == before)
            && (UndoVerdictOf(files, t) == Already ==> files == before)
  {
    var files := before[e.path := e.after];
    if e.create {
      assert Reverted(files, t) == before;
    } else {
      assert files[e.path := e.before] == before;
    }
  }

  /** One step of the roll-back loop of batch recovery. */
  lemma {:induction false} RollBackLoopStep(files0: Files, files: Files, files': Files, txns: map<TxnId, Txn>,
                                            ids: seq<TxnId>, k: nat)
    requires k < |ids| && DistinctFiles(txns, AsSet(ids))
    requires forall i, j :: 0 <= i < j < |ids| ==> ids[i] != ids[j]
    requires forall t :: t in ids ==> t in txns && txns[t].state.Some? && txns[t].file.Some? && txns[t].backup.Some?
    requires OnlyReverts(files0, files, txns, AsSet(ids[..k]))
    requires SameAt(files0, files, txns[ids[k]].file.value)
    requires files' == files || (HoldsNew(files, txns[ids[k]]) && files' == Reverted(files, txns[ids[k]]))
    ensures OnlyReverts(files0, files', txns, AsSet(ids[..k+1]))
    ensures forall i ::
              k < i < |ids| && SameAt(files0, files, txns[ids[i]].file.value) ==>
                  SameAt(files0, files', txns[ids[i]].file.value)
    ensures TakenBack(files0, files, txns, ids[..k]) &&
              (HoldsNew(files, txns[ids[k]]) ==> files' == Reverted(files, txns[ids[k]])) ==>
              TakenBack(files0, files', txns, ids[..k+1])
  {
    TakeBackStep(files0, files, files', txns, AsSet(ids[..k]), ids[k]);
    assert AsSet(ids[..k+1]) == AsSet(ids[..k]) + {ids[k]};
    forall i | 0 <= i < |ids| && i != k
      ensures SameAt(files, files', txns[ids[i]].file.value)
    {
      assert ids[i] != ids[k] && ids[i] in AsSet(ids) && ids[k] in AsSet(ids);
    }
    assert ids[..k+1] == ids[..k] + [ids[k]];
  }

  lemma {:induction false} DistinctBound(ms: seq<TxnId>, s: set<TxnId>)
    requires forall i, j :: 0 <= i < j < |ms| ==> ms[i] != ms[j]
    requires forall t :: t in ms ==> t in s
    ensures |ms| <= |s|
  {
    if ms != [] {
      assert ms[0] !in ms[1..];
      DistinctBound(ms[1..], s - {ms[0]});
    }
  }

  lemma {:induction false} SameEverywhere(files: Files, files': Files)
    requires forall p :: SameAt(files, files', p)
    ensures files == files'
  {
    forall p
      ensures p in files <==> p in files'
      ensures p in files ==> files[p] == files'[p]
    {
      assert SameAt(files, files', p);
    }
  }

  /** When the one transaction that wrote is taken back, nothing of the write is left. */
  lemma {:induction false} SoleRevert(files0: Files, written: Files, files: Files, t: Txn, path: Path)
    requires t.file == Some(path) && t.state.Some? && t.backup.Some?
    requires forall p :: p != path ==> SameAt(files0, written, p)
    requires forall p :: p != path ==> SameAt(written, files, p)
    requires UndoVerdictOf(written, t) == TakeBack ==>
              UndoneAt(written, files, t, path) && Reverted(written, t) == files0
    requires UndoVerdictOf(written, t) == Already ==> SameAt(written, files, path) && written == files0
    requires !UndoVerdictOf(written, t).Blocks()
    ensures files == files0
  {
    forall p
      ensures SameAt(files0, files, p)
    {
      assert p != path ==> SameAt(files0, written, p) && SameAt(written, files, p);
    }
    SameEverywhere(files0, files);
  }

  function AsSet(ids: seq<TxnId>): set<TxnId> {
    set t | t in ids
  }

  // ---- A single write that dies between its journal and its commit record ----

  /** One file to be written: `before` is the content it replaces (empty for a file to be created). */
  datatype Edit = Edit(path: Path, create: bool, before: Content, after: Content)
  {
    predicate Old(files: Files) {
      if create then path !in files else path in files && files[path] == before
    }

    predicate New(files: Files) {
      path in files && files[path] == after
    }

    predicate WellFormed() {
      create ==> before == ""
    }

    /** Whether the edit changes anything. */
    predicate Effective() {
      create || before != after
    }

    /** The one input on which recovery cannot tell the new file from the old one. */
    predicate CreatesEmptyFile() {
      create && after == ""
    }

    function AsTxn(owner: Pid, phase: Phase, newHash: Option<Digest>, batch: Option<BatchId>): Txn {
      Txn(owner, Some(before), Some(path), Some(TxnState(phase, newHash, create, batch)))
    }
  }

  /** What a writer that died in the middle of an otherwise undisturbed write leaves on disk. */
  predicate DiedWriting(files: Files, t: Txn, e: Edit) {
    && e.WellFormed()
    && t.file == Some(e.path) && t.backup == Some(e.before)
    && t.state.Some? && t.state.value.created == e.create
    && t.state.value.phase in {Created, Staged}
    && (t.state.value.newHash == None || t.state.value.newHash == Some(Sha256(e.after)))
    && (e.Old(files) || (e.New(files) && t.state.value.newHash.Some?))
  }

  /** Recovery reads the outcome of a crashed write off the disk: it records Committed exactly when the
      new content landed and Abandoned exactly when it did not, and needs no human review. The two
      exceptions are an edit that changes nothing (recorded as Abandoned) and the creation of an empty
      file, which is recorded as Abandoned although the file is there. */
  lemma {:induction false} CrashedWriteIsClassified(files: Files, alive: set<Pid>, t: Txn, e: Edit)
    requires DiedWriting(files, t, e) && t.owner !in alive
    ensures Settle(files, alive, t).Some?
    ensures var u := Settle(files, alive, t).value;
            && (u.Is(Committed) <==> e.New(files) && e.after != e.before)
            && (u.Is(Abandoned) <==> !u.Is(Committed))
            && (u.Is(Abandoned) && !e.Old(files) <==> e.CreatesEmptyFile() && e.New(files))
            && (u.Is(Committed) ==> e.New(files) && !e.Old(files))
            && u == t.WithPhase(u.state.value.phase)
  {
    if e.create && e.Old(files) {
      assert SettledPhase(files, t) == Abandoned;
    } else {
      assert e.path in files;
    }
  }

  /** An undone transaction is not in the settled list, so the next recovery after its writer has died
      re-labels it, and the label it gets is no longer accepted as undone. */
  lemma {:induction false} RecoveryForgetsUndone(files: Files, alive: set<Pid>, t: Txn)
    requires t.Is(Undone) && t.file.Some?
    ensures Settle(files, alive, t) ==
            Some(if t.owner in alive then t
                 else t.WithPhase(if t.state.value.created then Abandoned else NeedsReview))
  {}
}

/** The write runtime over one workspace. Every durable file-system step goes through a primitive that
    spends one unit of `fuel` and does nothing once the fuel is gone: the process dies after an arbitrary
    number of durable steps, so what a method ensures holds at every crash point. */
module WriteRuntime {
  import opened Common
  import opened Journal
  import opened Batch

  /** Where the file at which a batch fails, fails. */
  datatype FailPoint = BeforeJournal | InJournal(steps: nat) | AtRename
  {
    /** A journal is four steps. */
    predicate Throws() {
      this == BeforeJournal || this == AtRename || (this.InJournal? && this.steps < 4)
    }
  }

  /** An error is thrown at one of the first n members. */
  predicate ThrowsBefore(fail: Option<(nat, FailPoint)>, n: nat) {
    fail.Some? && fail.value.0 < n && fail.value.1.Throws()
  }

  datatype BatchResult = Busy | Written(ids: seq<TxnId>) | Aborted

  datatype WriteResult = Saved | WriteFailed | FileExists | FileNotFound

  datatype UndoResult =
    | UndoDone(restored: nat)
    | BatchUndoDone(restored: nat, untouched: nat)
    | UndoRefused(why: UndoVerdict)
    | BatchBlocked(members: seq<TxnId>)
    | FileLocked
    | JournalNotFound

  class Workspace {
    var files: Files
    var txns: map<TxnId, Txn>
    var marker: Option<Marker>
    var batchLock: Option<Pid>
    var nextTxn: TxnId
    var fuel: nat

    ghost predicate Valid()
      reads this
    {
      forall t :: t in txns ==> t < nextTxn
    }

    // ---- Durable steps ----

    method WriteFile(p: Path, c: Content)
      modifies this`files, this`fuel
      ensures fuel == if old(fuel) == 0 then 0 else old(fuel) - 1
      ensures files == if old(fuel) == 0 then old(files) else old(files)[p := c]
    {
      if fuel > 0 {
        files, fuel := files[p := c], fuel - 1;
      }
    }

    method Unlink(p: Path)
      modifies this`files, this`fuel
      ensures fuel == if old(fuel) == 0 then 0 else old(fuel) - 1
      ensures files == if old(fuel) == 0 then old(files) else old(files) - {p}
    {
      if fuel > 0 {
        files, fuel := files - {p}, fuel - 1;
      }
    }

    method PutTxn(t: TxnId, x: Txn)
      modifies this`txns, this`fuel
      ensures fuel == if old(fuel) == 0 then 0 else old(fuel) - 1
      ensures txns == if old(fuel) == 0 then old(txns) else old(txns)[t := x]
    {
      if fuel > 0 {
        txns, fuel := txns[t := x], fuel - 1;
      }
    }

    method DropTxn(t: TxnId)
      modifies this`txns, this`fuel
      ensures fuel == if old(fuel) == 0 then 0 else old(fuel) - 1
      ensures txns == if old(fuel) == 0 then old(txns) else old(txns) - {t}
    {
      if fuel > 0 {
        txns, fuel := txns - {t}, fuel - 1;
      }
    }

    method PutMarker(m: Option<Marker>)
      modifies this`marker, this`fuel
      ensures fuel == if old(fuel) == 0 then 0 else old(fuel) - 1
      ensures marker == if old(fuel) == 0 then old(marker) else m
    {
      if fuel > 0 {
        marker, fuel := m, fuel - 1;
      }
    }

    method PutBatchLock(l: Option<Pid>)
      modifies this`batchLock, this`fuel
      ensures fuel == if old(fuel) == 0 then 0 else old(fuel) - 1
      ensures batchLock == if old(fuel) == 0 then old(batchLock) else l
    {
      if fuel > 0 {
        batchLock, fuel := l, fuel - 1;
      }
    }

    /** updateJournalState: rewrites the phase (and, when given, the new hash) if a state file is there. */
    method UpdateState(t: TxnId, phase: Phase, newHash: Option<Digest>)
      requires Valid()
      modifies this`txns, this`fuel
      ensures Valid()
      ensures !(t in old(txns) && old(txns)[t].state.Some?) ==> txns == old(txns) && fuel == old(fuel)
      ensures t in old(txns) && old(txns)[t].state.Some? ==>
                && fuel == (if old(fuel) == 0 then 0 else old(fuel) - 1)
                && txns == if old(fuel) == 0 then old(txns) else old(txns)[t := old(txns)[t].Restate(phase, newHash)]
    {
      if t in txns && txns[t].state.Some? {
        PutTxn(t, txns[t].Restate(phase, newHash));
      }
    }

    /** createJournal: directory (its name carries the writer's pid), backup, manifest, state. It may throw
        after some of these steps; the directory it leaves then has no state file. */
    method CreateJournal(pid: Pid, path: Path, backup: Content, s: TxnState, throwAfter: nat)
        returns (t: TxnId, ok: bool)
      requires Valid()
      modifies this`txns, this`nextTxn, this`fuel
      ensures Valid() && t == old(nextTxn) && t !in old(txns) && nextTxn == t + 1
      ensures ok <==> throwAfter >= 4
      ensures fuel <= old(fuel) && (ok ==> fuel == if old(fuel) < 4 then 0 else old(fuel) - 4)
      ensures txns == if t in txns then old(txns)[t := txns[t]] else old(txns)
      ensures old(fuel) == 0 ==> t !in txns
      ensures t in txns ==> txns[t].owner == pid
      ensures t in txns && txns[t].state.Some? <==> ok && old(fuel) >= 4
      ensures t in txns && txns[t].state.Some? ==> txns[t] == Txn(pid, Some(backup), Some(path), Some(s))
    {
      t := nextTxn;
      nextTxn := nextTxn + 1;
      var x := Txn(pid, None, None, None);
      ok := false;
      if throwAfter == 0 { return; }
      PutTxn(t, x);
      if throwAfter == 1 { return; }
      x := x.(backup := Some(backup));
      PutTxn(t, x);
      if throwAfter == 2 { return; }
      x := x.(file := Some(path));
      PutTxn(t, x);
      if throwAfter == 3 { return; }
      x := x.(state := Some(s));
      PutTxn(t, x);
      ok := true;
    }

    // ---- writeSymbols, all_or_nothing ----

    /** Rewrites the state of member k of the batch, t, to a phase its file agrees with. */
    method MoveMember(pid: Pid, es: seq<Edit>, k: nat, t: TxnId, phase: Phase, newHash: Option<Digest>)
      requires Valid() && Wellformed(es) && k < |es|
      requires Recoverable(files, txns, marker, pid, es)
      requires newHash == None || newHash == Some(Sha256(es[k].after))
      requires fuel > 0 ==> marker.Some? && k < |marker.value.ids| && marker.value.ids[k] == t
      requires fuel > 0 ==> match phase
                            case Committed => InFlight(txns[t]) && txns[t].state.value.newHash.Some? && es[k].New(files)
                            case Staged => txns[t].Is(Staged)
                            case RolledBack => es[k].Old(files)
                            case NeedsReview => es[k].Old(files)
                            case Failed => es[k].Old(files)
                            case _ => false
      modifies this`txns, this`fuel
      ensures Valid() && Recoverable(files, txns, marker, pid, es)
      ensures fuel == if old(fuel) == 0 then 0 else old(fuel) - 1
      ensures old(fuel) == 0 ==> txns == old(txns)
      ensures old(fuel) > 0 ==> t in old(txns) && old(txns)[t].state.Some?
      ensures old(fuel) > 0 ==> txns == old(txns)[t := old(txns)[t].Restate(phase, newHash)]
    {
      if fuel > 0 {
        MemberStep(files, txns, files, txns[t].Restate(phase, newHash), marker.value, k, pid, es);
      }
      UpdateState(t, phase, newHash);
    }

    /** First half of a batch member: its journal, its entry in the marker, its new hash. */
    method JournalMember(pid: Pid, b: BatchId, es: seq<Edit>, ids: seq<TxnId>, throwAfter: nat)
        returns (t: TxnId, ok: bool)
      requires Valid() && Wellformed(es) && |ids| < |es|
      requires Recoverable(files, txns, marker, pid, es)
      requires fuel > 0 ==> WrittenSoFar(files, txns, marker, es, ids)
      modifies this`txns, this`marker, this`nextTxn, this`fuel
      ensures Valid() && Recoverable(files, txns, marker, pid, es)
      ensures ok <==> throwAfter >= 4
      ensures fuel <= old(fuel) && (ok ==> fuel == if old(fuel) < 6 then 0 else old(fuel) - 6)
      ensures old(fuel) == 0 ==> Untouched(old(files), old(txns), old(marker))
      ensures fuel > 0 && !ok ==> WrittenSoFar(files, txns, marker, es, ids)
      ensures fuel > 0 && ok ==>
                && marker == Some(Marker(Paths(es), ids + [t], true))
                && t !in old(txns) &&
                       txns == old(txns)[t := es[|ids|].AsTxn(pid, Staged, Some(Sha256(es[|ids|].after)), Some(b))]
                && forall i :: 0 <= i < |ids| ==> ids[i] in txns && txns[ids[i]].Is(Committed)
    {
      var e := es[|ids|];
      t, ok := CreateJournal(pid, e.path, e.before, TxnState(Staged, None, e.create, Some(b)), throwAfter);
      StrangerKeepsRecoverable(files, old(txns), txns, marker, pid, es);
      if !ok { return; }
      if fuel > 0 {
        EnlistKeepsRecoverable(files, txns, marker.value, t, pid, es);
      }
      PutMarker(Some(Marker(Paths(es), ids + [t], true)));
      MoveMember(pid, es, |ids|, t, Staged, Some(Sha256(e.after)));
    }

    ghost predicate Untouched(files0: Files, txns0: map<TxnId, Txn>, marker0: Option<Marker>)
      reads this
    {
      files == files0 && txns == txns0 && marker == marker0
    }

    /** Second half: rename, commit record, read-back. */
    method LandMember(pid: Pid, b: BatchId, es: seq<Edit>, ids: seq<TxnId>, t: TxnId) returns (ok: bool)
      requires Valid() && Wellformed(es) && |ids| < |es|
      requires Recoverable(files, txns, marker, pid, es)
      requires fuel > 0 ==> Pending(files, txns, marker, pid, b, es, ids, t)
      modifies this`files, this`txns, this`fuel
      ensures Valid() && Recoverable(files, txns, marker, pid, es)
      ensures fuel == if old(fuel) < 2 then 0 else old(fuel) - 2
      ensures fuel > 0 ==> ok && WrittenSoFar(files, txns, marker, es, ids + [t])
      ensures fuel > 0 ==>
                txns == old(txns)[t := es[|ids|].AsTxn(pid, Committed, Some(Sha256(es[|ids|].after)), Some(b))]
      ensures old(fuel) == 0 ==> Untouched(old(files), old(txns), old(marker))
      ensures old(fuel) == 1 ==> ok && Renamed(files, txns, marker, pid, b, es, ids, t)
      ensures files == if old(fuel) == 0 then old(files) else old(files)[es[|ids|].path := es[|ids|].after]
    {
      var e := es[|ids|];
      if fuel > 0 {
        MemberStep(files, txns, files[e.path := e.after], txns[t], marker.value, |ids|, pid, es);
        assert txns[t := txns[t]] == txns;
      }
      WriteFile(e.path, e.after);
      MoveMember(pid, es, |ids|, t, Committed, None);
      ok := e.path in files && files[e.path] == e.after;
      if !ok {
        UpdateState(t, Indeterminate, None);
      }
    }

    /** The rename throws: the journal says so, and the batch goes back. */
    method FailMember(pid: Pid, b: BatchId, es: seq<Edit>, ids: seq<TxnId>, t: TxnId)
      requires Valid() && Wellformed(es) && |ids| < |es|
      requires Recoverable(files, txns, marker, pid, es)
      requires fuel > 0 ==> Pending(files, txns, marker, pid, b, es, ids, t)
      requires fuel > 0 ==> forall i :: |ids| <= i < |es| ==> es[i].Old(files)
      modifies this`txns, this`fuel
      ensures Valid() && Recoverable(files, txns, marker, pid, es)
      ensures fuel <= old(fuel)
      ensures fuel > 0 ==> RollingBack(files, txns, marker, es, ids, 0)
      ensures old(fuel) == 0 ==> Untouched(old(files), old(txns), old(marker))
    {
      MoveMember(pid, es, |ids|, t, Phase.Failed, None);
    }

    /** One file of the batch. */
    method WriteMember(pid: Pid, b: BatchId, es: seq<Edit>, ids: seq<TxnId>, fail: Option<FailPoint>)
      returns (t: TxnId, ok: bool)
      requires Valid() && Wellformed(es) && |ids| < |es|
      requires Recoverable(files, txns, marker, pid, es)
      requires fuel > 0 ==> WrittenSoFar(files, txns, marker, es, ids)
      modifies this`files, this`txns, this`marker, this`nextTxn, this`fuel
      ensures Valid() && Recoverable(files, txns, marker, pid, es)
      ensures fuel <= old(fuel)
      ensures fail.Some? && fail.value.Throws() ==> !ok
      ensures fuel > 0 && ok ==> WrittenSoFar(files, txns, marker, es, ids + [t])
      ensures fuel > 0 && ok ==> files == old(files)[es[|ids|].path := es[|ids|].after]
      ensures fuel > 0 && ok ==>
                t !in old(txns) &&
                    txns == old(txns)[t := es[|ids|].AsTxn(pid, Committed, Some(Sha256(es[|ids|].after)), Some(b))]
      ensures fuel > 0 && !ok ==> RollingBack(files, txns, marker, es, ids, 0) && files == old(files)
      ensures files == old(files) || files == old(files)[es[|ids|].path := es[|ids|].after]
      ensures old(fuel) == 0 ==> Untouched(old(files), old(txns), old(marker))
      ensures fail.None? && old(fuel) == 7 ==> ok && Renamed(files, txns, marker, pid, b, es, ids, t)
      ensures fail.None? && old(fuel) > 8 ==> ok
      ensures fail.None? ==> fuel == if old(fuel) < 8 then 0 else old(fuel) - 8
    {
      ok := false;
      t := nextTxn;
      if fail == Some(BeforeJournal) { return; }
      var throwAfter := if fail.Some? && fail.value.InJournal? then fail.value.steps else 4;
      t, ok := JournalMember(pid, b, es, ids, throwAfter);
      if !ok { return; }
      if fail == Some(AtRename) {
        FailMember(pid, b, es, ids, t);
        ok := false;
      } else {
        ok := LandMember(pid, b, es, ids, t);
      }
    }

    /** Compensation for one written file, under its lock: the content is taken back if the file still holds
        exactly what was written; otherwise nothing happens. */
    method CompensateFile(t: TxnId, path: Path, created: bool, newHash: Digest)
      requires Valid()
      modifies this`files, this`txns, this`fuel
      ensures Valid() && fuel <= old(fuel)
      ensures var held := t in old(txns) && old(txns)[t].backup.Some? && path in old(files) &&
                Sha256(old(files)[path]) == newHash;
              && files == (if !held || old(fuel) == 0 then old(files)
                           else if created then old(files) - {path} else old(files)[path := old(txns)[t].backup.value])
              && txns == if held && old(txns)[t].state.Some? && old(fuel) >= 2 then
                     old(txns)[t := old(txns)[t].WithPhase(RolledBack)] else old(txns)
    {
      if t in txns && txns[t].backup.Some? && path in files && Sha256(files[path]) == newHash {
        if created {
          Unlink(path);
        } else {
          WriteFile(path, txns[t].backup.value);
        }
        UpdateState(t, RolledBack, None);
      }
    }

    /** CompensateFile, seen from the batch. */
    method RollBackWritten(pid: Pid, es: seq<Edit>, ids: seq<TxnId>, k: nat)
      requires Valid() && Wellformed(es) && k < |ids| <= |es|
      requires Recoverable(files, txns, marker, pid, es)
      requires fuel > 0 ==> RollingBack(files, txns, marker, es, ids, k)
      modifies this`files, this`txns, this`fuel
      ensures Valid() && Recoverable(files, txns, marker, pid, es)
      ensures fuel <= old(fuel)
      ensures old(fuel) == 0 ==> Untouched(old(files), old(txns), old(marker))
      ensures fuel > 0 ==> RollingBack(files, txns, marker, es, ids, k + 1)
    {
      var e, t := es[k], ids[k];
      if fuel > 0 {
        assert MemberOk(files, txns[t], pid, e);
        RecoveryStep(files, txns, marker.value, k, pid, es);
        assert forall i :: 0 <= i < |es| && i != k ==> es[i].path != es[k].path;
      }
      CompensateFile(t, e.path, e.create, Sha256(e.after));
    }

    /** The group loop: one file after the other, until one fails. */
    method WriteMembers(pid: Pid, b: BatchId, es: seq<Edit>, fail: Option<(nat, FailPoint)>, ghost j: nat)
      returns (ids: seq<TxnId>, ok: bool)
      requires Valid() && Wellformed(es) && Recoverable(files, txns, marker, pid, es)
      requires fuel > 0 ==> WrittenSoFar(files, txns, marker, es, [])
      modifies this`files, this`txns, this`marker, this`nextTxn, this`fuel
      ensures Valid() && Recoverable(files, txns, marker, pid, es) && |ids| <= |es| && (ok ==> |ids| == |es|)
      ensures fuel > 0 && ok ==> WrittenSoFar(files, txns, marker, es, ids)
      ensures fuel > 0 && !ok ==> RollingBack(files, txns, marker, es, ids, 0)
      ensures fuel > 0 && ok ==> Recorded(old(files), old(txns), files, txns, pid, b, es, ids)
      ensures ThrowsBefore(fail, |es|) ==> !ok
      ensures fail.None? && old(fuel) > 8 * |es| ==> ok && fuel == old(fuel) - 8 * |es|
      ensures fail.None? && j < |es| && old(fuel) == 8 * j + 7 ==>
                fuel == 0 && DiedAt(files, txns, marker, pid, b, es, j)
    {
      ids, ok := [], true;
      while ok && |ids| < |es|
        invariant |ids| <= |es|
        invariant Valid() && Recoverable(files, txns, marker, pid, es)
        invariant fuel > 0 && ok ==> WrittenSoFar(files, txns, marker, es, ids)
        invariant fuel > 0 && !ok ==> RollingBack(files, txns, marker, es, ids, 0)
        invariant fuel > 0 && ok ==> Recorded(old(files), old(txns), files, txns, pid, b, es, ids)
        invariant ThrowsBefore(fail, |ids|) ==> !ok
        invariant fail.None? && old(fuel) > 8 * |es| ==> ok && fuel == old(fuel) - 8 * |ids|
        invariant fail.None? && j < |es| && old(fuel) == 8 * j + 7 ==>
                    if |ids| <= j then ok && fuel == old(fuel) - 8 * |ids|
                        else fuel == 0 && DiedAt(files, txns, marker, pid, b, es, j)
        decreases |es| - |ids|, ok
      {
        var t;
        ghost var f0, ids0, files0, txns0 := fuel, ids, files, txns;
        t, ok := WriteMember(pid, b, es, ids, if fail.Some? && fail.value.0 == |ids| then Some(fail.value.1) else None);
        if fuel > 0 && ok { RecordStep(old(files), old(txns), files0, txns0, files, txns, pid, b, es, ids0, t); }
        assert f0 == 7 && fail.None? ==> Renamed(files, txns, marker, pid, b, es, ids0, t);
        if ok { ids := ids + [t]; }
      }
    }

    /** The compensation loop. */
    method RollBackWrittenFiles(pid: Pid, es: seq<Edit>, ids: seq<TxnId>)
      requires Valid() && Wellformed(es) && |ids| <= |es|
      requires Recoverable(files, txns, marker, pid, es)
      requires fuel > 0 ==> RollingBack(files, txns, marker, es, ids, 0)
      modifies this`files, this`txns, this`fuel
      ensures Valid() && Recoverable(files, txns, marker, pid, es) && fuel <= old(fuel)
      ensures old(fuel) == 0 ==> Untouched(old(files), old(txns), old(marker))
      ensures fuel > 0 ==> AllOld(files, es)
    {
      for k := 0 to |ids|
        invariant Valid() && Recoverable(files, txns, marker, pid, es) && fuel <= old(fuel)
        invariant old(fuel) == 0 ==> Untouched(old(files), old(txns), old(marker))
        invariant fuel > 0 ==> RollingBack(files, txns, marker, es, ids, k)
      {
        RollBackWritten(pid, es, ids, k);
      }
    }

    /** writeSymbols in all_or_nothing mode, with distinct files that nobody else touches and file locks
        that are free. `fail` says which file fails, if any, and where; `j` is any member of the batch. */
    method WriteSymbols(pid: Pid, alive: set<Pid>, b: BatchId, es: seq<Edit>, fail: Option<(nat, FailPoint)>,
                        ghost j: nat)
      returns (r: BatchResult)
      requires Valid() && Wellformed(es) && marker.None? && AllOld(files, es)
      modifies this
      ensures Valid() && Recoverable(files, txns, marker, pid, es)
      ensures r.Busy? <==> old(batchLock).Some? && old(batchLock).value in alive
      ensures r.Busy? ==> Untouched(old(files), old(txns), None)
      ensures batchLock == old(batchLock) || batchLock == None || batchLock == Some(pid)
      ensures fuel > 0 ==> marker.None?
      ensures fuel > 0 && r.Written? ==>
                AllNew(files, es) && |r.ids| == |es| && Recorded(old(files), old(txns), files, txns, pid, b, es, r.ids)
      ensures fail.None? && !r.Busy? && old(fuel) > 8 * |es| + 4 ==> r.Written? && fuel > 0
      ensures fuel > 0 && r.Aborted? ==> AllOld(files, es)
      ensures !r.Busy? && ThrowsBefore(fail, |es|) ==> r.Aborted?
      ensures fail.None? && !r.Busy? && j < |es| && old(fuel) == 8 * j + 9 ==>
                DiedAt(files, txns, marker, pid, b, es, j)
    {
      if batchLock.Some? && batchLock.value in alive { return Busy; }
      PutBatchLock(Some(pid));
      PutMarker(Some(Marker(Paths(es), [], true)));
      var ids, ok := WriteMembers(pid, b, es, fail, j);
      if !ok {
        RollBackWrittenFiles(pid, es, ids);
      }
      PutMarker(None);
      PutBatchLock(None);
      r := if ok then Written(ids) else Aborted;
    }

    // ---- Crash recovery ----

    /** recoverJournals: every directory of the journal root is settled; no target file is touched. */
    method RecoverJournals(alive: set<Pid>)
      requires Valid()
      modifies this`txns, this`fuel
      ensures Valid() && fuel <= old(fuel) <= fuel + |old(txns)|
      ensures PartlySettled(files, alive, old(txns), txns)
      ensures old(fuel) == 0 ==> txns == old(txns)
      ensures fuel > 0 ==> txns == SettleAll(files, alive, old(txns))
      ensures RecoveredPartly(files, alive, old(txns), txns)
      ensures fuel > 0 ==> RecoveredFully(files, alive, old(txns), txns)
    {
      SettleJournals(alive);
      PartlySettledMeaning(files, alive, old(txns), txns);
      SettleAllMeaning(files, alive, old(txns));
    }

    /** One journal directory. */
    method SettleOne(alive: set<Pid>, t: TxnId)
      requires Valid() && t in txns
      modifies this`txns, this`fuel
      ensures Valid() && fuel <= old(fuel) <= fuel + 1
      ensures txns == old(txns) || txns == SettledAt(files, alive, old(txns), t)
      ensures fuel > 0 ==> txns == SettledAt(files, alive, old(txns), t)
      ensures old(fuel) == 0 ==> txns == old(txns)
    {
      match Settle(files, alive, txns[t])
      case None => DropTxn(t);
      case Some(x) => if x != txns[t] { PutTxn(t, x); }
    }

    /** Its loop over the directories. */
    method SettleJournals(alive: set<Pid>)
      requires Valid()
      modifies this`txns, this`fuel
      ensures Valid() && fuel <= old(fuel) <= fuel + |old(txns)|
      ensures PartlySettled(files, alive, old(txns), txns)
      ensures old(fuel) == 0 ==> txns == old(txns)
      ensures fuel > 0 ==> txns == SettleAll(files, alive, old(txns))
    {
      var todo := txns.Keys;
      while todo != {}
        invariant Valid() && fuel <= old(fuel) <= fuel + |old(txns)| - |todo|
        invariant todo <= old(txns).Keys
        invariant forall t :: t in todo ==> t in txns && txns[t] == old(txns)[t]
        invariant PartlySettled(files, alive, old(txns), txns)
        invariant old(fuel) == 0 ==> txns == old(txns)
        invariant txns.Keys <= old(txns).Keys
        invariant fuel > 0 ==> SettledBut(files, alive, old(txns), txns, todo)
        decreases |todo|
      {
        var t :| t in todo;
        ghost var before := txns;
        SettleOne(alive, t);
        SettledOneMore(files, alive, old(txns), before, txns, todo, t);
        todo := todo - {t};
      }
      assert fuel > 0 ==> txns == SettleAll(files, alive, old(txns));
      assert fuel > 0 ==> txns == SettleAll(files, alive, old(txns));
    }

    /** One committed member of a strict batch that stopped half-way. */
    method RollBackMember(t: TxnId)
      requires Valid() && t in txns && txns[t].state.Some? && txns[t].file.Some?
      modifies this`files, this`txns, this`fuel
      ensures Valid() && fuel <= old(fuel) <= fuel + 2
      ensures var x := old(txns)[t];
              if HoldsNew(old(files), x) && x.backup.Some? then
                && files == (if old(fuel) == 0 then old(files) else Reverted(old(files), x))
                && txns == if old(fuel) < 2 then old(txns) else old(txns)[t := x.WithPhase(RolledBack)]
              else if HoldsNew(old(files), x) && x.state.value.created then
                && files == (if old(fuel) == 0 then old(files) else old(files) - {x.file.value})
                && txns == if old(fuel) < 2 then old(txns) else old(txns)[t := x.WithPhase(RolledBack)]
              else
                && files == old(files)
                && txns == if old(fuel) < 1 then old(txns) else old(txns)[t := x.WithPhase(NeedsReview)]
    {
      var x := txns[t];
      var didRollback := false;
      if x.state.value.created && HoldsNew(files, x) {
        Unlink(x.file.value);
        didRollback := true;
      } else if x.backup.Some? && HoldsNew(files, x) {
        WriteFile(x.file.value, x.backup.value);
        didRollback := true;
      }
      UpdateState(t, if didRollback then RolledBack else NeedsReview, None);
    }

    ghost predicate Ready(owner: Pid, es: seq<Edit>)
      reads this
    {
      && Wellformed(es) && Recoverable(files, txns, marker, owner, es)
      && (fuel > 0 && marker.Some? ==>
             forall i :: 0 <= i < |marker.value.ids| ==> !txns[marker.value.ids[i]].Is(Staged))
    }

    /** The batch on disk is intact but, while this process lives, known not to be completable. */
    ghost predicate Stuck(owner: Pid, es: seq<Edit>)
      reads this
    {
      && Wellformed(es) && marker.Some? && Recoverable(files, txns, marker, owner, es)
      && (fuel > 0 ==> !MayComplete(txns, marker.value, es))
    }

    /** RollBackMember, seen from the batch. */
    method RollBackOne(t: TxnId, ghost owner: Pid, ghost es: seq<Edit>)
      requires Valid() && t in txns && txns[t].Is(Committed) && txns[t].file.Some? && txns[t].backup.Some?
      modifies this`files, this`txns, this`fuel
      ensures Valid() && fuel <= old(fuel) <= fuel + 2
      ensures old(fuel) == 0 ==> files == old(files) && txns == old(txns)
      ensures files == old(files) || (HoldsNew(old(files), old(txns)[t]) && files == Reverted(old(files), old(txns)[t]))
      ensures fuel > 0 && HoldsNew(old(files), old(txns)[t]) ==> files == Reverted(old(files), old(txns)[t])
      ensures t in txns && txns == old(txns)[t := txns[t]] && SameTargets(old(txns), txns)
      ensures old(Stuck(owner, es)) && (old(fuel) > 0 ==> t in marker.value.ids) ==>
                && Stuck(owner, es)
                && (fuel > 0 ==> forall j :: 0 <= j < |es| ==>
                      (j < |marker.value.ids| && marker.value.ids[j] == t) || es[j].Old(old(files)) ==>
                          es[j].Old(files))
    {
      if Stuck(owner, es) && fuel > 0 && t in marker.value.ids {
        ghost var j :| 0 <= j < |marker.value.ids| && marker.value.ids[j] == t;
        RecoveryStep(files, txns, marker.value, j, owner, es);
      }
      RollBackMember(t);
    }

    /** A strict batch some but not all of whose members are committed; `ids` are the committed ones. */
    ghost predicate HalfDone(owner: Pid, es: seq<Edit>, ids: seq<TxnId>)
      reads this
    {
      && Stuck(owner, es) && ids == CommittedIds(txns, marker.value.ids)
      && (fuel > 0 ==> forall i :: 0 <= i < |marker.value.ids| ==> !txns[marker.value.ids[i]].Is(Staged))
    }

    lemma {:induction false} HalfDoneMeaning(owner: Pid, es: seq<Edit>, ids: seq<TxnId>)
      requires HalfDone(owner, es, ids) && fuel > 0
      ensures forall t :: t in ids ==> t in marker.value.ids
      ensures forall j :: 0 <= j < |es| ==> es[j].Old(files) || (j < |marker.value.ids| && marker.value.ids[j] in ids)
    {
      var m := marker.value;
      CommittedIdsMeaning(txns, m.ids);
      forall j | 0 <= j < |es|
        ensures es[j].Old(files) || (j < |m.ids| && m.ids[j] in ids)
      {
        if j < |m.ids| { assert MemberOk(files, txns[m.ids[j]], owner, es[j]); }
      }
    }

    /** The first k of these members have been looked at. */
    ghost predicate RolledBackTo(files0: Files, txns0: map<TxnId, Txn>, ids: seq<TxnId>, k: nat)
      requires k <= |ids|
      reads this
    {
      && OnlyReverts(files0, files, txns0, AsSet(ids[..k]))
      && (forall i ::
             k <= i < |ids| ==>
                 ids[i] in txns0 && txns0[ids[i]].file.Some? && SameAt(files0, files, txns0[ids[i]].file.value))
      && (fuel > 0 ==> TakenBack(files0, files, txns0, ids[..k]))
    }

    /** How far the loop of a roll-back has come. */
    ghost predicate BackTo(files0: Files, txns0: map<TxnId, Txn>, ids: seq<TxnId>, k: nat, owner: Pid, es: seq<Edit>,
                           distinct: bool, half: bool)
      requires k <= |ids| && forall t :: t in ids ==> t in txns0
      reads this
    {
      && SameTargets(txns0, txns)
      && (forall i :: k <= i < |ids| ==> ids[i] in txns && txns[ids[i]] == txns0[ids[i]])
      && (distinct ==> RolledBackTo(files0, txns0, ids, k))
      && (half ==> Stuck(owner, es))
      && (half && fuel > 0 ==> forall j :: 0 <= j < |es| ==>
            es[j].Old(files) || (j < |marker.value.ids| && marker.value.ids[j] in ids[k..]))
    }

    method RollBackNext(ids: seq<TxnId>, k: nat, ghost owner: Pid, ghost es: seq<Edit>, ghost distinct: bool,
                        ghost half: bool, ghost files0: Files, ghost txns0: map<TxnId, Txn>)
      requires Valid() && k < |ids|
      requires forall t ::
                t in ids ==> t in txns0 && txns0[t].Is(Committed) && txns0[t].file.Some? && txns0[t].backup.Some?
      requires forall i, j :: 0 <= i < j < |ids| ==> ids[i] != ids[j]
      requires BackTo(files0, txns0, ids, k, owner, es, distinct, half)
      requires distinct ==> DistinctFiles(txns0, AsSet(ids))
      requires half && fuel > 0 ==> ids[k] in marker.value.ids
      modifies this`files, this`txns, this`fuel
      ensures Valid() && fuel <= old(fuel) <= fuel + 2
      ensures old(fuel) == 0 ==> files == old(files) && txns == old(txns)
      ensures BackTo(files0, txns0, ids, k + 1, owner, es, distinct, half)
    {
      RollBackOne(ids[k], owner, es);
      if distinct {
        RollBackLoopStep(files0, old(files), files, txns0, ids, k);
      }
    }

    /** The roll-back loop of recoverBatches over the committed members of a strict batch. */
    method RollBackAll(ids: seq<TxnId>, ghost owner: Pid, ghost es: seq<Edit>)
      requires Valid()
      requires forall t :: t in ids ==> t in txns && txns[t].Is(Committed) && txns[t].file.Some? && txns[t].backup.Some?
      requires forall i, j :: 0 <= i < j < |ids| ==> ids[i] != ids[j]
      modifies this`files, this`txns, this`fuel
      ensures Valid() && fuel <= old(fuel) <= fuel + 2 * |ids|
      ensures old(fuel) == 0 ==> files == old(files) && txns == old(txns)
      ensures DistinctFiles(old(txns), AsSet(ids)) ==> OnlyReverts(old(files), files, old(txns), AsSet(ids))
      ensures DistinctFiles(old(txns), AsSet(ids)) && fuel > 0 ==> TakenBack(old(files), files, old(txns), ids)
      ensures SameTargets(old(txns), txns)
      ensures old(HalfDone(owner, es, ids)) ==>
                Recoverable(files, txns, marker, owner, es) && (fuel > 0 ==> AllOld(files, es))
    {
      ghost var distinct := DistinctFiles(txns, AsSet(ids));
      ghost var half := HalfDone(owner, es, ids);
      if half && fuel > 0 { HalfDoneMeaning(owner, es, ids); }
      for k := 0 to |ids|
        invariant Valid() && fuel <= old(fuel) <= fuel + 2 * k
        invariant old(fuel) == 0 ==> files == old(files) && txns == old(txns)
        invariant BackTo(old(files), old(txns), ids, k, owner, es, distinct, half)
      {
        RollBackNext(ids, k, owner, es, distinct, half, old(files), old(txns));
      }
      assert ids[..|ids|] == ids;
    }

    /** The number of committed members decides: some of them, but not all, are taken back. */
    method DecideDeadBatch(committed: seq<TxnId>, ghost owner: Pid, ghost es: seq<Edit>)
      requires Valid() && marker.Some? && MarkerOk(txns, marker.value)
      requires committed == CommittedIds(txns, marker.value.ids)
      modifies this`files, this`txns, this`fuel
      ensures Valid() && fuel <= old(fuel) <= fuel + 2 * |marker.value.ids|
      ensures DistinctFiles(old(txns), AsSet(committed)) ==>
                && OnlyReverts(old(files), files, old(txns), AsSet(committed))
                && (fuel > 0 && 0 < |committed| < |marker.value.files| && marker.value.strict ==>
                       TakenBack(old(files), files, old(txns), committed))
      ensures old(Ready(owner, es)) ==>
                Recoverable(files, txns, marker, owner, es) && (fuel > 0 ==> AllOld(files, es) || AllNew(files, es))
      ensures SameTargets(old(txns), txns)
    {
      var m := marker.value;
      var total := if |m.files| > 0 then |m.files| else |m.ids|;
      CommittedIdsMeaning(txns, m.ids);
      if Ready(owner, es) && fuel > 0 { Verdict(files, txns, m, owner, es); }
      if 0 < |committed| < total && m.strict {
        RollBackAll(committed, owner, es);
      }
    }

    /** The part of recoverBatches behind its guards: a dead strict batch with some but not all members
        committed is rolled back, then the marker goes. */
    method FinishDeadBatch(ghost owner: Pid, ghost es: seq<Edit>)
      requires Valid() && marker.Some? && MarkerOk(txns, marker.value)
      modifies this`files, this`txns, this`marker, this`fuel
      ensures Valid() && fuel <= old(fuel) <= fuel + 2 * |old(marker.value.ids)| + 1
      ensures var m := old(marker.value);
              var cs := CommittedIds(old(txns), m.ids);
              DistinctFiles(old(txns), AsSet(cs)) ==>
                && OnlyReverts(old(files), files, old(txns), AsSet(cs))
                && (fuel > 0 && 0 < |cs| < |m.files| && m.strict ==> TakenBack(old(files), files, old(txns), cs))
      ensures old(Ready(owner, es)) ==>
                Recoverable(files, txns, marker, owner, es) && (fuel > 0 ==> AllOld(files, es) || AllNew(files, es))
      ensures fuel > 0 ==> marker.None?
      ensures SameTargets(old(txns), txns) && (marker == old(marker) || marker == None)
    {
      var committed := CommittedIds(txns, marker.value.ids);
      CommittedIdsMeaning(txns, marker.value.ids);
      DecideDeadBatch(committed, owner, es);
      PutMarker(None);
    }

    /** recoverBatches: nothing while the batch lock is held by a live process. */
    method RecoverBatches(alive: set<Pid>, ghost owner: Pid, ghost es: seq<Edit>)
      requires Valid() && (marker.Some? ==> MarkerOk(txns, marker.value))
      modifies this`files, this`txns, this`marker, this`batchLock, this`fuel
      ensures Valid() && fuel <= old(fuel) <= fuel + 2 + if old(marker).Some? then 2 * |old(marker).value.ids| else 0
      ensures batchLock == old(batchLock) || batchLock == None
      ensures old(marker.None? || (batchLock.Some? && batchLock.value in alive)) ==>
                Untouched(old(files), old(txns), old(marker))
      ensures old(marker.Some?) ==>
                var m := old(marker).value;
                var cs := CommittedIds(old(txns), m.ids);
                DistinctFiles(old(txns), AsSet(cs)) ==>
                  && OnlyReverts(old(files), files, old(txns), AsSet(cs))
                  && (fuel > 0 && 0 < |cs| < |m.files| && m.strict &&
                         !(old(batchLock).Some? && old(batchLock).value in alive) ==>
                        TakenBack(old(files), files, old(txns), cs))
      ensures fuel > 0 && !old(batchLock.Some? && batchLock.value in alive) ==> marker.None?
      ensures SameTargets(old(txns), txns) && (marker == old(marker) || marker == None)
      ensures old(Ready(owner, es)) ==> Recoverable(files, txns, marker, owner, es)
      ensures old(Ready(owner, es) && !(batchLock.Some? && batchLock.value in alive)) && fuel > 0 ==>
                AllOld(files, es) || AllNew(files, es)
    {
      if batchLock.Some? {
        if batchLock.value in alive { return; }
        PutBatchLock(None);
      }
      if marker.Some? {
        FinishDeadBatch(owner, es);
      }
    }

    /** Crash recovery as every write begins with it. */
    method Recover(alive: set<Pid>, ghost owner: Pid, ghost es: seq<Edit>)
      requires Valid() && Consistent(files, txns, marker, owner, es)
      requires Wellformed(es) && AtomicBatch(es) && owner !in alive
      requires batchLock.Some? ==> batchLock.value !in alive
      modifies this`files, this`txns, this`marker, this`batchLock, this`fuel
      ensures Valid() && Consistent(files, txns, marker, owner, es)
      ensures batchLock.Some? ==> batchLock.value !in alive
      ensures old(fuel) > |old(txns)| + 2 * |es| + 2 ==> fuel > 0
      ensures fuel > 0 ==> marker.None? && (AllOld(files, es) || AllNew(files, es))
    {
      if CreatesNoEmptyFile(es) {
        RecoverableIsConsistent(files, txns, marker, owner, es);
      }
      RecoverJournals(alive);
      if CreatesNoEmptyFile(es) {
        SettlingKeepsRecoverable(files, alive, old(txns), txns, marker, owner, es);
      }
      if marker.Some? {
        SettlingKeepsTargets(files, alive, old(txns), txns, marker.value.ids, es);
      }
      ghost var settled := txns;
      RecoverBatches(alive, owner, es);
      if !CreatesNoEmptyFile(es) {
        LoneBatchRecovered(old(files), settled, old(marker), es);
      }
    }

    /** Whatever recovery does to it, a batch in which only one creation counts stays all old or all new. */
    lemma {:induction false} LoneBatchRecovered(files0: Files, txns0: map<TxnId, Txn>, marker0: Option<Marker>,
                                                es: seq<Edit>)
      requires Wellformed(es) && AtomicBatch(es) && !CreatesNoEmptyFile(es) && Shaped(files0, txns0, marker0, es)
      requires SameTargets(txns0, txns) && (marker == marker0 || marker == None)
      requires marker0.None? ==> files == files0
      requires marker0.Some? ==>
                 var cs := CommittedIds(txns0, marker0.value.ids);
                 DistinctFiles(txns0, AsSet(cs)) ==> OnlyReverts(files0, files, txns0, AsSet(cs))
      ensures Shaped(files, txns, marker, es) && (AllOld(files, es) || AllNew(files, es))
    {
      if marker0.Some? {
        var m := marker0.value;
        CommittedIdsMeaning(txns0, m.ids);
        RevertsKeepEach(files0, files, txns0, m.ids, CommittedIds(txns0, m.ids), es);
        forall i | 0 <= i < |m.ids| ensures m.ids[i] in txns && Targets(txns[m.ids[i]], es[i]) {
          assert Targets(txns0[m.ids[i]], es[i]);
        }
      }
      LoneCreation(files, es);
    }

    /** Crash atomicity. A strict batch dies after any number of durable steps, in its writes or in its
        own roll-back; then any number of recoveries die in the middle too. Once a recovery lives long
        enough, every file of the batch holds its new content or every one its old content. */
    method CrashThenRecover(pid: Pid, others: set<Pid>, b: BatchId, es: seq<Edit>, fail: Option<(nat, FailPoint)>,
                            life: nat, lives: seq<nat>)
      requires Valid() && Wellformed(es) && AtomicBatch(es)
      requires marker.None? && batchLock.None? && AllOld(files, es) && pid !in others
      modifies this
      ensures marker.None? && (AllOld(files, es) || AllNew(files, es))
    {
      fuel := life;
      var _ := WriteSymbols(pid, others + {pid}, b, es, fail, 0);
      RecoverableIsConsistent(files, txns, marker, pid, es);
      for i := 0 to |lives|
        invariant Valid() && Consistent(files, txns, marker, pid, es)
        invariant batchLock.Some? ==> batchLock.value !in others
      {
        fuel := lives[i];
        Recover(others, pid, es);
      }
      fuel := |txns| + 2 * |es| + 3;
      Recover(others, pid, es);
    }

    /** Recovery of a batch that died right after the rename of an empty created file: first the journals. */
    method SettleAfterEmptyCreate(pid: Pid, others: set<Pid>, b: BatchId, ghost es: seq<Edit>, ghost ids: seq<TxnId>,
                                  ghost t: TxnId)
      requires Valid() && Wellformed(es) && Recoverable(files, txns, marker, pid, es)
      requires Renamed(files, txns, marker, pid, b, es, ids, t) && es[|ids|].CreatesEmptyFile()
      requires pid !in others && fuel > |txns|
      modifies this`txns, this`fuel
      ensures Valid() && fuel <= old(fuel) <= fuel + |old(txns)|
      ensures MarkerOk(txns, marker.value) && CommittedIds(txns, marker.value.ids) == ids
      ensures HalfApplied(files, txns, es, ids) && DistinctFiles(txns, AsSet(ids))
    {
      EmptyCreateSettles(files, txns, others, marker, pid, b, es, ids, t);
      RecoverJournals(others);
    }

    /** Then the marker. */
    method RecoverAfterEmptyCreate(pid: Pid, others: set<Pid>, b: BatchId, ghost es: seq<Edit>, ghost ids: seq<TxnId>,
                                   ghost t: TxnId, ghost i: nat)
      requires Valid() && Wellformed(es) && Recoverable(files, txns, marker, pid, es)
      requires Renamed(files, txns, marker, pid, b, es, ids, t) && es[|ids|].CreatesEmptyFile()
      requires i < |es| && i != |ids| && es[i].Effective()
      requires pid !in others && (batchLock.Some? ==> batchLock.value !in others)
      requires fuel > |txns| + 2 * |es| + 2
      modifies this
      ensures marker.None? && !AllOld(files, es) && !AllNew(files, es)
    {
      SettleAfterEmptyCreate(pid, others, b, es, ids, t);
      ghost var files0, settled := files, txns;
      RecoverBatches(others, pid, es);
      EmptyCreateStays(files0, files, settled, es, ids, i);
    }

    /** The hypothesis is exact: whenever a batch creates an empty file and any other of its edits changes
        anything, a crash right after the empty file's rename leaves a half-applied batch that recovery does
        not repair. */
    method CrashAfterEmptyCreate(pid: Pid, others: set<Pid>, b: BatchId, es: seq<Edit>, i: nat, j: nat)
      requires Valid() && Wellformed(es) && j < |es| && es[j].CreatesEmptyFile()
      requires i < |es| && i != j && es[i].Effective()
      requires marker.None? && batchLock.None? && AllOld(files, es) && pid !in others
      modifies this
      ensures !AtomicBatch(es) && marker.None? && !AllOld(files, es) && !AllNew(files, es)
    {
      fuel := 8 * j + 9;
      var _ := WriteSymbols(pid, others + {pid}, b, es, None, j);
      ghost var ids, t :| |ids| == j && Renamed(files, txns, marker, pid, b, es, ids, t);
      fuel := |txns| + 2 * |es| + 3;
      RecoverAfterEmptyCreate(pid, others, b, es, ids, t, i);
    }

    // ---- Undo ----

    /** Takes back one file whose undo has been approved, and records it. */
    method TakeBackFile(t: TxnId)
      requires Valid() && t in txns && txns[t].state.Some? && txns[t].file.Some? && txns[t].backup.Some?
      modifies this`files, this`txns, this`fuel
      ensures Valid() && fuel == if old(fuel) < 2 then 0 else old(fuel) - 2
      ensures files == if old(fuel) == 0 then old(files) else Reverted(old(files), old(txns)[t])
      ensures txns == if old(fuel) < 2 then old(txns) else old(txns)[t := old(txns)[t].WithPhase(Undone)]
    {
      var x := txns[t];
      if x.state.value.created {
        Unlink(x.file.value);
      } else {
        WriteFile(x.file.value, x.backup.value);
      }
      UpdateState(t, Undone, None);
    }

    /** The members of a batch, oldest first. */
    method BatchMembers(b: BatchId) returns (ms: seq<TxnId>)
      requires Valid()
      ensures forall t ::
                t in ms <==>
                    t in txns && txns[t].state.Some? && txns[t].state.value.batch == Some(b) && txns[t].file.Some?
      ensures forall i, j :: 0 <= i < j < |ms| ==> ms[i] < ms[j]
    {
      ms := [];
      for t := 0 to nextTxn
        invariant forall u ::
                  u in ms <==>
                      u < t && u in txns && txns[u].state.Some? && txns[u].state.value.batch == Some(b) &&
                          txns[u].file.Some?
        invariant forall i :: 0 <= i < |ms| ==> ms[i] < t
        invariant forall i, j :: 0 <= i < j < |ms| ==> ms[i] < ms[j]
      {
        if t in txns && txns[t].state.Some? && txns[t].state.value.batch == Some(b) && txns[t].file.Some? {
          ms := ms + [t];
        }
      }
    }

    /** The members of `ms` that stand in the way of undoing the batch. */
    method BlockedMembers(ms: seq<TxnId>) returns (blocked: seq<TxnId>)
      requires forall t :: t in ms ==> t in txns && txns[t].state.Some? && txns[t].file.Some?
      ensures forall t :: t in blocked <==> t in ms && UndoVerdictOf(files, txns[t]).Blocks()
    {
      blocked := [];
      for i := 0 to |ms|
        invariant forall t :: t in blocked <==> t in ms[..i] && UndoVerdictOf(files, txns[t]).Blocks()
      {
        if UndoVerdictOf(files, txns[ms[i]]).Blocks() {
          blocked := blocked + [ms[i]];
        }
      }
      assert ms[..|ms|] == ms;
    }

    /** The effect of an undo on member t of a batch: taken back (or found already so) and marked. */
    ghost predicate MemberUndone(files0: Files, txns0: map<TxnId, Txn>, t: TxnId)
      requires t in txns0 && txns0[t].state.Some? && txns0[t].file.Some?
      reads this
    {
      t in txns && txns[t] == txns0[t].WithPhase(Undone) && DoneAsJudged(files0, files, txns0[t])
    }

    /** One member of an approved batch undo. `busy` are the files whose lock cannot be had. */
    method UndoMember(t: TxnId, busy: set<Path>) returns (acted: bool)
      requires Valid() && t in txns && txns[t].state.Some? && txns[t].file.Some?
      requires !UndoVerdictOf(files, txns[t]).Blocks()
      modifies this`files, this`txns, this`fuel
      ensures Valid() && fuel <= old(fuel) <= fuel + 2
      ensures t in old(txns) && t in txns && txns == old(txns)[t := txns[t]]
      ensures files == old(files) ||
                (UndoVerdictOf(old(files), old(txns)[t]) == TakeBack && files == Reverted(old(files), old(txns)[t]))
      ensures fuel > 0 && old(txns)[t].file.value !in busy ==> MemberUndone(old(files), old(txns), t)
      ensures old(txns)[t].file.value in busy ==> files == old(files)
      ensures acted <==> UndoVerdictOf(old(files), old(txns)[t]) == TakeBack && old(txns)[t].file.value !in busy
      ensures UndoVerdictOf(old(files), old(txns)[t]) == TakeBack && !acted ==> txns == old(txns)
    {
      var x := txns[t];
      UndoActsOnOwnContentOnly(files, x);
      acted := false;
      if UndoVerdictOf(files, x) == Already {
        UpdateState(t, Undone, None);
      } else if x.file.value !in busy {
        TakeBackFile(t);
        acted := true;
      }
    }

    /** The restore loop of a batch undo, newest member first. */
    method UndoMembers(ms: seq<TxnId>, busy: set<Path>) returns (restored: nat)
      requires Valid() && DistinctFiles(txns, AsSet(ms))
      requires forall i, j :: 0 <= i < j < |ms| ==> ms[i] != ms[j]
      requires forall t :: t in ms ==> t in txns && txns[t].state.Some? && txns[t].file.Some?
      requires forall t :: t in ms ==> !UndoVerdictOf(files, txns[t]).Blocks()
      modifies this`files, this`txns, this`fuel
      ensures Valid() && restored <= |ms| && fuel <= old(fuel) <= fuel + 2 * |ms|
      ensures OnlyUndoes(old(files), files, old(txns), AsSet(ms))
      ensures fuel > 0 && busy == {} ==> forall t :: t in ms ==> MemberUndone(old(files), old(txns), t)
      ensures forall t ::
                t in ms && old(txns)[t].file.value in busy ==> SameAt(old(files), files, old(txns)[t].file.value)
      ensures restored == |Restorable(old(files), old(txns), AsSet(ms), busy)|
    {
      restored := 0;
      var k := |ms|;
      ghost var files0, txns0 := files, txns;
      while k > 0
        invariant 0 <= k <= |ms| && Valid() && restored <= |ms| - k && fuel <= old(fuel) <= fuel + 2 * (|ms| - k)
        invariant UndoneFrom(files0, txns0, ms, k, busy)
        invariant restored == |Restorable(files0, txns0, AsSet(ms[k..]), busy)|
      {
        k := k - 1;
        var acted := UndoNext(ms, k, busy, files0, txns0);
        restored := restored + if acted then 1 else 0;
        RestorableStep(files0, txns0, ms, k, busy);
      }
      assert ms[0..] == ms;
    }

    /** The members from place k on have been undone, as far as their files are not locked; those before are as they
        were. */
    ghost predicate UndoneFrom(files0: Files, txns0: map<TxnId, Txn>, ms: seq<TxnId>, k: nat, busy: set<Path>)
      requires k <= |ms| && forall t :: t in ms ==> t in txns0 && txns0[t].state.Some? && txns0[t].file.Some?
      reads this
    {
      && (forall i :: 0 <= i < k ==> ms[i] in txns && txns[ms[i]] == txns0[ms[i]])
      && (forall i :: 0 <= i < k ==> SameAt(files0, files, txns0[ms[i]].file.value))
      && OnlyUndoes(files0, files, txns0, AsSet(ms[k..]))
      && (fuel > 0 && busy == {} ==> forall i :: k <= i < |ms| ==> MemberUndone(files0, txns0, ms[i]))
      && (forall i ::
             0 <= i < |ms| && txns0[ms[i]].file.value in busy ==> SameAt(files0, files, txns0[ms[i]].file.value))
    }

    /** One turn of the restore loop. */
    method UndoNext(ms: seq<TxnId>, k: nat, busy: set<Path>, ghost files0: Files, ghost txns0: map<TxnId, Txn>)
      returns (acted: bool)
      requires Valid() && k < |ms| && DistinctFiles(txns0, AsSet(ms))
      requires forall i, j :: 0 <= i < j < |ms| ==> ms[i] != ms[j]
      requires forall t :: t in ms ==> t in txns0 && txns0[t].state.Some? && txns0[t].file.Some?
      requires forall t :: t in ms ==> !UndoVerdictOf(files0, txns0[t]).Blocks()
      requires UndoneFrom(files0, txns0, ms, k + 1, busy)
      modifies this`files, this`txns, this`fuel
      ensures Valid() && fuel <= old(fuel) <= fuel + 2
      ensures UndoneFrom(files0, txns0, ms, k, busy)
      ensures acted <==> UndoVerdictOf(files0, txns0[ms[k]]) == TakeBack && txns0[ms[k]].file.value !in busy
    {
      assert ms[k] in ms && SameAt(files0, files, txns0[ms[k]].file.value);
      UndoLoopStep(files0, files, files, txns0, ms, k);
      acted := UndoMember(ms[k], busy);
      UndoLoopStep(files0, old(files), files, txns0, ms, k);
    }

    /** The members that an undo acts on: those to be taken back whose file is not locked by somebody else. */
    static ghost function Restorable(files: Files, txns: map<TxnId, Txn>, ts: set<TxnId>, busy: set<Path>): set<TxnId>
      requires forall t :: t in ts ==> t in txns && txns[t].state.Some? && txns[t].file.Some?
    {
      set t | t in ts && UndoVerdictOf(files, txns[t]) == TakeBack && txns[t].file.value !in busy
    }

    static lemma {:induction false} RestorableStep(files: Files, txns: map<TxnId, Txn>, ms: seq<TxnId>, k: nat,
                                                   busy: set<Path>)
      requires k < |ms| && forall i, j :: 0 <= i < j < |ms| ==> ms[i] != ms[j]
      requires forall t :: t in ms ==> t in txns && txns[t].state.Some? && txns[t].file.Some?
      ensures |Restorable(files, txns, AsSet(ms[k..]), busy)| ==
                |Restorable(files, txns, AsSet(ms[k+1..]), busy)| +
                if UndoVerdictOf(files, txns[ms[k]]) == TakeBack && txns[ms[k]].file.value !in busy then 1 else 0
    {
      var before, after := Restorable(files, txns, AsSet(ms[k+1..]), busy), Restorable(files, txns, AsSet(ms[k..]),
          busy);
      assert ms[k..] == [ms[k]] + ms[k+1..];
      assert ms[k] !in ms[k+1..];
      if UndoVerdictOf(files, txns[ms[k]]) == TakeBack && txns[ms[k]].file.value !in busy {
        assert after == before + {ms[k]};
      } else {
        assert after == before;
      }
    }

    function InBatch(b: BatchId): set<TxnId>
      reads this
    {
      set t | t in txns && txns[t].state.Some? && txns[t].state.value.batch == Some(b) && txns[t].file.Some?
    }

    /** restoreBatchJournals: first every member is checked, and one that cannot be undone blocks the whole
        batch; then the members are taken back. The check and the restore are one step here. */
    method RestoreBatch(b: BatchId, busy: set<Path>) returns (r: UndoResult)
      requires Valid() && DistinctFiles(txns, InBatch(b))
      modifies this`files, this`txns, this`fuel
      ensures Valid() && (r.BatchBlocked? || r.BatchUndoDone?) && fuel <= old(fuel) <= fuel + 2 * |old(txns)|
      ensures OnlyUndoes(old(files), files, old(txns), old(InBatch(b)))
      ensures AllHashed(old(txns), old(InBatch(b))) ==> OnlyReverts(old(files), files, old(txns), old(InBatch(b)))
      ensures r.BatchBlocked? <==> exists t :: t in old(InBatch(b)) && UndoVerdictOf(old(files), old(txns)[t]).Blocks()
      ensures r.BatchBlocked? ==> files == old(files) && txns == old(txns)
      ensures r.BatchUndoDone? && fuel > 0 && busy == {} ==>
                forall t :: t in old(InBatch(b)) ==> MemberUndone(old(files), old(txns), t)
      ensures LockedStay(old(files), old(txns), old(InBatch(b)), busy)
      ensures r.BatchUndoDone? ==>
                && r.restored == |Restorable(old(files), old(txns), old(InBatch(b)), busy)|
                && r.restored + r.untouched == |old(InBatch(b))|
    {
      var ms := BatchMembers(b);
      assert AsSet(ms) == InBatch(b);
      DistinctBound(ms, txns.Keys);
      var blocked := BlockedMembers(ms);
      if blocked != [] {
        assert blocked[0] in blocked;
        return BatchBlocked(blocked);
      }
      assert forall t :: t in ms ==> t !in blocked;
      MembersOnce(ms);
      var restored := UndoMembers(ms, busy);
      r := BatchUndoDone(restored, |ms| - restored);
      if AllHashed(old(txns), old(InBatch(b))) {
        UndoesAreReverts(old(files), files, old(txns), old(InBatch(b)));
      }
    }

    /** What somebody else has locked is left alone. */
    ghost predicate LockedStay(files0: Files, txns0: map<TxnId, Txn>, ts: set<TxnId>, busy: set<Path>)
      reads this
    {
      forall t :: t in ts && t in txns0 && txns0[t].file.Some? && txns0[t].file.value in busy ==>
        SameAt(files0, files, txns0[t].file.value)
    }

    static lemma {:induction false} MembersOnce(ms: seq<TxnId>)
      requires forall i, j :: 0 <= i < j < |ms| ==> ms[i] != ms[j]
      ensures |AsSet(ms)| == |ms|
    {
      if ms != [] {
        var init := ms[..|ms|-1];
        MembersOnce(init);
        assert ms == init + [ms[|ms|-1]];
        assert AsSet(ms) == AsSet(init) + {ms[|ms|-1]};
        assert ms[|ms|-1] !in init;
      }
    }

    /** restoreJournal: undo by transaction id; a member of a batch undoes the whole batch. */
    method RestoreJournal(t: TxnId, busy: set<Path>) returns (r: UndoResult)
      requires Valid()
      requires t in txns && txns[t].state.Some? && txns[t].state.value.batch.Some? ==>
                 DistinctFiles(txns, InBatch(txns[t].state.value.batch.value))
      modifies this`files, this`txns, this`fuel
      ensures Valid() && fuel <= old(fuel) <= fuel + 2 * |old(txns)|
      ensures !r.UndoDone? && !r.BatchUndoDone? ==> files == old(files) && txns == old(txns)
      ensures r.JournalNotFound? <==> !(t in old(txns) && old(txns)[t].state.Some? && old(txns)[t].file.Some?)
      ensures t in old(txns) && old(txns)[t].state.Some? && old(txns)[t].file.Some? ==>
                var x := old(txns)[t];
                if x.state.value.batch.None? then
                  && (r.UndoRefused? ==> UndoVerdictOf(old(files), x).Blocks())
                  && (r.UndoDone? ==> !UndoVerdictOf(old(files), x).Blocks())
                  && (r.FileLocked? <==> IsCommitted(x) && x.backup.Some? && x.file.value in busy)
                  && (x.file.value in busy ==> files == old(files))
                  && OnlyUndoes(old(files), files, old(txns), {t})
                  && (Hashed(x) ==> OnlyReverts(old(files), files, old(txns), {t}))
                  && (r.UndoDone? && fuel > 0 ==> MemberUndone(old(files), old(txns), t))
                  && (r.UndoDone? || r.UndoRefused? || r.FileLocked?)
                else
                  var ms := old(InBatch(txns[t].state.value.batch.value));
                  && OnlyUndoes(old(files), files, old(txns), ms)
                  && (AllHashed(old(txns), ms) ==> OnlyReverts(old(files), files, old(txns), ms))
                  && (r.BatchBlocked? <==> exists u :: u in ms && UndoVerdictOf(old(files), old(txns)[u]).Blocks())
                  && (r.BatchUndoDone? && fuel > 0 && busy == {} ==>
                         forall u :: u in ms ==> MemberUndone(old(files), old(txns), u))
                  && (r.BatchUndoDone? || r.BatchBlocked?)
                  && LockedStay(old(files), old(txns), ms, busy)
    {
      if t !in txns || txns[t].state.None? || txns[t].file.None? { return JournalNotFound; }
      var x := txns[t];
      if x.state.value.batch.Some? {
        r := RestoreBatch(x.state.value.batch.value, busy);
        return;
      }
      var verdict := UndoVerdictOf(files, x);
      if x.Is(Undone) { return UndoDone(0); }
      if verdict == NotCommitted || verdict == BackupMissing { return UndoRefused(verdict); }
      if x.file.value in busy { return FileLocked; }
      if verdict.Blocks() { return UndoRefused(verdict); }
      ghost var files0 := files;
      var acted := UndoMember(t, {});
      UndoStep(files0, files0, files, old(txns), {}, t);
      if Hashed(x) {
        UndoesAreReverts(files0, files, old(txns), {t});
      }
      r := UndoDone(if acted then 1 else 0);
    }

    // ---- A single write, and what comes after it ----

    /** writeSymbol on one file: `path` is created or rewritten with `content`. */
    method WriteSymbol(pid: Pid, path: Path, create: bool, content: Content, renameFails: bool)
        returns (t: TxnId, r: WriteResult)
      requires Valid()
      modifies this`files, this`txns, this`nextTxn, this`fuel
      ensures Valid()
      ensures create && path in old(files) <==> r == FileExists
      ensures !create && path !in old(files) <==> r == FileNotFound
      ensures r == FileExists || r == FileNotFound ==> files == old(files) && txns == old(txns)
      ensures r == Saved || r == WriteFailed ==>
                var e := Edit(path, create, if create then "" else old(files)[path], content);
                && e.Old(old(files)) && t !in old(txns)
                && (files == old(files) || files == old(files)[path := content])
                && (t in txns && txns[t].state.Some? ==>
                      || DiedWriting(files, txns[t], e)
                      || (txns[t] == e.AsTxn(pid, Committed, Some(Sha256(content)), None) && e.New(files))
                      || (renameFails && txns[t] == e.AsTxn(pid, Phase.Failed, Some(Sha256(content)), None) &&
                             e.Old(files)))
                && (!(t in txns && txns[t].state.Some?) ==> files == old(files))
                && (t in txns ==> txns[t].owner == pid)
                && (fuel > 0 && !renameFails ==> r == Saved && files == old(files)[path := content])
                && (renameFails ==> r == WriteFailed && files == old(files))
                && (fuel > 0 && renameFails ==>
                       t in txns && txns[t] == e.AsTxn(pid, Phase.Failed, Some(Sha256(content)), None))
                && (fuel > 0 && !renameFails ==>
                       t in txns && txns[t] == e.AsTxn(pid, Committed, Some(Sha256(content)), None))
      ensures old(fuel) > 7 ==> fuel > 0
    {
      t := nextTxn;
      if create && path in files { return t, FileExists; }
      if !create && path !in files { return t, FileNotFound; }
      var before := if create then "" else files[path];
      var ok;
      t, ok := CreateJournal(pid, path, before, TxnState(Staged, None, create, None), 4);
      UpdateState(t, Staged, Some(Sha256(content)));
      if renameFails {
        UpdateState(t, Phase.Failed, None);
        return t, WriteFailed;
      }
      WriteFile(path, content);
      UpdateState(t, Committed, None);
      r := Saved;
      if path !in files || files[path] != content {
        UpdateState(t, Indeterminate, None);
        r := WriteFailed;
      }
    }

    /** A single write dies anywhere; recovery never touches the file, and labels the transaction by what
        the file holds. */
    method CrashedWriteThenRecover(pid: Pid, others: set<Pid>, path: Path, create: bool, content: Content, life: nat)
      returns (t: TxnId, landed: bool)
      requires Valid() && pid !in others && (create <==> path !in files) && !(create && content == "")
      modifies this
      ensures files == if landed then old(files)[path := content] else old(files)
      ensures t in txns && txns[t].state.Some? && files != old(files) ==> txns[t].Is(Committed)
      ensures t in txns && txns[t].Is(Committed) ==> path in files && files[path] == content
      ensures t in txns && txns[t].Is(Abandoned) ==> files == old(files)
      ensures landed ==> t in txns && (txns[t].Is(Committed) || files == old(files))
      ensures t in txns && txns[t].state.Some? ==> txns[t].Is(Committed) || txns[t].Is(Abandoned)
      ensures txns == SettleAll(files, others, txns)
    {
      fuel := life;
      var before := files;
      var r;
      t, r := WriteSymbol(pid, path, create, content, false);
      landed := files != before;
      fuel := |txns| + 1;
      label died:
      ghost var e := Edit(path, create, if create then "" else old(files)[path], content);
      if t in txns && txns[t].state.Some? && DiedWriting(files, txns[t], e) {
        CrashedWriteIsClassified(files, others, txns[t], e);
      }
      RecoverJournals(others);
      SettleIsIdempotent(files, others, old@died(txns));
    }

    /** A write whose new hash is not recorded, since the state write that would do it fails unnoticed; it is committed,
        and then somebody else edits the file. */
    method WriteLosingHash(pid: Pid, path: Path, content: Content, foreign: Content) returns (t: TxnId)
      requires Valid() && path in files && fuel >= 7
      modifies this
      ensures Valid() && files == old(files)[path := foreign]
      ensures t in txns && txns[t] == Edit(path, false, old(files)[path], content).AsTxn(pid, Committed, None, None)
    {
      var ok;
      t, ok := CreateJournal(pid, path, files[path], TxnState(Staged, None, false, None), 4);
      WriteFile(path, content);
      UpdateState(t, Committed, None);
      WriteFile(path, foreign);
    }

    /** An undo then puts the backup back all the same, whatever the foreign content. */
    method LostHashThenUndo(pid: Pid, path: Path, content: Content, foreign: Content) returns (t: TxnId)
      requires Valid() && path in files && content != files[path] && foreign != files[path]
      modifies this
      ensures files == old(files)
    {
      fuel := 7;
      t := WriteLosingHash(pid, path, content, foreign);
      ghost var edited, journals := files, txns;
      UndoOverwritesIff(edited, journals[t]);
      fuel := 2 * |txns| + 3;
      var u := RestoreJournal(t, {});
      SoleRevert(old(files), edited, files, journals[t], path);
    }

    /** Write, then undo: the files are as before, for every single write. */
    method WriteThenUndo(pid: Pid, path: Path, create: bool, content: Content)
      requires Valid() && (create <==> path !in files)
      modifies this
      ensures files == old(files)
    {
      fuel := 8;
      var t, r := WriteSymbol(pid, path, create, content, false);
      ghost var e := Edit(path, create, if create then "" else old(files)[path], content);
      UndoInvertsEdit(old(files), txns[t], e);
      fuel := 2 * |txns| + 1;
      label written:
      var u := RestoreJournal(t, {});
      SoleRevert(old(files), old@written(files), files, old@written(txns)[t], path);
    }

    /** Write a batch, then undo it through any of its members: the files are as before. */
    method WriteBatchThenUndo(pid: Pid, b: BatchId, es: seq<Edit>, k: nat)
      requires Valid() && Wellformed(es) && k < |es| && AllOld(files, es) && marker.None? && batchLock.None?
      requires forall t :: t in txns && txns[t].state.Some? ==> txns[t].state.value.batch != Some(b)
      modifies this
      ensures files == old(files)
    {
      fuel := 8 * |es| + 5;
      var r := WriteSymbols(pid, {pid}, b, es, None, 0);
      ghost var written, journals := files, txns;
      BatchUndoReady(old(files), old(txns), files, txns, pid, b, es, r.ids);
      fuel := 2 * |txns| + 1;
      assert InBatch(b) == AsSet(r.ids);
      var u := RestoreJournal(r.ids[k], {});
      assert forall t :: t in AsSet(r.ids) ==> MemberUndone(written, journals, t);
      BatchRestored(old(files), written, files, old(txns), journals, pid, b, es, r.ids);
    }
  }
}

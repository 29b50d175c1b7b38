/** Writers of one file under the `.mlock` lock file, interleaved in any order
    (malong/write-runtime.js: acquireLock, classifyConflict, writeSymbol). */
module FileLock {
  import opened Common

  // ---- The conflict state machine ----

  /** The hashes a caller read earlier (base_version), each possibly missing. */
  datatype SymbolVersion = SymbolVersion(body: Option<Digest>, signature: Option<Digest>)
  datatype Base = Base(fileHash: Option<Digest>, truncated: bool, symbol: Option<SymbolVersion>)

  /** The hashes read under the lock; `symbol` is None when the target symbol is gone. */
  datatype Current = Current(fileHash: Digest, symbol: Option<SymbolVersion>)

  datatype Conflict =
    | Clean | FileChangedSymbolStable
    | FileChanged | SymbolChanged | SymbolSignatureChanged | SymbolDeleted | NoBase

  function SameHash(a: Option<Digest>, b: Option<Digest>): bool {
    a.Some? && b.Some? && a == b
  }

  function ClassifyConflict(base: Base, cur: Current, symbolMode: bool): Conflict {
    if base.fileHash.None? then NoBase
    else if symbolMode && cur.symbol.None? then SymbolDeleted
    else if base.truncated && !symbolMode then Clean
    else
      var baseBody := if base.symbol.Some? then base.symbol.value.body else None;
      var curBody := if cur.symbol.Some? then cur.symbol.value.body else None;
      var baseSig := if base.symbol.Some? then base.symbol.value.signature else None;
      var curSig := if cur.symbol.Some? then cur.symbol.value.signature else None;
      if base.fileHash.value == cur.fileHash then
        if !symbolMode then Clean
        else if SameHash(baseBody, curBody) then Clean
        else if baseBody.None? then Clean
        else SymbolChanged
      else if !symbolMode then FileChanged
      else if SameHash(baseBody, curBody) then FileChangedSymbolStable
      else if baseSig.Some? && curSig.Some? && baseSig != curSig then SymbolSignatureChanged
      else SymbolChanged
  }

  /** CONFLICT_POLICY: everything but these two is rejected. */
  predicate Allowed(c: Conflict) {
    c == Clean || c == FileChangedSymbolStable
  }

  /** When a write gets past the conflict check. A file-level write with an untruncated base does so exactly
      if the file is byte for byte the one its base names; a symbol-level write, exactly if its symbol still
      exists with the body its base names, or its base names no body and the whole file is unchanged. */
  lemma {:induction false} AllowedMeaning(base: Base, cur: Current, symbolMode: bool)
    ensures !symbolMode && !base.truncated ==>
              (Allowed(ClassifyConflict(base, cur, false)) <==> base.fileHash == Some(cur.fileHash))
    ensures symbolMode ==>
              (Allowed(ClassifyConflict(base, cur, true)) <==>
                 && base.fileHash.Some? && cur.symbol.Some?
                 && if base.symbol.Some? && base.symbol.value.body.Some? then
                        base.symbol.value.body == cur.symbol.value.body
                    else base.fileHash == Some(cur.fileHash))
  {}

  /** And what it is called when it is refused, or passes. The answers exclude each other. */
  lemma {:induction false} ConflictMeaning(base: Base, cur: Current, symbolMode: bool)
    ensures var c := ClassifyConflict(base, cur, symbolMode);
            var sameFile := base.fileHash == Some(cur.fileHash);
            var named := if base.symbol.Some? then base.symbol.value.body else None;
            var found := if cur.symbol.Some? then cur.symbol.value.body else None;
            var sameBody := named.Some? && named == found;
            && (c == NoBase <==> base.fileHash.None?)
            && (base.fileHash.Some? && !symbolMode ==>
                  c == if base.truncated || sameFile then Clean else FileChanged)
            && (base.fileHash.Some? && symbolMode ==>
                  && (c == SymbolDeleted <==> cur.symbol.None?)
                  && (c == Clean <==> cur.symbol.Some? && sameFile && (sameBody || named.None?))
                  && (c == FileChangedSymbolStable <==> cur.symbol.Some? && !sameFile && sameBody)
                  && (c == SymbolSignatureChanged <==>
                        cur.symbol.Some? && !sameFile && !sameBody && SignaturesDiffer(base.symbol, cur.symbol))
                  && (c == SymbolChanged <==>
                        && cur.symbol.Some? && !sameBody && (sameFile ==> named.Some?)
                        && (!sameFile ==> !SignaturesDiffer(base.symbol, cur.symbol))))
  {}

  /** Both signatures are known, and they are not the same. */
  predicate SignaturesDiffer(a: Option<SymbolVersion>, b: Option<SymbolVersion>) {
    && a.Some? && b.Some? && a.value.signature.Some? && b.value.signature.Some?
    && a.value.signature != b.value.signature
  }

  // ---- The system: one file, its lock, its writers ----

  /** What a writer wants: an edit against a base (None: forced), or the creation of the file. The symbol a
      symbol-level write targets is seen through `view`. */
  datatype Request =
    | Edit(base: Option<Base>, symbolMode: bool, view: Content -> Option<SymbolVersion>)
    | Create

  datatype Stage =
    | Idle
    | Wants(request: Request)                 // checked what is checked before the lock
    | Locked(request: Request)
    | Checked(request: Request, basis: Content, planned: Content)
    | Closing

  /** One successful write: the content its edit was computed from, and what the rename replaced. */
  datatype Write = Write(request: Request, basis: Content, before: Option<Content>, after: Content)
  {
    /** Non-forced, file-level, with an untruncated base. */
    predicate HasFileBase() {
      request.Edit? && request.base.Some? && !request.symbolMode && !request.base.value.truncated
    }

    /** Non-forced and symbol-level. */
    predicate HasSymbolBase() {
      request.Edit? && request.base.Some? && request.symbolMode
    }
  }

  datatype System = System(file: Option<Content>, lock: Option<Pid>, dead: set<Pid>, stage: map<Pid, Stage>,
      log: seq<Write>)
  {
    function StageOf(p: Pid): Stage {
      if p in stage then stage[p] else Idle
    }

    function To(p: Pid, s: Stage): System {
      this.(stage := stage[p := s])
    }
  }

  datatype Action =
    | Begin(request: Request)
    | Acquire
    | StealStale       // stat + unlink of a lock whose holder is dead, as one step
    | StealLive        // unlink of a lock whose holder is alive: a misjudged age, or the two calls interleaved
    | Check(planned: Content)
    | Rename
    | Release
    | Crash

  /** The conflict check under the lock: the content to edit, or None when the write is refused. */
  function Admit(r: Request, file: Option<Content>): Option<Content> {
    match r
    case Create => Some("")
    case Edit(base, symbolMode, view) =>
      if file.None? then None
      else if base.None? then file
      else
        var cur := Current(Sha256(file.value), if symbolMode then view(file.value) else None);
        if Allowed(ClassifyConflict(base.value, cur, symbolMode)) then file else None
  }

  /** One step of process p; an action that is not enabled does nothing. */
  function Step(s: System, p: Pid, a: Action): System {
    if p in s.dead then s else
    match a
    case Begin(r) =>
      // existence is looked at before the lock is taken
      if s.StageOf(p).Idle? && (r.Create? <==> s.file.None?) then s.To(p, Wants(r)) else s
    case Acquire =>
      if s.StageOf(p).Wants? && s.lock.None? then s.(lock := Some(p)).To(p, Locked(s.StageOf(p).request)) else s
    case StealStale =>
      if s.StageOf(p).Wants? && s.lock.Some? && s.lock.value in s.dead then s.(lock := None) else s
    case StealLive =>
      if s.StageOf(p).Wants? then s.(lock := None) else s
    case Check(planned) =>
      if s.StageOf(p).Locked? then s.To(p, CheckedStage(s.StageOf(p).request, s.file, planned)) else s
    case Rename =>
      if s.StageOf(p).Checked? then Renamed(s, p, s.StageOf(p)) else s
    case Release =>
      if s.StageOf(p).Closing? then s.(lock := if s.lock == Some(p) then None else s.lock).To(p, Idle) else s
    case Crash => s.(dead := s.dead + {p})
  }

  function CheckedStage(r: Request, file: Option<Content>, planned: Content): Stage {
    match Admit(r, file)
    case Some(basis) => Checked(r, basis, planned)
    case None => Closing
  }

  function Renamed(s: System, p: Pid, c: Stage): System
    requires c.Checked?
  {
    s.(file := Some(c.planned), log := s.log + [Write(c.request, c.basis, s.file, c.planned)]).To(p, Closing)
  }

  /** What the check under the lock has to find for an edit to go on, in terms of the file and of what the base
      names. */
  ghost predicate MayEdit(base: Option<Base>, symbolMode: bool, view: Content -> Option<SymbolVersion>, file: Content) {
    base.Some? ==>
      && base.value.fileHash.Some?
      && if symbolMode then StillNamed(base.value, view(file), file)
         else base.value.truncated || base.value.fileHash.value == Sha256(file)
  }

  /** The symbol exists and has the body the base names; or the base names none, and the file is unchanged. */
  ghost predicate StillNamed(base: Base, found: Option<SymbolVersion>, file: Content) {
    && found.Some?
    && if base.symbol.Some? && base.symbol.value.body.Some? then found.value.body == base.symbol.value.body
       else base.fileHash == Some(Sha256(file))
  }

  /** The check under the lock: an edit goes on exactly if the file is there and is what its base names, with the
      file as it is now for its basis; a creation always does; whoever does not gives up. Nothing else changes. */
  lemma {:induction false} CheckMeaning(s: System, p: Pid, planned: Content)
    requires p !in s.dead && s.StageOf(p).Locked?
    ensures var s' := Step(s, p, Check(planned));
            && s' == s.(stage := s'.stage) && (forall q :: q != p ==> s'.StageOf(q) == s.StageOf(q))
            && match s.StageOf(p).request
               case Create => s'.StageOf(p) == Checked(Create, "", planned)
               case Edit(base, symbolMode, view) =>
                 s'.StageOf(p) == if s.file.Some? && MayEdit(base, symbolMode, view, s.file.value)
                                  then Checked(s.StageOf(p).request, s.file.value, planned) else Closing
  {
    match s.StageOf(p).request
    case Create =>
    case Edit(base, symbolMode, view) =>
      if s.file.Some? && base.Some? {
        ConflictMeaning(base.value, Current(Sha256(s.file.value), if symbolMode then view(s.file.value) else None),
            symbolMode);
      }
  }

  /** A run: states linked by steps, from a state with no lock, no writer under way and an empty log. */
  ghost predicate IsRun(states: seq<System>, steps: seq<(Pid, Action)>) {
    && |states| == |steps| + 1 && Initial(states[0])
    && forall i :: 0 <= i < |steps| ==> states[i+1] == Step(states[i], steps[i].0, steps[i].1)
  }

  predicate Initial(s: System) {
    s.lock.None? && s.stage == map[] && s.log == []
  }

  ghost predicate NeverStealsLive(steps: seq<(Pid, Action)>) {
    forall i :: 0 <= i < |steps| ==> steps[i].1 != StealLive
  }

  predicate Holds(s: System, p: Pid) {
    p !in s.dead && (s.StageOf(p).Locked? || s.StageOf(p).Checked? || s.StageOf(p).Closing?)
  }

  /** At most one live writer is between its lock and its release; what it checked is still the file; and
      every recorded write replaced what it was computed from. */
  ghost predicate Inv(s: System) {
    && (forall p: Pid :: Holds(s, p) ==> s.lock == Some(p))
    && (forall p: Pid :: Holds(s, p) && s.StageOf(p).Checked? && s.StageOf(p).request.Edit? ==>
          s.file == Some(s.StageOf(p).basis) && Admit(s.StageOf(p).request, s.file) == s.file)
    && (forall i :: 0 <= i < |s.log| && s.log[i].request.Edit? ==>
          s.log[i].before == Some(s.log[i].basis) && Admit(s.log[i].request, s.log[i].before) == s.log[i].before)
    && (forall i :: 0 < i < |s.log| ==> s.log[i].before == Some(s.log[i-1].after))
    && (s.log != [] ==> s.file == Some(s.log[|s.log|-1].after))
  }

  lemma {:induction false} StepKeepsInv(s: System, p: Pid, a: Action)
    requires Inv(s) && a != StealLive
    ensures Inv(Step(s, p, a))
  {
    var s' := Step(s, p, a);
    forall q: Pid | Holds(s', q)
      ensures s'.lock == Some(q)
    {
      if q != p {
        assert Holds(s, q) && s'.StageOf(q) == s.StageOf(q);
      }
    }
    forall q: Pid | Holds(s', q) && s'.StageOf(q).Checked? && s'.StageOf(q).request.Edit?
      ensures s'.file == Some(s'.StageOf(q).basis) && Admit(s'.StageOf(q).request, s'.file) == s'.file
    {
      if q != p {
        assert Holds(s, q) && s'.StageOf(q) == s.StageOf(q);
        assert !Holds(s, p);
        assert s'.file == s.file;
      }
    }
  }

  lemma {:induction false} RunKeepsInv(states: seq<System>, steps: seq<(Pid, Action)>, n: nat)
    requires IsRun(states, steps) && NeverStealsLive(steps) && n < |states|
    ensures Inv(states[n])
  {
    if n > 0 {
      RunKeepsInv(states, steps, n - 1);
      StepKeepsInv(states[n-1], steps[n-1].0, steps[n-1].1);
    }
  }

  /** The successful writes of a run. */
  function Writes(states: seq<System>): seq<Write>
    requires states != []
  {
    states[|states|-1].log
  }

  /** No lost update. In every interleaving in which no live holder is judged stale: the successful writes
      form a chain; an edit always replaces exactly the content it was computed from; with a file-level
      base that content is exactly what the base names; and with a symbol-level base its symbol is there, with the
      body that the base names, or the whole content is what the base names. */
  lemma {:induction false} NoLostUpdate(states: seq<System>, steps: seq<(Pid, Action)>)
    requires IsRun(states, steps) && NeverStealsLive(steps)
    ensures var log := Writes(states);
            && (forall i :: 0 < i < |log| ==> log[i].before == Some(log[i-1].after))
            && (forall i :: 0 <= i < |log| && log[i].request.Edit? ==> log[i].before == Some(log[i].basis))
            && (forall i :: 0 <= i < |log| && log[i].HasFileBase() ==>
                  log[i].before.Some? && log[i].request.base.value.fileHash == Some(Sha256(log[i].before.value)))
            && (forall i :: 0 <= i < |log| && log[i].HasSymbolBase() ==>
                  && log[i].before.Some? && log[i].request.base.value.fileHash.Some?
                  && StillNamed(log[i].request.base.value, log[i].request.view(log[i].before.value),
                         log[i].before.value))
  {
    RunKeepsInv(states, steps, |steps|);
    var log := Writes(states);
    forall i | 0 <= i < |log| && log[i].HasSymbolBase()
      ensures && log[i].before.Some? && log[i].request.base.value.fileHash.Some?
              && StillNamed(log[i].request.base.value, log[i].request.view(log[i].before.value), log[i].before.value)
    {
      var file := log[i].before.value;
      ConflictMeaning(log[i].request.base.value, Current(Sha256(file), log[i].request.view(file)), true);
    }
    forall i | 0 <= i < |log| && log[i].HasFileBase()
      ensures log[i].before.Some? && log[i].request.base.value.fileHash == Some(Sha256(log[i].before.value))
    {
      AllowedMeaning(log[i].request.base.value, Current(Sha256(log[i].before.value), None), false);
    }
  }

  /** Two writers that started from the same base and both changed the file can only both have succeeded if
      somebody in between put the base content back. */
  lemma {:induction false} SameBaseTwice(states: seq<System>, steps: seq<(Pid, Action)>, i: nat, j: nat)
    requires IsRun(states, steps) && NeverStealsLive(steps)
    requires var log := Writes(states);
             && i < j < |log| && log[i].HasFileBase() && log[j].HasFileBase()
             && log[i].request.base.value.fileHash == log[j].request.base.value.fileHash
             && log[i].before != Some(log[i].after)
    ensures var log := Writes(states);
            i < j - 1 && Some(log[j-1].after) == log[i].before
  {
    NoLostUpdate(states, steps);
  }

  /** So when every writer starts from one base and changes the file, at most one succeeds. */
  lemma {:induction false} AtMostOneFromOneBase(states: seq<System>, steps: seq<(Pid, Action)>, base: Base)
    requires IsRun(states, steps) && NeverStealsLive(steps)
    requires forall w :: w in Writes(states) ==>
               w.HasFileBase() && w.request.base.value.fileHash == base.fileHash && w.before != Some(w.after)
    ensures |Writes(states)| <= 1
  {
    var log := Writes(states);
    if |log| >= 2 {
      assert log[0] in log && log[1] in log;
      SameBaseTwice(states, steps, 0, 1);
    }
  }

  // ---- Creations ----

  /** Nobody writes while a living process is between its lock and its release. */
  lemma {:induction false} HolderIsAlone(states: seq<System>, steps: seq<(Pid, Action)>, p: Pid, m: nat, n: nat)
    requires IsRun(states, steps) && NeverStealsLive(steps) && m <= n < |states|
    requires forall k :: m <= k <= n ==> Holds(states[k], p)
    requires forall k :: m <= k < n ==> steps[k] != (p, Rename)
    ensures states[n].file == states[m].file && states[n].log == states[m].log
  {
    if m < n {
      HolderIsAlone(states, steps, p, m, n - 1);
      RunKeepsInv(states, steps, n - 1);
      assert states[n-1+1] == Step(states[n-1], steps[n-1].0, steps[n-1].1);
      assert steps[n-1].1 == Rename ==> steps[n-1].0 == p || !Holds(states[n-1], steps[n-1].0);
    }
  }

  /** A creation is only begun where there is no file, and there is none until the first write. */
  ghost predicate CreatesAfterLook(s: System, first: Option<Content>) {
    && (s.log == [] ==> s.file == first)
    && (s.log != [] ==> s.log[0].before == first)
    && (forall p: Pid :: Creating(s.StageOf(p)) ==> first.None?)
    && (forall i :: 0 <= i < |s.log| && s.log[i].request.Create? ==> first.None?)
  }

  predicate Creating(stage: Stage) {
    (stage.Wants? || stage.Locked? || stage.Checked?) && stage.request.Create?
  }

  lemma {:induction false} RunCreatesAfterLook(states: seq<System>, steps: seq<(Pid, Action)>, n: nat)
    requires IsRun(states, steps) && NeverStealsLive(steps) && n < |states|
    ensures CreatesAfterLook(states[n], states[0].file)
  {
    if n > 0 {
      RunCreatesAfterLook(states, steps, n - 1);
      RunKeepsInv(states, steps, n - 1);
      StepCreatesAfterLook(states[n-1], steps[n-1].0, steps[n-1].1, states[0].file);
      assert states[n-1+1] == Step(states[n-1], steps[n-1].0, steps[n-1].1);
    }
  }

  lemma {:induction false} StepCreatesAfterLook(s: System, p: Pid, a: Action, first: Option<Content>)
    requires CreatesAfterLook(s, first) && Inv(s)
    ensures CreatesAfterLook(Step(s, p, a), first)
  {
    var s' := Step(s, p, a);
    forall q: Pid | Creating(s'.StageOf(q)) ensures first.None? {
      if q != p {
        assert s'.StageOf(q) == s.StageOf(q);
      } else if !Creating(s.StageOf(p)) {
        assert a.Begin? && s.file.None?;
      }
    }
  }

  /** When a creation overwrites. In every run in which no live holder is judged stale, of the successful creations
      exactly the one that is the first write of all finds no file; every other one replaces what the write before it
      left, though there was no file when it looked. */
  lemma {:induction false} CreateOverwritesIff(states: seq<System>, steps: seq<(Pid, Action)>, i: nat)
    requires IsRun(states, steps) && NeverStealsLive(steps)
    requires i < |Writes(states)| && Writes(states)[i].request.Create?
    ensures states[0].file.None?
    ensures Writes(states)[i].before.None? <==> i == 0
    ensures i > 0 ==> Writes(states)[i].before == Some(Writes(states)[i-1].after)
  {
    RunCreatesAfterLook(states, steps, |steps|);
    RunKeepsInv(states, steps, |steps|);
    var log := states[|steps|].log;
    assert Writes(states) == log && log[i].request.Create? && log != [];
    assert i > 0 ==> log[i].before == Some(log[i-1].after);
  }

  /** Seen from the writer: it looks at step b, gets the lock at step m and renames at step n. It overwrites exactly
      if the file was there when it got the lock, that is, if somebody wrote since it looked. */
  lemma {:induction false} CreateOverwritesWhatCameBetween(states: seq<System>, steps: seq<(Pid, Action)>, p: Pid,
                                                           b: nat, m: nat, n: nat)
    requires IsRun(states, steps) && NeverStealsLive(steps) && b < m < n < |steps|
    requires steps[b] == (p, Begin(Create)) && states[b+1].StageOf(p) == Wants(Create) && states[b].StageOf(p).Idle?
    requires forall k :: m <= k <= n ==> Holds(states[k], p)
    requires forall k :: m <= k < n ==> steps[k] != (p, Rename)
    requires steps[n] == (p, Rename) && states[n].StageOf(p).Checked? && states[n].StageOf(p).request.Create?
    ensures var w := states[n+1].log;
            && w != [] && w[|w|-1].request.Create? && w[|w|-1].before == states[m].file
            && (w[|w|-1].before.Some? <==> |states[m].log| > |states[b].log|)
  {
    HolderIsAlone(states, steps, p, m, n);
    RunKeepsInv(states, steps, m);
    RunCreatesAfterLook(states, steps, m);
    RunCreatesAfterLook(states, steps, b);
    assert states[b+1] == Step(states[b], p, Begin(Create)) && states[n+1] == Step(states[n], p, Rename);
    assert states[b].file.None?;
    RunKeepsInv(states, steps, b);
    LogGrows(states, steps, b, m);
  }

  lemma {:induction false} LogGrows(states: seq<System>, steps: seq<(Pid, Action)>, m: nat, n: nat)
    requires IsRun(states, steps) && m <= n < |states|
    ensures |states[m].log| <= |states[n].log|
  {
    if m < n {
      LogGrows(states, steps, m, n - 1);
      assert states[n-1+1] == Step(states[n-1], steps[n-1].0, steps[n-1].1);
    }
  }

  // ---- The hypotheses are needed ----

  /** A run goes on with one more step. */
  lemma {:induction false} Then(states: seq<System>, steps: seq<(Pid, Action)>, p: Pid, a: Action)
    returns (states': seq<System>, steps': seq<(Pid, Action)>, last: System)
    requires IsRun(states, steps)
    ensures IsRun(states', steps') && states'[0] == states[0]
    ensures last == states'[|states'|-1] == Step(states[|states|-1], p, a)
    ensures NeverStealsLive(steps) && a != StealLive ==> NeverStealsLive(steps')
  {
    last := Step(states[|states|-1], p, a);
    states', steps' := states + [last], steps + [(p, a)];
  }

  /** From admission to rename, and from rename to release, nothing interferes. */
  lemma {:induction false} WritesUndisturbed(states: seq<System>, steps: seq<(Pid, Action)>, p: Pid, c: Content)
    returns (states': seq<System>, steps': seq<(Pid, Action)>, last: System)
    requires IsRun(states, steps)
    requires var s := states[|states|-1];
             p !in s.dead && s.lock.None? && s.StageOf(p).Wants? && Admit(s.StageOf(p).request, s.file).Some?
    ensures IsRun(states', steps') && states'[0] == states[0] && last == states'[|states'|-1]
    ensures NeverStealsLive(steps) ==> NeverStealsLive(steps')
    ensures var s := states[|states|-1];
            var r := s.StageOf(p).request;
            && last ==
                   s.(file := Some(c), lock := Some(p),
                       log := s.log + [Write(r, Admit(r, s.file).value, s.file, c)]).To(p, Closing)
  {
    var s := states[|states|-1];
    var r := s.StageOf(p).request;
    states', steps', last := Then(states, steps, p, Acquire);
    assert last == s.(lock := Some(p)).To(p, Locked(r));
    states', steps', last := Then(states', steps', p, Check(c));
    assert last == s.(lock := Some(p)).To(p, Checked(r, Admit(r, s.file).value, c));
    states', steps', last := Then(states', steps', p, Rename);
  }

  /** A writer that finds the lock free, or held by a dead process, and is not disturbed gets through: it looks, takes
      the lock from the dead if need be, locks, checks, writes and releases. Its file is written exactly once, and the
      lock is free again. */
  lemma {:induction false} AloneSucceeds(states: seq<System>, steps: seq<(Pid, Action)>, p: Pid, r: Request, c: Content)
    returns (states': seq<System>, steps': seq<(Pid, Action)>, last: System)
    requires IsRun(states, steps)
    requires var s := states[|states|-1];
             && p !in s.dead && s.StageOf(p).Idle? && (s.lock.Some? ==> s.lock.value in s.dead)
             && (r.Create? ==> s.file.None?)
             && (r.Edit? ==> s.file.Some? && MayEdit(r.base, r.symbolMode, r.view, s.file.value))
    ensures IsRun(states', steps') && last == states'[|states'|-1] &&
              (NeverStealsLive(steps) ==> NeverStealsLive(steps'))
    ensures var s := states[|states|-1];
            && last.file == Some(c) && last.lock.None? && last.StageOf(p).Idle? && last.dead == s.dead
            && last.log == s.log + [Write(r, if r.Create? then "" else s.file.value, s.file, c)]
            && forall q :: q != p ==> last.StageOf(q) == s.StageOf(q)
  {
    var s := states[|states|-1];
    states', steps', last := Then(states, steps, p, Begin(r));
    assert last == s.To(p, Wants(r));
    if last.lock.Some? {
      states', steps', last := Then(states', steps', p, StealStale);
    }
    assert last == s.(lock := None).To(p, Wants(r));
    CheckMeaning(last.To(p, Locked(r)), p, c);
    states', steps', last := WritesUndisturbed(states', steps', p, c);
    assert last.StageOf(p).Closing? && last.lock == Some(p);
    states', steps', last := Then(states', steps', p, Release);
  }

  /** Whose turn it is: a dead writer does nothing any more; one that lives takes a lock, another's lock away, a
      look, the rename and the release only in this order. */
  ghost predicate InTurn(s: System, p: Pid, a: Action) {
    && p !in s.dead
    && match a
       case Begin(_) => s.StageOf(p).Idle?
       case Acquire => s.StageOf(p).Wants?
       case StealStale => s.StageOf(p).Wants?
       case StealLive => s.StageOf(p).Wants?
       case Check(_) => s.StageOf(p).Locked?
       case Rename => s.StageOf(p).Checked?
       case Release => s.StageOf(p).Closing?
       case Crash => true
  }

  /** Out of turn nothing changes, and a step moves no other writer on. A lock that a living process holds is not
      obtained, and it goes only by its own release, or if it is taken from it while it lives. */
  lemma {:induction false} LockExcludes(s: System, p: Pid, a: Action)
    ensures !InTurn(s, p, a) ==> Step(s, p, a) == s
    ensures forall q :: q != p ==> Step(s, p, a).StageOf(q) == s.StageOf(q)
    ensures Step(s, p, a).dead == s.dead + if a == Crash then {p} else {}
    ensures s.lock.Some? && a == Acquire ==> Step(s, p, a) == s
    ensures s.lock.Some? && Step(s, p, a).lock != s.lock ==>
              Step(s, p, a).lock.None? &&
                  (s.lock.value in s.dead || a == StealLive || (a == Release && s.lock == Some(p)))
  {
    if !InTurn(s, p, a) {
      assert Step(s, p, a) == s;
    }
  }

  /** The holder of the lock dies: the next writer gets the lock. */
  lemma {:induction false} DeadHolderIsReplaced(s: System, p: Pid, q: Pid)
    requires Inv(s) && Holds(s, p) && p != q && q !in s.dead && s.StageOf(q).Wants?
    ensures var t := Step(Step(Step(s, p, Crash), q, StealStale), q, Acquire);
            t == s.(dead := s.dead + {p}, lock := Some(q)).To(q, Locked(s.StageOf(q).request)) && Holds(t, q)
  {
    var s1 := Step(s, p, Crash);
    assert s1.lock == Some(p) && s1.StageOf(q) == s.StageOf(q);
    var s2 := Step(s1, q, StealStale);
    assert s2 == s1.(lock := None);
  }

  /** A lock taken from a live holder (the age limit misjudged, or two processes interleaving stat and
      unlink) loses an update: both writers succeed from the same base, whatever they write. */
  lemma {:induction false} LiveStealLosesUpdate(base: Content, b: Content, c: Content)
      returns (states: seq<System>, steps: seq<(Pid, Action)>)
    ensures IsRun(states, steps) && states[0].file == Some(base)
    ensures var log := Writes(states);
            && |log| == 2 && log[0].request == log[1].request && log[0].HasFileBase()
            && log[0].before == Some(base) && log[0].after == c
            && log[1].basis == base && log[1].before == Some(c) && log[1].after == b
  {
    var r := Edit(Some(Base(Some(Sha256(base)), false, None)), false, x => None);
    var last := System(Some(base), None, {}, map[], []);
    states, steps := [last], [];
    states, steps, last := Then(states, steps, 1, Begin(r));
    states, steps, last := Then(states, steps, 1, Acquire);
    states, steps, last := Then(states, steps, 1, Check(b));
    assert last.StageOf(1) == Checked(r, base, b);
    states, steps, last := Then(states, steps, 2, Begin(r));
    states, steps, last := Then(states, steps, 2, StealLive);
    states, steps, last := WritesUndisturbed(states, steps, 2, c);
    assert last.StageOf(1) == Checked(r, base, b) && last.log == [Write(r, base, Some(base), c)];
    states, steps, last := Then(states, steps, 1, Rename);
  }

  /** A creation can overwrite even with perfect locking: the existence check comes before the lock, so two concurrent
      creators can both succeed, the second over the first. */
  lemma {:induction false} CreatorsOverwrite(x: Content, y: Content)
      returns (states: seq<System>, steps: seq<(Pid, Action)>)
    ensures IsRun(states, steps) && NeverStealsLive(steps)
    ensures var log := Writes(states);
            && |log| == 2 && log[0].request == Create && log[1].request == Create
            && log[0].before == None && log[0].after == x
            && log[1].basis == "" && log[1].before == Some(x) && log[1].after == y
  {
    var last := System(None, None, {}, map[], []);
    states, steps := [last], [];
    states, steps, last := Then(states, steps, 1, Begin(Create));
    states, steps, last := Then(states, steps, 2, Begin(Create));
    states, steps, last := WritesUndisturbed(states, steps, 1, x);
    states, steps, last := Then(states, steps, 1, Release);
    assert last.StageOf(2) == Wants(Create) && last.lock == None && last.file == Some(x);
    states, steps, last := WritesUndisturbed(states, steps, 2, y);
  }
}

/** The claim on one request id: an exclusive file, taken over from owners that died
    (malong/tools/outlet-ledger.js: ledgerClaim, takeOverStaleClaim, ledgerRelease). */
module Claims {
  import opened Common

  /** A claim file: who created it, and whether the pid has been written into it yet. */
  datatype Claim = Claim(owner: Pid, written: bool)

  /** A takeover lock; the ticket tells one from the next of the same owner. */
  datatype Lock = Lock(owner: Pid, ticket: nat)

  /** Where a process is in ledgerClaim and takeOverStaleClaim. `k` is the attempt. */
  datatype Pc =
    | Idle
    | Trying(k: nat)                    // about to open the claim exclusively
    | Writing                           // created the claim, about to write its pid
    | Holding                           // was told that the claim is its own
    | Seen(k: nat)                      // the claim exists, about to judge its holder
    | TakingOver(k: nat)                // about to open the takeover lock exclusively
    | LockSeen(k: nat)                  // the lock exists, about to look at its age
    | LockStale(k: nat, seen: Lock)     // judged the lock stale, about to unlink it
    | LockGone(k: nat)                  // unlinked it, about to open it again
    | Locked(k: nat)                    // has the lock, about to judge the holder once more
    | Doomed(k: nat)                    // judged dead again, about to unlink the claim
    | Unlocking(k: nat, ok: bool)       // about to unlink the lock

  datatype State = State(claim: Option<Claim>, lock: Option<Lock>, pcs: map<Pid, Pc>, live: set<Pid>, tickets: nat) {
    function Of(p: Pid): Pc {
      if p in pcs then pcs[p] else Idle
    }
    function At(p: Pid, pc: Pc): State {
      this.(pcs := pcs[p := pc])
    }
  }

  /** What a process does next; `aged` is the verdict on the age of a file where there is one to give. */
  datatype Action =
    | Start(p: Pid)
    | Go(p: Pid, aged: bool)
    | Release(p: Pid)
    | Crash(p: Pid)

  predicate Enabled(s: State, a: Action) {
    && a.p in s.live
    && match a
       case Start(p) => s.Of(p) == Idle
       case Go(p, _) => s.Of(p) != Idle && s.Of(p) != Holding
       case Release(p) => s.Of(p) == Holding
       case Crash(p) => true
  }

  /** claimHolderState says dead, or stale. */
  predicate Gone(s: State, aged: bool) {
    && s.claim.Some?
    && if s.claim.value.written then s.claim.value.owner !in s.live else aged
  }

  function Next(s: State, a: Action): State {
    match a
    case Start(p) => s.At(p, Trying(0))
    case Release(p) => s.(claim := None).At(p, Idle)
    case Crash(p) => s.(live := s.live - {p})
    case Go(p, aged) =>
      match s.Of(p)
      case Idle => s
      case Holding => s
      case Trying(k) =>
        if k >= 2 then s.At(p, Idle)
        else if s.claim.None? then s.(claim := Some(Claim(p, false))).At(p, Writing)
        else s.At(p, Seen(k))
      case Writing =>
        (if s.claim == Some(Claim(p, false)) then s.(claim := Some(Claim(p, true))) else s).At(p, Holding)
      case Seen(k) => s.At(p, if Gone(s, aged) then TakingOver(k) else Idle)
      case TakingOver(k) => if s.lock.None? then GetLock(s, p, k) else s.At(p, LockSeen(k))
      case LockSeen(k) => s.At(p, if s.lock.Some? && aged then LockStale(k, s.lock.value) else Idle)
      case LockStale(k, _) => if s.lock.None? then s.At(p, Idle) else s.(lock := None).At(p, LockGone(k))
      case LockGone(k) => if s.lock.None? then GetLock(s, p, k) else s.At(p, Idle)
      case Locked(k) => s.At(p, if Gone(s, aged) then Doomed(k) else Unlocking(k, false))
      case Doomed(k) => s.(claim := None).At(p, Unlocking(k, s.claim.Some?))
      case Unlocking(k, ok) => s.(lock := None).At(p, if ok then Trying(k + 1) else Idle)
  }

  function GetLock(s: State, p: Pid, k: nat): State {
    s.(lock := Some(Lock(p, s.tickets)), tickets := s.tickets + 1).At(p, Locked(k))
  }

  /** The two provisos. A claim whose pid is not yet written is judged stale only if its writer is dead; and a
      takeover lock that is unlinked as stale is still the one that was judged, and its owner is dead. */
  ghost predicate InTime(s: State, a: Action) {
    a.Go? ==>
      match s.Of(a.p)
      case Seen(_) => WriteInTime(s, a.aged)
      case Locked(_) => WriteInTime(s, a.aged)
      case LockStale(_, seen) => s.lock.Some? ==> s.lock.value == seen && seen.owner !in s.live
      case _ => true
  }

  ghost predicate WriteInTime(s: State, aged: bool) {
    s.claim.Some? && !s.claim.value.written && aged ==> s.claim.value.owner !in s.live
  }

  predicate HasClaim(s: State, p: Pid) {
    p in s.live && (s.Of(p) == Writing || s.Of(p) == Holding)
  }

  predicate HasLock(s: State, p: Pid) {
    p in s.live && (s.Of(p).Locked? || s.Of(p).Doomed? || s.Of(p).Unlocking?)
  }

  ghost predicate Inv(s: State) {
    && (forall p ::
           HasClaim(s, p) ==>
               s.claim.Some? && s.claim.value.owner == p && s.claim.value.written == (s.Of(p) == Holding))
    && (forall p :: HasLock(s, p) ==> s.lock.Some? && s.lock.value.owner == p)
    && (forall p :: p in s.live && s.Of(p).Doomed? ==> s.claim.Some? && s.claim.value.owner !in s.live)
  }

  lemma {:induction false} StepKeepsInv(s: State, a: Action)
    requires Inv(s) && Enabled(s, a) && InTime(s, a)
    ensures Inv(Next(s, a))
  {
    var t := Next(s, a);
    assert HasLock(s, a.p) ==> s.lock.Some? && s.lock.value.owner == a.p;
    assert HasClaim(s, a.p) ==> s.claim.Some? && s.claim.value.owner == a.p;
    forall q | q != a.p ensures t.Of(q) == s.Of(q) {
    }
    forall q | HasClaim(t, q) && q != a.p ensures HasClaim(s, q) {
    }
    forall q | HasLock(t, q) && q != a.p ensures HasLock(s, q) {
    }
    forall q | q in t.live && t.Of(q).Doomed? && q != a.p ensures q in s.live && s.Of(q).Doomed? && HasLock(s, q) {
    }
  }

  // ---- Runs ----

  ghost predicate IsRun(states: seq<State>, actions: seq<Action>) {
    && |states| == |actions| + 1
    && forall i :: 0 <= i < |actions| ==> Moves(states, i, actions[i])
  }

  ghost predicate Moves(states: seq<State>, i: nat, a: Action)
    requires i + 1 < |states|
  {
    Enabled(states[i], a) && states[i+1] == Next(states[i], a)
  }

  ghost predicate Initial(s: State) {
    s.claim.None? && s.lock.None? && forall p :: s.Of(p) == Idle
  }

  ghost predicate AllInTime(states: seq<State>, actions: seq<Action>)
    requires |states| == |actions| + 1
  {
    forall i :: 0 <= i < |actions| ==> InTime(states[i], actions[i])
  }

  /** Induction over runs, whatever the steps and the invariant. */
  lemma {:induction false} HoldsThroughout(states: seq<State>, actions: seq<Action>,
                                           good: (State, Action, State) -> bool, inv: State -> bool, n: nat)
    requires |states| == |actions| + 1 && n < |states| && inv(states[0])
    requires forall i :: 0 <= i < |actions| ==> good(states[i], actions[i], states[i+1])
    requires forall s, a, t :: good(s, a, t) && inv(s) ==> inv(t)
    ensures inv(states[n])
  {
    if n > 0 {
      HoldsThroughout(states, actions, good, inv, n - 1);
      assert good(states[n-1], actions[n-1], states[n-1+1]);
    }
  }

  ghost predicate Timely(s: State, a: Action, t: State) {
    Enabled(s, a) && t == Next(s, a) && InTime(s, a)
  }

  lemma {:induction false} RunKeepsInv(states: seq<State>, actions: seq<Action>, n: nat)
    requires IsRun(states, actions) && AllInTime(states, actions) && n < |states|
    requires Inv(states[0])
    ensures Inv(states[n])
  {
    forall i | 0 <= i < |actions| ensures Timely(states[i], actions[i], states[i+1]) {
      assert Moves(states, i, actions[i]);
    }
    forall s, a, t | Timely(s, a, t) && Inv(s) ensures Inv(t) {
      StepKeepsInv(s, a);
    }
    HoldsThroughout(states, actions, Timely, Inv, n);
  }

  /** In every run in time, at every moment, at most one living process has the claim. */
  lemma {:induction false} AtMostOneHolder(states: seq<State>, actions: seq<Action>, n: nat, p: Pid, q: Pid)
    requires IsRun(states, actions) && AllInTime(states, actions) && n < |states|
    requires Initial(states[0])
    requires HasClaim(states[n], p) && HasClaim(states[n], q)
    ensures p == q
  {
    RunKeepsInv(states, actions, n);
  }

  // ---- Obtaining the claim ----

  /** Some run leads from s to t. */
  ghost predicate Reaches(s: State, t: State) {
    exists states, actions :: IsRun(states, actions) && states[0] == s && states[|states|-1] == t
  }

  lemma {:induction false} ReachesItself(s: State)
    ensures Reaches(s, s)
  {
    assert IsRun([s], []);
  }

  lemma {:induction false} Then(s: State, t: State, a: Action) returns (u: State)
    requires Reaches(s, t) && Enabled(t, a)
    ensures u == Next(t, a) && Reaches(s, u)
  {
    u := Next(t, a);
    var states, actions :| IsRun(states, actions) && states[0] == s && states[|states|-1] == t;
    var states', actions' := states + [u], actions + [a];
    forall i | 0 <= i < |actions'| ensures Moves(states', i, actions'[i]) {
      if i < |actions| {
        assert Moves(states, i, actions[i]);
      }
    }
    assert IsRun(states', actions');
  }

  /** Nobody has the claim: a process that runs alone gets it. */
  lemma {:induction false} FreeClaimIsObtained(s: State, p: Pid) returns (t: State)
    requires p in s.live && s.Of(p) == Idle && s.claim.None?
    ensures Reaches(s, t) && t == s.(claim := Some(Claim(p, true))).At(p, Holding)
  {
    ReachesItself(s);
    t := Then(s, s, Start(p));
    t := Then(s, t, Go(p, false));
    t := Then(s, t, Go(p, false));
  }

  /** Its owner is dead, and nobody is taking it over: a process that runs alone takes it over and gets it, whatever
      it makes of ages; the takeover lock is gone again. */
  lemma {:induction false} DeadClaimIsObtained(s: State, p: Pid, aged: bool) returns (t: State)
    requires p in s.live && s.Of(p) == Idle && s.lock.None?
    requires s.claim.Some? && s.claim.value.written && s.claim.value.owner !in s.live
    ensures Reaches(s, t) && t.claim == Some(Claim(p, true)) && t.lock.None? && t.Of(p) == Holding && t.live == s.live
    ensures forall q :: q != p ==> t.Of(q) == s.Of(q)
  {
    ReachesItself(s);
    t := Then(s, s, Start(p));
    t := Then(s, t, Go(p, aged));
    t := Then(s, t, Go(p, aged));
    t := Then(s, t, Go(p, aged));
    assert t.Of(p) == Locked(0) && t.claim == s.claim;
    t := Then(s, t, Go(p, aged));
    t := TakesClaim(s, t, p);
  }

  /** Its owner lives: the process is told so and nothing has changed. */
  lemma {:induction false} LiveClaimIsLeft(s: State, p: Pid, aged: bool) returns (t: State)
    requires p in s.live && s.Of(p) == Idle
    requires s.claim.Some? && s.claim.value.written && s.claim.value.owner in s.live
    ensures Reaches(s, t) && t == s.At(p, Idle)
  {
    ReachesItself(s);
    t := Then(s, s, Start(p));
    t := Then(s, t, Go(p, aged));
    t := Then(s, t, Go(p, aged));
  }

  /** A takeover lock that is not old yet keeps everybody else from taking over. */
  lemma {:induction false} FreshLockKeepsOut(s: State, p: Pid) returns (t: State)
    requires p in s.live && s.Of(p) == Idle && s.lock.Some?
    requires s.claim.Some? && s.claim.value.written && s.claim.value.owner !in s.live
    ensures Reaches(s, t) && t == s.At(p, Idle)
  {
    ReachesItself(s);
    t := Then(s, s, Start(p));
    t := Then(s, t, Go(p, false));
    t := Then(s, t, Go(p, false));
    t := Then(s, t, Go(p, false));
    t := Then(s, t, Go(p, false));
  }

  /** Release makes the claim free again. */
  lemma {:induction false} ReleaseFrees(s: State, p: Pid) returns (t: State)
    requires p in s.live && s.Of(p) == Holding
    ensures Reaches(s, t) && t == s.(claim := None).At(p, Idle)
  {
    ReachesItself(s);
    t := Then(s, s, Release(p));
  }

  /** Its owner has not written its pid into it: it is taken over exactly if it is too old. */
  lemma {:induction false} UnwrittenClaimIsJudgedByAge(s: State, p: Pid, aged: bool) returns (t: State)
    requires p in s.live && s.Of(p) == Idle && s.lock.None? && s.claim.Some? && !s.claim.value.written
    ensures Reaches(s, t) && t.live == s.live && t.lock.None?
    ensures aged ==> t.claim == Some(Claim(p, true)) && t.Of(p) == Holding
    ensures !aged ==> t == s.At(p, Idle)
  {
    ReachesItself(s);
    t := Then(s, s, Start(p));
    t := Then(s, t, Go(p, aged));
    t := Then(s, t, Go(p, aged));
    if aged {
      t := Then(s, t, Go(p, true));
      t := Then(s, t, Go(p, true));
      t := TakesClaim(s, t, p);
    }
  }

  /** The holder dies, and another process that then runs alone gets the claim. */
  lemma {:induction false} CrashedHolderIsReplaced(s: State, p: Pid, q: Pid, aged: bool) returns (t: State)
    requires p != q && p in s.live && q in s.live && s.Of(p) == Holding && s.Of(q) == Idle
    requires s.claim == Some(Claim(p, true)) && s.lock.None?
    ensures Reaches(s, t) && t.claim == Some(Claim(q, true)) && t.lock.None? && t.Of(q) == Holding
    ensures t.live == s.live - {p}
  {
    ReachesItself(s);
    t := Then(s, s, Crash(p));
    t := Then(s, t, Start(q));
    t := Then(s, t, Go(q, aged));
    t := Then(s, t, Go(q, aged));
    t := Then(s, t, Go(q, aged));
    t := Then(s, t, Go(q, aged));
    t := TakesClaim(s, t, q);
  }

  /** Behind the takeover lock the holder turns out to live: the claim stays, and the lock goes. */
  lemma {:induction false} RevivedClaimIsLeft(s: State, p: Pid, aged: bool) returns (t: State)
    requires p in s.live && s.Of(p).Locked?
    requires s.claim.Some? && s.claim.value.written && s.claim.value.owner in s.live
    ensures Reaches(s, t) && t == s.(lock := None).At(p, Idle)
  {
    ReachesItself(s);
    t := Then(s, s, Go(p, aged));
    t := Then(s, t, Go(p, aged));
  }

  /** There is no third turn: after the second takeover the process gives up, even if the claim is free. */
  lemma {:induction false} SecondTurnIsLast(s: State, p: Pid, ok: bool) returns (t: State)
    requires p in s.live && s.Of(p) == Unlocking(1, ok)
    ensures Reaches(s, t) && t == s.(lock := None).At(p, Idle)
  {
    ReachesItself(s);
    t := Then(s, s, Go(p, false));
    if ok {
      t := Then(s, t, Go(p, false));
    }
  }

  /** A lock that was judged old and is gone meanwhile is not replaced. */
  lemma {:induction false} VanishedLockIsLeft(s: State, p: Pid) returns (t: State)
    requires p in s.live && s.Of(p).LockStale? && s.lock.None?
    ensures Reaches(s, t) && t == s.At(p, Idle)
  {
    ReachesItself(s);
    t := Then(s, s, Go(p, true));
  }

  /** A process whose new claim was taken from it before it wrote its pid writes into no other claim. */
  lemma {:induction false} LateWriteHitsNoOther(s: State, p: Pid) returns (t: State)
    requires p in s.live && s.Of(p) == Writing && s.claim != Some(Claim(p, false))
    ensures Reaches(s, t) && t == s.At(p, Holding)
  {
    ReachesItself(s);
    t := Then(s, s, Go(p, false));
  }

  // ---- The race for a stale lock ----

  /** A process comes to a claim whose owner is dead, and finds the takeover lock old. */
  lemma {:induction false} FindsStale(s: State, t: State, p: Pid) returns (u: State)
    requires Reaches(s, t) && p in t.live && t.Of(p) == Idle
    requires t.claim.Some? && t.claim.value.written && t.claim.value.owner !in t.live && t.lock.Some?
    ensures Reaches(s, u) && u == t.At(p, LockStale(0, t.lock.value))
  {
    u := Then(s, t, Start(p));
    u := Then(s, u, Go(p, true));
    u := Then(s, u, Go(p, true));
    u := Then(s, u, Go(p, true));
    u := Then(s, u, Go(p, true));
  }

  /** It unlinks whatever lock is there now, gets one of its own, and judges the claim once more. */
  lemma {:induction false} TakesLock(s: State, t: State, p: Pid) returns (u: State)
    requires Reaches(s, t) && p in t.live && t.Of(p).LockStale? && t.Of(p).k == 0
    requires t.claim.Some? && t.claim.value.written && t.claim.value.owner !in t.live && t.lock.Some?
    ensures Reaches(s, u) && u == t.(lock := Some(Lock(p, t.tickets)), tickets := t.tickets + 1).At(p, Doomed(0))
  {
    u := Then(s, t, Go(p, true));
    u := Then(s, u, Go(p, true));
    u := Then(s, u, Go(p, true));
  }

  /** It unlinks whatever claim is there now, unlinks the lock, and creates a claim of its own. */
  lemma {:induction false} TakesClaim(s: State, t: State, p: Pid) returns (u: State)
    requires Reaches(s, t) && p in t.live && t.Of(p) == Doomed(0) && t.claim.Some?
    ensures Reaches(s, u) && u == t.(claim := Some(Claim(p, true)), lock := None).At(p, Holding)
  {
    u := Then(s, t, Go(p, true));
    u := Then(s, u, Go(p, true));
    u := Then(s, u, Go(p, true));
    u := Then(s, u, Go(p, true));
  }

  /** Looking at the age of a takeover lock and unlinking it are two steps. After a crash that left a claim and a
      takeover lock behind, two processes may both find the lock old; the second then unlinks the lock that the
      first has made meanwhile, both take the claim over, and both hold it. */
  lemma {:induction false} StaleLockRace(p: Pid, q: Pid, dead: Pid)
    requires p != q && dead != p && dead != q
    ensures var s := State(Some(Claim(dead, true)), Some(Lock(dead, 0)), map[], {p, q}, 1);
            Inv(s) && exists t :: Reaches(s, t) && t.live == s.live && t.Of(p) == Holding && t.Of(q) == Holding
  {
    var s := State(Some(Claim(dead, true)), Some(Lock(dead, 0)), map[], {p, q}, 1);
    ReachesItself(s);
    var t := FindsStale(s, s, p);
    t := FindsStale(s, t, q);
    t := TakesLock(s, t, p);
    t := TakesLock(s, t, q);
    t := TakesClaim(s, t, q);
    t := TakesClaim(s, t, p);
    assert Reaches(s, t) && t.live == s.live && t.Of(p) == Holding && t.Of(q) == Holding;
  }
}

/** Check attempts and when a newer one settles a stopped one (malong/workflow/check-attempts.js). */
module CheckAttempts {
  import opened Common
  import opened Lines
  import StableIds

  /** What an operation record or a job's parameters say of the range of a check. Missing checks are none. */
  datatype Range = Range(checks: seq<string>, workdir: Option<string>)

  datatype Op = Op(id: string, kind: string, jobId: string, state: string, time: nat, range: Range)

  datatype Job = Job(id: string, kind: string, opId: string, state: string, time: nat, range: Range)

  datatype Attempt = Attempt(id: string, opId: string, state: string, time: nat, op: Option<Op>, job: Option<Job>)

  predicate IsStopped(state: string) {
    state == "cancelled" || state == "indeterminate"
  }

  predicate IsDeterminate(state: string) {
    state == "succeeded" || state == "failed"
  }

  // ---- Attempts ----

  function Max(a: nat, b: nat): nat {
    if a > b then a else b
  }

  function CheckOps(ops: seq<Op>): seq<Op> {
    if ops == [] then [] else (if ops[0].kind == "check" then [ops[0]] else []) + CheckOps(ops[1..])
  }

  function CheckJobs(jobs: seq<Job>): seq<Job> {
    if jobs == [] then [] else (if jobs[0].kind == "check" then [jobs[0]] else []) + CheckJobs(jobs[1..])
  }

  /** The job an operation names: of several with that id the last. */
  function JobOf(op: Op, jobs: seq<Job>): Option<Job> {
    if jobs == [] || op.jobId == "" then None
    else if jobs[|jobs|-1].id == op.jobId then Some(jobs[|jobs|-1])
    else JobOf(op, jobs[..|jobs|-1])
  }

  function OfOp(op: Op, i: nat, jobs: seq<Job>): Attempt {
    match JobOf(op, jobs)
    case Some(job) => Attempt(job.id, op.id, job.state, Max(job.time, op.time), Some(op), Some(job))
    case None => Attempt(if op.id != "" then op.id else "op#" + StableIds.Decimal(i), op.id, op.state, op.time,
        Some(op), None)
  }

  function OfJob(job: Job, i: nat): Attempt {
    Attempt(if job.id != "" then job.id else "job#" + StableIds.Decimal(i), job.opId, job.state, job.time, None,
        Some(job))
  }

  predicate Paired(job: Job, ops: seq<Op>, jobs: seq<Job>) {
    job.id != "" && exists op :: op in ops && JobOf(op, jobs).Some? && JobOf(op, jobs).value.id == job.id
  }

  /** The attempts of the first n jobs that no operation names. */
  function Alone(ops: seq<Op>, jobs: seq<Job>, n: nat): seq<Attempt>
    requires n <= |jobs|
  {
    if n == 0 then [] else Alone(ops, jobs, n - 1) + if Paired(jobs[n-1], ops, jobs) then []
        else [OfJob(jobs[n-1], n - 1)]
  }

  function OfOps(ops: seq<Op>, jobs: seq<Job>, n: nat): seq<Attempt>
    requires n <= |ops|
  {
    if n == 0 then [] else OfOps(ops, jobs, n - 1) + [OfOp(ops[n-1], n - 1, jobs)]
  }

  /** All attempts, operations first. */
  function Unsorted(allOps: seq<Op>, allJobs: seq<Job>): seq<Attempt> {
    var ops, jobs := CheckOps(allOps), CheckJobs(allJobs);
    OfOps(ops, jobs, |ops|) + Alone(ops, jobs, |jobs|)
  }

  // ---- Newer first ----

  /** localeCompare: whether one id sorts behind another. */
  datatype Collation = Collation(behind: (string, string) -> bool)

  ghost predicate Lawful(coll: Collation) {
    && (forall a, b, c :: coll.behind(a, b) && coll.behind(b, c) ==> coll.behind(a, c))
    && (forall a, b :: !(coll.behind(a, b) && coll.behind(b, a)))
    && (forall a, b :: a != b ==> coll.behind(a, b) || coll.behind(b, a))
  }

  /** Later, or at the same time and with an id that sorts behind. */
  predicate Newer(coll: Collation, a: Attempt, b: Attempt) {
    a.time > b.time || (a.time == b.time && coll.behind(a.id, b.id))
  }

  ghost predicate NewestFirst(coll: Collation, s: seq<Attempt>) {
    forall i, j :: 0 <= i < j < |s| ==> !Newer(coll, s[j], s[i])
  }

  function Place(coll: Collation, x: Attempt, s: seq<Attempt>): seq<Attempt> {
    if s == [] then [x]
    else if Newer(coll, s[0], x) then [s[0]] + Place(coll, x, s[1..])
    else [x] + s
  }

  function Sort(coll: Collation, s: seq<Attempt>): seq<Attempt> {
    if s == [] then [] else Place(coll, s[0], Sort(coll, s[1..]))
  }

  lemma {:induction false} Placed(coll: Collation, x: Attempt, s: seq<Attempt>)
    requires Lawful(coll) && NewestFirst(coll, s)
    ensures NewestFirst(coll, Place(coll, x, s))
    ensures forall y :: y in Place(coll, x, s) <==> y == x || y in s
  {
    if s != [] {
      assert s == [s[0]] + s[1..];
      if Newer(coll, s[0], x) {
        Placed(coll, x, s[1..]);
        var r := Place(coll, x, s[1..]);
        forall j | 0 <= j < |r| ensures !Newer(coll, r[j], s[0]) {
          assert r[j] in r;
          if r[j] != x {
            var k :| 0 <= k < |s[1..]| && s[1..][k] == r[j];
            assert s[k+1] == r[j];
          }
        }
      } else {
        forall j | 0 <= j < |s| ensures !Newer(coll, s[j], x) {
          assert !(j > 0 && Newer(coll, s[j], s[0]));
        }
      }
    }
  }

  lemma {:induction false} PlacedOnce(coll: Collation, x: Attempt, s: seq<Attempt>)
    ensures multiset(Place(coll, x, s)) == multiset{x} + multiset(s)
  {
    if s != [] {
      assert s == [s[0]] + s[1..];
      if Newer(coll, s[0], x) {
        PlacedOnce(coll, x, s[1..]);
      }
    }
  }

  lemma {:induction false} Sorted(coll: Collation, s: seq<Attempt>)
    requires Lawful(coll)
    ensures NewestFirst(coll, Sort(coll, s))
    ensures forall y :: y in Sort(coll, s) <==> y in s
    ensures multiset(Sort(coll, s)) == multiset(s)
  {
    if s != [] {
      Sorted(coll, s[1..]);
      Placed(coll, s[0], Sort(coll, s[1..]));
      PlacedOnce(coll, s[0], Sort(coll, s[1..]));
      assert s == [s[0]] + s[1..];
    }
  }

  /** Its loops: operations paired with the jobs they name, then the other jobs. */
  method Collect(allOps: seq<Op>, allJobs: seq<Job>) returns (out: seq<Attempt>)
    ensures out == Unsorted(allOps, allJobs)
  {
    var ops, jobs := CheckOps(allOps), CheckJobs(allJobs);
    out := [];
    var paired: set<string> := {};
    for i := 0 to |ops|
      invariant out == OfOps(ops, jobs, i)
      invariant forall id ::
                id in paired <==>
                    exists k :: 0 <= k < i && JobOf(ops[k], jobs).Some? && JobOf(ops[k], jobs).value.id == id
    {
      var job := JobOf(ops[i], jobs);
      if job.Some? {
        paired := paired + {job.value.id};
      }
      out := out + [OfOp(ops[i], i, jobs)];
    }
    ghost var ofOps := out;
    for i := 0 to |jobs|
      invariant out == ofOps + Alone(ops, jobs, i)
    {
      assert Paired(jobs[i], ops, jobs) <==> jobs[i].id != "" && jobs[i].id in paired;
      if jobs[i].id == "" || jobs[i].id !in paired {
        out := out + [OfJob(jobs[i], i)];
      }
    }
  }

  /** checkAttempts: all attempts, newest first. */
  method BuildAttempts(coll: Collation, allOps: seq<Op>, allJobs: seq<Job>) returns (attempts: seq<Attempt>)
    requires Lawful(coll)
    ensures NewestFirst(coll, attempts) && multiset(attempts) == multiset(Unsorted(allOps, allJobs))
    ensures forall a :: a in attempts <==> a in Unsorted(allOps, allJobs)
    ensures forall a :: a in attempts <==> IsAttempt(CheckOps(allOps), CheckJobs(allJobs), a)
  {
    var out := Collect(allOps, allJobs);
    attempts := Sort(coll, out);
    Sorted(coll, out);
    AttemptsMeaning(allOps, allJobs);
  }

  // ---- Scope ----

  predicate IsSlash(c: char) {
    c == '/' || c == '\\'
  }

  /** Every run of slashes and backslashes becomes one slash. */
  function Collapse(s: string): string {
    if s == "" then ""
    else if IsSlash(s[0]) then (if |s| > 1 && IsSlash(s[1]) then Collapse(s[1..]) else "/" + Collapse(s[1..]))
    else [s[0]] + Collapse(s[1..])
  }

  function DropEndSlashes(s: string): string {
    if |s| > 1 && s[|s|-1] == '/' then DropEndSlashes(s[..|s|-1]) else s
  }

  /** normalizeScopeWorkdir; the workspace root is none. */
  function NormalWorkdir(w: Option<string>): Option<string> {
    if w.None? || Trim(w.value) == "" then None
    else
      var s := Collapse(Trim(w.value));
      var t := DropEndSlashes(if "./" <= s then s[2..] else s);
      if t == "." || t == "" || t == "/" then None else Some(t)
  }

  // ---- When two directories are the same ----

  /** The text between slashes and backslashes. */
  ghost function Segments(s: string): (xs: seq<string>)
    ensures xs != []
  {
    if s == "" then [""]
    else if s[0] == '/' || s[0] == '\\' then [""] + Segments(s[1..])
    else PushFirst(s[0], Segments(s[1..]))
  }

  ghost function NonEmpty(xs: seq<string>): seq<string> {
    if xs == [] then [] else (if xs[0] == "" then [] else [xs[0]]) + NonEmpty(xs[1..])
  }

  /** The segments of a path: what stands before the first slash, and behind it all that is not empty. */
  ghost function Places(s: string): (xs: seq<string>)
    ensures xs != []
  {
    [Segments(s)[0]] + NonEmpty(Segments(s)[1..])
  }

  /** The directory that is meant: the segments but for one leading dot, or none for the root of the workspace. */
  ghost function Directory(w: Option<string>): Option<seq<string>> {
    if w.None? || Trim(w.value) == "" then None
    else
      var xs := Places(Trim(w.value));
      var ys := if |xs| > 1 && xs[0] == "." then xs[1..] else xs;
      if ys == [""] || ys == ["."] then None else Some(ys)
  }

  ghost function Slashed(xs: seq<string>): string {
    if xs == [] then "" else if |xs| == 1 then xs[0] else xs[0] + "/" + Slashed(xs[1..])
  }

  /** No segment has a slash, and behind the first none is empty. */
  ghost predicate Plain(xs: seq<string>) {
    && (forall i, k :: 0 <= i < |xs| && 0 <= k < |xs[i]| ==> xs[i][k] != '/' && xs[i][k] != '\\')
    && (forall i :: 0 < i < |xs| ==> xs[i] != "")
  }

  ghost function EndSlash(s: string): string {
    if s != "" && (s[|s|-1] == '/' || s[|s|-1] == '\\') then "/" else ""
  }

  lemma {:induction false} NonEmptyIs(xs: seq<string>)
    ensures forall x :: x in NonEmpty(xs) <==> x in xs && x != ""
  {
    if xs != [] {
      NonEmptyIs(xs[1..]);
      assert xs == [xs[0]] + xs[1..];
    }
  }

  lemma {:induction false} NoSlashInside(s: string)
    ensures forall x :: x in Segments(s) ==> forall k :: 0 <= k < |x| ==> !IsSlash(x[k])
  {
    if s != "" {
      NoSlashInside(s[1..]);
      var rest := Segments(s[1..]);
      assert rest[0] in rest && forall x :: x in rest[1..] ==> x in rest;
    }
  }

  lemma {:induction false} PlacesPlain(s: string)
    ensures Plain(Places(s))
  {
    NoSlashInside(s);
    var xs := Segments(s);
    NonEmptyIs(xs[1..]);
    forall i | 0 <= i < |Places(s)| ensures Places(s)[i] in xs && (i > 0 ==> Places(s)[i] != "") {
      if i > 0 {
        assert Places(s)[i] in NonEmpty(xs[1..]);
      }
    }
  }

  /** Collapsing runs of slashes spells the segments out. */
  lemma {:induction false} CollapseSpells(s: string)
    ensures Spells(s)
  {
    if s != "" {
      CollapseSpells(s[1..]);
      if IsSlash(s[0]) {
        SlashInFront(s);
      } else {
        LetterInFront(s);
      }
    }
  }

  ghost predicate Spells(s: string) {
    Collapse(s) == Slashed(Places(s)) + EndSlash(s)
  }

  lemma {:induction false} LetterInFront(s: string)
    requires s != "" && !IsSlash(s[0]) && Spells(s[1..])
    ensures Spells(s)
  {
    var rest := s[1..];
    assert rest != "" ==> rest[|rest|-1] == s[|s|-1];
    assert EndSlash(s) == EndSlash(rest);
    assert Places(s) == [[s[0]] + Places(rest)[0]] + Places(rest)[1..];
    FirstLonger(s[0], Places(rest));
  }

  /** A slash in front of a slash adds nothing. */
  lemma {:induction false} SlashPlaces(s: string)
    requires s != "" && IsSlash(s[0])
    ensures Places(s) == if s[1..] == "" then [""] else if IsSlash(s[1]) then Places(s[1..]) else [""] + Places(s[1..])
  {
    var rest := s[1..];
    var xs := Segments(rest);
    assert Segments(s) == [""] + xs && Segments(s)[1..] == xs;
    assert Places(s) == [""] + NonEmpty(xs);
    if rest == "" {
      assert NonEmpty(xs) == [] + NonEmpty(xs[1..]) && xs[1..] == [];
    } else if IsSlash(rest[0]) {
      assert xs[0] == "" && NonEmpty(xs) == NonEmpty(xs[1..]);
    } else {
      assert xs[0] != "" && NonEmpty(xs) == [xs[0]] + NonEmpty(xs[1..]);
    }
  }

  lemma {:induction false} SlashInFront(s: string)
    requires s != "" && IsSlash(s[0]) && Spells(s[1..])
    ensures Spells(s)
  {
    var rest := s[1..];
    SlashPlaces(s);
    if rest != "" {
      assert rest[0] == s[1] && rest[|rest|-1] == s[|s|-1];
      assert EndSlash(s) == EndSlash(rest);
      if !IsSlash(rest[0]) {
        EmptyInFront(Places(rest));
      }
    }
  }

  lemma {:induction false} EmptyInFront(xs: seq<string>)
    requires xs != []
    ensures Slashed([""] + xs) == "/" + Slashed(xs)
  {
    assert ([""] + xs)[1..] == xs;
  }

  lemma {:induction false} FirstLonger(c: char, xs: seq<string>)
    requires xs != []
    ensures Slashed([[c] + xs[0]] + xs[1..]) == [c] + Slashed(xs)
  {
    assert ([[c] + xs[0]] + xs[1..])[1..] == xs[1..];
  }

  lemma {:induction false} SlashedEnds(xs: seq<string>)
    requires xs != [] && Plain(xs) && Slashed(xs) != ""
    ensures !IsSlash(Slashed(xs)[|Slashed(xs)|-1])
    ensures |xs| > 1 && (xs[0] != "" || |xs| > 1) ==> |Slashed(xs)| > 1
  {
    if |xs| > 1 {
      var rest := xs[1..];
      assert rest[0] == xs[1] && Plain(rest);
      assert Slashed(rest) != "";
      SlashedEnds(rest);
    }
  }

  /** The segments can be read off the spelling. */
  lemma {:induction false} SlashedInjective(xs: seq<string>, ys: seq<string>)
    requires xs != [] && ys != [] && Plain(xs) && Plain(ys) && Slashed(xs) == Slashed(ys)
    ensures xs == ys
  {
    var s, t := Slashed(xs), Slashed(ys);
    assert forall k :: 0 <= k < |xs[0]| ==> s[k] == xs[0][k];
    assert forall k :: 0 <= k < |ys[0]| ==> t[k] == ys[0][k];
    assert |xs| > 1 ==> s[|xs[0]|] == '/';
    assert |ys| > 1 ==> t[|ys[0]|] == '/';
    assert |xs[0]| == |ys[0]|;
    assert xs[0] == ys[0];
    if |xs| > 1 {
      var n := |xs[0]| + 1;
      assert s[n..] == Slashed(xs[1..]);
      if |ys| > 1 {
        assert t[n..] == Slashed(ys[1..]);
        SlashedInjective(xs[1..], ys[1..]);
        assert xs == [xs[0]] + xs[1..] && ys == [ys[0]] + ys[1..];
      }
    }
  }

  /** A normal workdir spells the directory that is meant. */
  lemma {:induction false} NormalSpells(w: Option<string>)
    ensures NormalWorkdir(w) == if Directory(w).None? then None else Some(Slashed(Directory(w).value))
    ensures Directory(w).Some? ==> Directory(w).value != [] && Plain(Directory(w).value)
  {
    if w.Some? && Trim(w.value) != "" {
      var s := Trim(w.value);
      CollapseSpells(s);
      assert Spells(s);
      PlacesPlain(s);
      SpellsWithoutDot(Places(s), EndSlash(s));
    }
  }

  /** What dropping a leading "./" and the slashes at the end leaves of the spelling. */
  lemma {:induction false} SpellsWithoutDot(xs: seq<string>, end: string)
    requires xs != [] && Plain(xs) && (end == "" || end == "/")
    ensures var s := Slashed(xs) + end;
            var t := DropEndSlashes(if "./" <= s then s[2..] else s);
            var ys := if |xs| > 1 && xs[0] == "." then xs[1..] else xs;
            && ys != [] && Plain(ys)
            && (t == "." || t == "" || t == "/" <==> ys == [""] || ys == ["."])
            && (!(ys == [""] || ys == ["."]) ==> t == Slashed(ys))
  {
    DotInFront(xs, end);
    if xs == ["."] && end == "/" {
      assert DropEndSlashes("") == "";
    } else {
      var ys := if |xs| > 1 && xs[0] == "." then xs[1..] else xs;
      PlainRest(xs);
      DropsOne(ys, end);
      ShortSpellings(ys);
    }
  }

  lemma {:induction false} PlainRest(xs: seq<string>)
    requires Plain(xs) && |xs| > 0
    ensures Plain(xs[1..])
  {
    var rest := xs[1..];
    forall i, k | 0 <= i < |rest| && 0 <= k < |rest[i]| ensures !IsSlash(rest[i][k]) {
      assert rest[i] == xs[i+1];
    }
  }

  lemma {:induction false} ShortSpellings(ys: seq<string>)
    requires ys != [] && Plain(ys)
    ensures Slashed(ys) == "" <==> ys == [""]
    ensures Slashed(ys) == "." <==> ys == ["."]
    ensures Slashed(ys) != "/"
  {
    if Slashed(ys) != "" {
      SlashedEnds(ys);
    }
    if |ys| > 1 {
      PlainRest(ys);
      var rest := ys[1..];
      assert rest[0] == ys[1] && |rest[0]| <= |Slashed(rest)|;
      assert |Slashed(ys)| >= 2;
    }
  }

  lemma {:induction false} DotInFront(xs: seq<string>, end: string)
    requires xs != [] && Plain(xs) && (end == "" || end == "/")
    ensures "./" <= Slashed(xs) + end <==> xs[0] == "." && (|xs| > 1 || end == "/")
    ensures |xs| > 1 && xs[0] == "." ==> (Slashed(xs) + end)[2..] == Slashed(xs[1..]) + end
    ensures xs == ["."] && end == "/" ==> (Slashed(xs) + end)[2..] == ""
  {
    var s := Slashed(xs) + end;
    assert forall k :: 0 <= k < |xs[0]| ==> s[k] == xs[0][k];
    if |xs| > 1 {
      assert s[|xs[0]|] == '/';
    }
    if "./" <= s {
      assert s[0] == '.' && s[1] == '/';
      assert |xs[0]| <= 1;
      assert |xs[0]| == 1 && xs[0] == ".";
    }
  }

  lemma {:induction false} DropsOne(ys: seq<string>, end: string)
    requires ys != [] && Plain(ys) && (end == "" || end == "/")
    ensures DropEndSlashes(Slashed(ys) + end) == if Slashed(ys) == "" then end else Slashed(ys)
  {
    var t := Slashed(ys);
    if t != "" {
      SlashedEnds(ys);
      assert DropEndSlashes(t) == t;
      if end == "/" {
        assert (t + end)[..|t|] == t;
      } else {
        assert t + end == t;
      }
    }
  }

  /** Two directories count as the same exactly if the same one is meant. */
  lemma {:induction false} SameDirectory(v: Option<string>, w: Option<string>)
    ensures NormalWorkdir(v) == NormalWorkdir(w) <==> Directory(v) == Directory(w)
  {
    NormalSpells(v);
    NormalSpells(w);
    if Directory(v).Some? && Directory(w).Some? && NormalWorkdir(v) == NormalWorkdir(w) {
      SlashedInjective(Directory(v).value, Directory(w).value);
    }
  }

  function Lower(s: string): string {
    seq(|s|, i requires 0 <= i < |s| => if 'A' <= s[i] <= 'Z' then (s[i] as int + 32) as char else s[i])
  }

  /** The same letter, great or small, or the same character. */
  ghost predicate SameLetter(a: char, b: char) {
    || a == b
    || ('A' <= a <= 'Z' && b as int == a as int + 32)
    || ('A' <= b <= 'Z' && a as int == b as int + 32)
  }

  lemma {:induction false} LowerMeaning(s: string, t: string)
    ensures Lower(s) == Lower(t) <==> |s| == |t| && forall i :: 0 <= i < |s| ==> SameLetter(s[i], t[i])
    ensures Lower(s) == "" <==> s == ""
  {
    if Lower(s) == Lower(t) {
      forall i | 0 <= i < |s| ensures SameLetter(s[i], t[i]) {
        assert Lower(s)[i] == Lower(t)[i];
      }
    }
  }

  function NormalChecks(checks: seq<string>): set<string> {
    set c | c in checks && Lower(Trim(c)) != "" :: Lower(Trim(c))
  }

  /** The range of an attempt: what its operation says, completed by its job. Without checks there is none. */
  function ScopeOf(a: Attempt): Option<Range> {
    var fromOp := if a.op.Some? then a.op.value.range else Range([], None);
    var fromJob := if a.job.Some? then a.job.value.range else Range([], None);
    var checks := if fromOp.checks != [] then fromOp.checks else fromJob.checks;
    if checks == [] then None else Some(Range(checks, if fromOp.workdir.Some? then fromOp.workdir else fromJob.workdir))
  }

  /** coversStoppedAttempt: a determinate result for the same directory and at least the same checks. */
  predicate Covers(d: Attempt, a: Attempt) {
    && IsDeterminate(d.state) && ScopeOf(d).Some? && ScopeOf(a).Some?
    && NormalWorkdir(ScopeOf(d).value.workdir) == NormalWorkdir(ScopeOf(a).value.workdir)
    && NormalChecks(ScopeOf(a).value.checks) <= NormalChecks(ScopeOf(d).value.checks)
  }

  /** Covering, check by check: for every named check of the stopped attempt the determinate one ran a check of
      the same name, whatever case and blanks, in the same directory. */
  lemma {:induction false} CoversMeaning(d: Attempt, a: Attempt)
    ensures Covers(d, a) <==>
              && (d.state == "succeeded" || d.state == "failed") && ScopeOf(d).Some? && ScopeOf(a).Some?
              && Directory(ScopeOf(d).value.workdir) == Directory(ScopeOf(a).value.workdir)
              && forall c :: c in ScopeOf(a).value.checks && Lower(Trim(c)) != "" ==> RunsCheck(ScopeOf(d).value, c)
  {
    if ScopeOf(d).Some? && ScopeOf(a).Some? {
      SameDirectory(ScopeOf(d).value.workdir, ScopeOf(a).value.workdir);
      var dc, ac := NormalChecks(ScopeOf(d).value.checks), NormalChecks(ScopeOf(a).value.checks);
      if ac <= dc {
        forall c | c in ScopeOf(a).value.checks && Lower(Trim(c)) != "" ensures RunsCheck(ScopeOf(d).value, c) {
          assert Lower(Trim(c)) in ac;
        }
      }
      if forall c :: c in ScopeOf(a).value.checks && Lower(Trim(c)) != "" ==> RunsCheck(ScopeOf(d).value, c) {
        forall n | n in ac ensures n in dc {
          var c :| c in ScopeOf(a).value.checks && Lower(Trim(c)) == n;
          assert RunsCheck(ScopeOf(d).value, c);
        }
      }
    }
  }

  ghost predicate RunsCheck(r: Range, check: string) {
    exists c :: c in r.checks && Lower(Trim(c)) == Lower(Trim(check))
  }

  // ---- Settling ----

  /** A stopped check, with a range. */
  predicate Stopped(a: Attempt) {
    IsStopped(a.state) && ScopeOf(a).Some?
  }

  /** Some newer attempt has a determinate result that covers it. */
  ghost predicate Settled(coll: Collation, attempts: seq<Attempt>, a: Attempt) {
    exists d :: d in attempts && Newer(coll, d, a) && Covers(d, a)
  }

  /** The same, counting also an attempt of the same time and id: which of the two stands ahead of the other is left
      to the order of the records. */
  ghost predicate SettledOrTied(coll: Collation, attempts: seq<Attempt>, a: Attempt) {
    exists d :: d in attempts && !Newer(coll, a, d) && Covers(d, a)
  }

  /** Attempts that share an id and a time share a state, as records of one job do. */
  ghost predicate OneStatePerKey(s: seq<Attempt>) {
    forall a, b :: a in s && b in s && a.time == b.time && a.id == b.id ==> a.state == b.state
  }

  /** Then ties settle nothing. */
  lemma {:induction false} TiesSettleNothing(coll: Collation, attempts: seq<Attempt>, a: Attempt)
    requires Lawful(coll) && a in attempts && Stopped(a)
    ensures Settled(coll, attempts, a) ==> SettledOrTied(coll, attempts, a)
    ensures OneStatePerKey(attempts) ==> (Settled(coll, attempts, a) <==> SettledOrTied(coll, attempts, a))
  {
    if Settled(coll, attempts, a) {
      var d :| d in attempts && Newer(coll, d, a) && Covers(d, a);
      assert !Newer(coll, a, d);
    }
    if OneStatePerKey(attempts) && SettledOrTied(coll, attempts, a) {
      var d :| d in attempts && !Newer(coll, a, d) && Covers(d, a);
      assert d.state != a.state;
      assert Newer(coll, d, a);
    }
  }

  datatype Resolution = Resolution(attempt: Attempt, resolvedBy: Option<Attempt>)

  /** stoppedAttemptResolutions, on the sorted attempts: every stopped attempt with what settles it, if anything. */
  method StoppedResolutions(coll: Collation, attempts: seq<Attempt>) returns (out: seq<Resolution>)
    requires Lawful(coll) && NewestFirst(coll, attempts)
    ensures AllResolved(coll, attempts, out)
    ensures OneStatePerKey(attempts) ==>
              forall r :: r in out ==> (r.resolvedBy.Some? <==> Settled(coll, attempts, r.attempt))
  {
    out := [];
    for idx := 0 to |attempts|
      invariant Resolved(coll, attempts, idx, out)
    {
      out := Resolve(coll, attempts, idx, out);
    }
    assert attempts[..|attempts|] == attempts;
    assert forall a :: Stopped(a) <==> CameToAHalt(a);
    forall r | r in out
      ensures OneStatePerKey(attempts) ==> (r.resolvedBy.Some? <==> Settled(coll, attempts, r.attempt))
    {
      assert Right(coll, attempts, r) && r.attempt in attempts && Stopped(r.attempt);
      TiesSettleNothing(coll, attempts, r.attempt);
    }
  }

  method Resolve(ghost coll: Collation, attempts: seq<Attempt>, idx: nat, out: seq<Resolution>)
      returns (out': seq<Resolution>)
    requires Lawful(coll) && NewestFirst(coll, attempts)
    requires idx < |attempts| && Resolved(coll, attempts, idx, out)
    ensures Resolved(coll, attempts, idx + 1, out')
  {
    out' := out;
    var a := attempts[idx];
    if Stopped(a) {
      var d := FirstCover(attempts, idx, a);
      CoverIsSettlement(coll, attempts, idx, d);
      out' := out + [Resolution(a, d)];
    }
    ResolvedOneMore(coll, attempts, idx, out, out');
  }

  /** A resolution names a covering attempt that is not older, and names one whenever a newer one covers. */
  ghost predicate Right(coll: Collation, attempts: seq<Attempt>, r: Resolution) {
    && (Settled(coll, attempts, r.attempt) ==> r.resolvedBy.Some?)
    && (r.resolvedBy.Some? ==> r.resolvedBy.value in attempts && Covers(r.resolvedBy.value, r.attempt))
    && (r.resolvedBy.Some? ==> !Newer(coll, r.attempt, r.resolvedBy.value))
  }

  /** Exactly the stopped attempts have a resolution, and each is right. */
  ghost predicate AllResolved(coll: Collation, attempts: seq<Attempt>, out: seq<Resolution>) {
    && (forall a :: (exists r :: r in out && r.attempt == a) <==> a in attempts && CameToAHalt(a))
    && (forall r :: r in out ==> Right(coll, attempts, r))
  }

  /** It was cancelled or its end is not known, and the operation or the job names checks. */
  ghost predicate CameToAHalt(a: Attempt) {
    && (a.state == "cancelled" || a.state == "indeterminate")
    && ((a.op.Some? && a.op.value.range.checks != []) || (a.job.Some? && a.job.value.range.checks != []))
  }

  ghost predicate Resolved(coll: Collation, attempts: seq<Attempt>, n: nat, out: seq<Resolution>)
    requires n <= |attempts|
  {
    && (forall a :: (exists r :: r in out && r.attempt == a) <==> a in attempts[..n] && Stopped(a))
    && (forall r :: r in out ==> Right(coll, attempts, r))
  }

  lemma {:induction false} ResolvedOneMore(coll: Collation, attempts: seq<Attempt>, n: nat, out: seq<Resolution>,
                                           out': seq<Resolution>)
    requires n < |attempts| && Resolved(coll, attempts, n, out)
    requires var a := attempts[n];
             if Stopped(a) then
                 |out'| == |out| + 1 && out' == out + [out'[|out|]] && out'[|out|].attempt == a &&
                     Right(coll, attempts, out'[|out|])
             else out' == out
    ensures Resolved(coll, attempts, n + 1, out')
  {
    assert attempts[..n+1] == attempts[..n] + [attempts[n]];
    forall a ensures (exists r :: r in out' && r.attempt == a) <==> a in attempts[..n+1] && Stopped(a) {
      if Stopped(attempts[n]) {
        var last := out'[|out|];
        assert forall r :: r in out' <==> r in out || r == last;
        if a == attempts[n] {
          assert last in out' && last.attempt == a;
        } else {
          assert (exists r :: r in out' && r.attempt == a) <==> exists r :: r in out && r.attempt == a;
        }
      }
    }
  }

  /** attempts.slice(0, idx).find(covers) */
  method FirstCover(attempts: seq<Attempt>, idx: nat, a: Attempt) returns (d: Option<Attempt>)
    requires idx <= |attempts|
    ensures d.Some? ==> Covers(d.value, a) && exists i :: 0 <= i < idx && attempts[i] == d.value
    ensures d.None? ==> forall i :: 0 <= i < idx ==> !Covers(attempts[i], a)
  {
    for i := 0 to idx
      invariant forall j :: 0 <= j < i ==> !Covers(attempts[j], a)
    {
      if Covers(attempts[i], a) {
        return Some(attempts[i]);
      }
    }
    d := None;
  }

  /** In sorted attempts the ones that stand before an attempt are the newer ones. */
  lemma {:induction false} CoverIsSettlement(coll: Collation, attempts: seq<Attempt>, idx: nat, d: Option<Attempt>)
    requires Lawful(coll) && NewestFirst(coll, attempts) && idx < |attempts| && Stopped(attempts[idx])
    requires d.Some? ==> Covers(d.value, attempts[idx]) && exists i :: 0 <= i < idx && attempts[i] == d.value
    requires d.None? ==> forall i :: 0 <= i < idx ==> !Covers(attempts[i], attempts[idx])
    ensures Right(coll, attempts, Resolution(attempts[idx], d))
  {
    var a := attempts[idx];
    if d.Some? {
      var i :| 0 <= i < idx && attempts[i] == d.value;
      assert !Newer(coll, a, attempts[i]);
    } else {
      forall e | e in attempts && Newer(coll, e, a) ensures !Covers(e, a) {
        var i :| 0 <= i < |attempts| && attempts[i] == e;
        assert i < idx;
      }
    }
  }


  // ---- What the attempts are, one by one ----

  /** The job is the last one with that id. */
  ghost predicate LastWithId(job: Job, jobs: seq<Job>, id: string) {
    exists k :: 0 <= k < |jobs| && jobs[k] == job && job.id == id && forall m :: k < m < |jobs| ==> jobs[m].id != id
  }

  lemma {:induction false} LastStays(job: Job, jobs: seq<Job>, id: string, more: Job)
    requires LastWithId(job, jobs, id) && more.id != id
    ensures LastWithId(job, jobs + [more], id)
  {
    var k :| 0 <= k < |jobs| && jobs[k] == job && forall m :: k < m < |jobs| ==> jobs[m].id != id;
    var all := jobs + [more];
    assert all[k] == job && forall m :: k < m < |all| ==> all[m].id != id;
  }

  lemma {:induction false} JobOfMeaning(op: Op, jobs: seq<Job>)
    ensures JobOf(op, jobs).Some? <==> op.jobId != "" && exists j :: j in jobs && j.id == op.jobId
    ensures JobOf(op, jobs).Some? ==> JobOf(op, jobs).value in jobs && JobOf(op, jobs).value.id == op.jobId
    ensures JobOf(op, jobs).Some? ==> LastWithId(JobOf(op, jobs).value, jobs, op.jobId)
  {
    if jobs != [] && op.jobId != "" {
      var front, last := jobs[..|jobs|-1], jobs[|jobs|-1];
      assert jobs == front + [last];
      if last.id == op.jobId {
        assert jobs[|jobs|-1] == last;
      } else {
        JobOfMeaning(op, front);
        if JobOf(op, front).Some? {
          LastStays(JobOf(op, front).value, front, op.jobId, last);
        }
      }
    }
  }

  /** The attempt of the i-th check operation: it has the state of the last job with the id that the operation names,
      if there is one, the later of the two times and that job's id. */
  ghost predicate IsOpAttempt(a: Attempt, op: Op, i: nat, jobs: seq<Job>) {
    && a.op == Some(op) && a.opId == op.id
    && (a.job.Some? <==> op.jobId != "" && exists j :: j in jobs && j.id == op.jobId)
    && (match a.job
        case Some(job) => LastWithId(job, jobs, op.jobId) && a.id == job.id && a.state == job.state
                          && job.time <= a.time && op.time <= a.time && (a.time == job.time || a.time == op.time)
        case None => a.state == op.state && a.time == op.time
                     && a.id == if op.id != "" then op.id else "op#" + StableIds.Decimal(i))
  }

  /** The attempt of the i-th check job, on its own. */
  ghost predicate IsJobAttempt(a: Attempt, job: Job, i: nat) {
    && a.op.None? && a.job == Some(job) && a.opId == job.opId && a.state == job.state && a.time == job.time
    && a.id == if job.id != "" then job.id else "job#" + StableIds.Decimal(i)
  }

  /** An operation's attempt, or the attempt of a job without id or that no operation names. */
  ghost predicate IsAttempt(ops: seq<Op>, jobs: seq<Job>, a: Attempt) {
    || (exists i: nat :: i < |ops| && IsOpAttempt(a, ops[i], i, jobs))
    || (exists i: nat :: i < |jobs| && Unnamed(ops, jobs[i]) && IsJobAttempt(a, jobs[i], i))
  }

  lemma {:induction false} OpAttemptMeaning(op: Op, i: nat, jobs: seq<Job>, a: Attempt)
    ensures IsOpAttempt(a, op, i, jobs) <==> a == OfOp(op, i, jobs)
  {
    JobOfMeaning(op, jobs);
    if IsOpAttempt(a, op, i, jobs) && a.job.Some? {
      assert LastWithId(a.job.value, jobs, op.jobId);
      assert a.job == JobOf(op, jobs);
    }
  }

  /** The attempts of all records of checks, in terms of the records. */
  lemma {:induction false} AttemptsMeaning(allOps: seq<Op>, allJobs: seq<Job>)
    ensures forall a :: a in Unsorted(allOps, allJobs) <==> IsAttempt(CheckOps(allOps), CheckJobs(allJobs), a)
    ensures forall op :: op in CheckOps(allOps) <==> op in allOps && op.kind == "check"
    ensures forall job :: job in CheckJobs(allJobs) <==> job in allJobs && job.kind == "check"
  {
    var ops, jobs := CheckOps(allOps), CheckJobs(allJobs);
    Members(allOps, allJobs);
    ChecksOnly(allOps, allJobs);
    forall a ensures a in Unsorted(allOps, allJobs) <==> IsAttempt(ops, jobs, a) {
      forall i: nat | i < |ops| ensures IsOpAttempt(a, ops[i], i, jobs) <==> a == OfOp(ops[i], i, jobs) {
        OpAttemptMeaning(ops[i], i, jobs, a);
      }
      forall i: nat | i < |jobs| ensures IsJobAttempt(a, jobs[i], i) <==> a == OfJob(jobs[i], i) {
      }
    }
  }

  lemma {:induction false} ChecksOnly(ops: seq<Op>, jobs: seq<Job>)
    ensures forall op :: op in CheckOps(ops) <==> op in ops && op.kind == "check"
    ensures forall job :: job in CheckJobs(jobs) <==> job in jobs && job.kind == "check"
    decreases |ops| + |jobs|
  {
    if ops != [] {
      assert ops == [ops[0]] + ops[1..];
      ChecksOnly(ops[1..], []);
    }
    if jobs != [] {
      assert jobs == [jobs[0]] + jobs[1..];
      ChecksOnly([], jobs[1..]);
    }
  }

  lemma {:induction false} PairedMeaning(job: Job, ops: seq<Op>, jobs: seq<Job>)
    requires job in jobs
    ensures Paired(job, ops, jobs) <==> job.id != "" && exists op :: op in ops && op.jobId == job.id
  {
    forall op | op in ops
      ensures op.jobId == job.id != "" ==> JobOf(op, jobs).Some?
      ensures JobOf(op, jobs).Some? ==> JobOf(op, jobs).value.id == op.jobId
    {
      JobOfMeaning(op, jobs);
    }
  }

  lemma {:induction false} OfOpsMembers(ops: seq<Op>, jobs: seq<Job>, n: nat)
    requires n <= |ops|
    ensures forall a :: a in OfOps(ops, jobs, n) <==> exists k :: 0 <= k < n && a == OfOp(ops[k], k, jobs)
  {
    if n > 0 {
      OfOpsMembers(ops, jobs, n - 1);
    }
  }

  lemma {:induction false} AloneMembers(ops: seq<Op>, jobs: seq<Job>, n: nat)
    requires n <= |jobs|
    ensures forall a :: a in Alone(ops, jobs, n) <==> LoneBelow(ops, jobs, n, a)
  {
    if n > 0 {
      AloneMembers(ops, jobs, n - 1);
      var last := if Paired(jobs[n-1], ops, jobs) then [] else [OfJob(jobs[n-1], n - 1)];
      forall a ensures LoneBelow(ops, jobs, n, a) <==> LoneBelow(ops, jobs, n - 1, a) || a in last {
        assert LoneAt(ops, jobs, n - 1, a) <==> a in last;
      }
    }
  }

  ghost predicate LoneAt(ops: seq<Op>, jobs: seq<Job>, k: int, a: Attempt) {
    0 <= k < |jobs| && !Paired(jobs[k], ops, jobs) && a == OfJob(jobs[k], k)
  }

  ghost predicate LoneBelow(ops: seq<Op>, jobs: seq<Job>, n: nat, a: Attempt) {
    exists k :: 0 <= k < n && LoneAt(ops, jobs, k, a)
  }

  /** The attempt of an operation stands at its place in the record; the one of a job no operation names, at its. */
  lemma {:induction false} Members(ops: seq<Op>, jobs: seq<Job>)
    ensures forall a ::
              a in Unsorted(ops, jobs) <==>
                  OpAttempt(CheckOps(ops), CheckJobs(jobs), a) || LoneAttempt(CheckOps(ops), CheckJobs(jobs), a)
  {
    OfOpsMembers(CheckOps(ops), CheckJobs(jobs), |CheckOps(ops)|);
    AloneMembers(CheckOps(ops), CheckJobs(jobs), |CheckJobs(jobs)|);
    forall k | 0 <= k < |CheckJobs(jobs)|
      ensures var job := CheckJobs(jobs)[k];
              Paired(job, CheckOps(ops), CheckJobs(jobs)) <==>
                  job.id != "" && exists op :: op in CheckOps(ops) && op.jobId == job.id
    {
      PairedMeaning(CheckJobs(jobs)[k], CheckOps(ops), CheckJobs(jobs));
    }
    forall a ensures LoneBelow(CheckOps(ops), CheckJobs(jobs), |CheckJobs(jobs)|, a) <==>
                       LoneAttempt(CheckOps(ops), CheckJobs(jobs), a)
    {
      if LoneAttempt(CheckOps(ops), CheckJobs(jobs), a) {
        var k :| 0 <= k < |CheckJobs(jobs)| && Unnamed(CheckOps(ops), CheckJobs(jobs)[k]) &&
            a == OfJob(CheckJobs(jobs)[k], k);
        assert LoneAt(CheckOps(ops), CheckJobs(jobs), k, a);
      }
    }
  }

  ghost predicate OpAttempt(ops: seq<Op>, jobs: seq<Job>, a: Attempt) {
    exists k :: 0 <= k < |ops| && a == OfOp(ops[k], k, jobs)
  }

  ghost predicate LoneAttempt(ops: seq<Op>, jobs: seq<Job>, a: Attempt) {
    exists k :: 0 <= k < |jobs| && Unnamed(ops, jobs[k]) && a == OfJob(jobs[k], k)
  }

  ghost predicate Unnamed(ops: seq<Op>, job: Job) {
    job.id != "" ==> forall op :: op in ops ==> op.jobId != job.id
  }

  lemma {:induction false} Regroup<T>(a: seq<T>, b: seq<T>, c: seq<T>)
    ensures a + (b + c) == (a + b) + c
  {
  }

  lemma {:induction false} CheckJobsConcat(a: seq<Job>, b: seq<Job>)
    ensures CheckJobs(a + b) == CheckJobs(a) + CheckJobs(b)
  {
    if a == [] {
      assert a + b == b;
    } else {
      assert (a + b)[1..] == a[1..] + b;
      CheckJobsConcat(a[1..], b);
      Regroup(if a[0].kind == "check" then [a[0]] else [], CheckJobs(a[1..]), CheckJobs(b));
    }
  }

  lemma {:induction false} CheckOpsConcat(a: seq<Op>, b: seq<Op>)
    ensures CheckOps(a + b) == CheckOps(a) + CheckOps(b)
  {
    if a == [] {
      assert a + b == b;
    } else {
      assert (a + b)[1..] == a[1..] + b;
      CheckOpsConcat(a[1..], b);
      Regroup(if a[0].kind == "check" then [a[0]] else [], CheckOps(a[1..]), CheckOps(b));
    }
  }

  /** The checks among the records, in their order: nothing of none, and one more record adds itself if it is one. */
  lemma {:induction false} ChecksInOrder(ops: seq<Op>, jobs: seq<Job>, op: Op, job: Job)
    ensures CheckOps([]) == [] && CheckOps(ops + [op]) == CheckOps(ops) + if op.kind == "check" then [op] else []
    ensures CheckJobs([]) == [] && CheckJobs(jobs + [job]) == CheckJobs(jobs) + if job.kind == "check" then [job]
              else []
  {
    CheckOpsConcat(ops, [op]);
    CheckJobsConcat(jobs, [job]);
    assert CheckOps([op]) == if op.kind == "check" then [op] else [];
    assert CheckJobs([job]) == if job.kind == "check" then [job] else [];
  }

  lemma {:induction false} OneMoreJob(jobs: seq<Job>, job: Job)
    requires job.kind == "check"
    ensures CheckJobs(jobs + [job]) == CheckJobs(jobs) + [job]
    ensures forall op: Op :: JobOf(op, CheckJobs(jobs) + [job]) == if op.jobId == job.id != "" then Some(job)
              else JobOf(op, CheckJobs(jobs))
  {
    CheckJobsConcat(jobs, [job]);
    assert CheckJobs([job]) == [job];
    var cjobs := CheckJobs(jobs);
    forall op: Op
      ensures JobOf(op, cjobs + [job]) == if op.jobId == job.id != "" then Some(job) else JobOf(op, cjobs)
    {
      assert (cjobs + [job])[..|cjobs|] == cjobs && (cjobs + [job])[|cjobs|] == job;
      JobOfMeaning(op, cjobs);
    }
  }

  lemma {:induction false} OneMoreOp(ops: seq<Op>, op: Op)
    requires op.kind == "check"
    ensures CheckOps(ops + [op]) == CheckOps(ops) + [op]
    ensures forall o :: o in CheckOps(ops + [op]) <==> o in CheckOps(ops) || o == op
  {
    CheckOpsConcat(ops, [op]);
    assert CheckOps([op]) == [op];
  }

  // ---- One record more ----

  predicate Settles(coll: Collation, d: Attempt, a: Attempt) {
    Newer(coll, d, a) && Covers(d, a)
  }

  /** The attempt of an operation and the job it names. */
  function Joined(op: Op, job: Job): Attempt {
    Attempt(job.id, op.id, job.state, Max(job.time, op.time), Some(op), Some(job))
  }

  /** The attempt of the job with this id, on its own; an attempt whose operation names that job. */
  predicate LoneOf(a: Attempt, id: string) {
    a.op.None? && a.job.Some? && a.job.value.id == id
  }

  predicate Names(a: Attempt, id: string) {
    a.op.Some? && a.op.value.jobId == id
  }

  lemma {:induction false} LoneGrows(ops: seq<Op>, jobs: seq<Job>, job: Job)
    requires Unnamed(ops, job)
    ensures forall a ::
              LoneAttempt(ops, jobs + [job], a) <==> LoneAttempt(ops, jobs, a) || a == OfJob(job, |jobs|)
  {
    var more := jobs + [job];
    assert more[|jobs|] == job && forall k :: 0 <= k < |jobs| ==> more[k] == jobs[k];
    forall a ensures LoneAttempt(ops, more, a) <==> LoneAttempt(ops, jobs, a) || a == OfJob(job, |jobs|) {
      if LoneAttempt(ops, jobs, a) {
        var k :| 0 <= k < |jobs| && Unnamed(ops, jobs[k]) && a == OfJob(jobs[k], k);
        assert more[k] == jobs[k];
      }
    }
  }

  /** A job that no operation names is an attempt more. */
  lemma {:induction false} LoneJobAdds(ops: seq<Op>, jobs: seq<Job>, job: Job)
    requires job.kind == "check" && Unnamed(CheckOps(ops), job)
    ensures forall a ::
              a in Unsorted(ops, jobs + [job]) <==> a in Unsorted(ops, jobs) || a == OfJob(job, |CheckJobs(jobs)|)
  {
    var cops, cjobs := CheckOps(ops), CheckJobs(jobs);
    OneMoreJob(jobs, job);
    Members(ops, jobs);
    Members(ops, jobs + [job]);
    var more := cjobs + [job];
    assert forall k :: 0 <= k < |more| ==> more[k] == if k < |cjobs| then cjobs[k] else job;
    forall k | 0 <= k < |cops| ensures OfOp(cops[k], k, more) == OfOp(cops[k], k, cjobs) {
      assert cops[k] in cops;
      assert cops[k].jobId != job.id || job.id == "";
    }
    LoneGrows(cops, cjobs, job);
    forall a ensures OpAttempt(cops, more, a) <==> OpAttempt(cops, cjobs, a) {
    }
  }

  /** An operation that names no known job is one more, too. */
  lemma {:induction false} LoneOpAdds(ops: seq<Op>, jobs: seq<Job>, op: Op)
    requires op.kind == "check" && JobOf(op, CheckJobs(jobs)).None?
    ensures forall a ::
              a in Unsorted(ops + [op], jobs) <==>
                  a in Unsorted(ops, jobs) || a == OfOp(op, |CheckOps(ops)|, CheckJobs(jobs))
  {
    var cops, cjobs := CheckOps(ops), CheckJobs(jobs);
    OneMoreOp(ops, op);
    Members(ops, jobs);
    Members(ops + [op], jobs);
    JobOfMeaning(op, cjobs);
    OpsGrow(cops, cjobs, op);
    forall k | 0 <= k < |cjobs| ensures Unnamed(cops + [op], cjobs[k]) <==> Unnamed(cops, cjobs[k]) {
      assert cjobs[k] in cjobs;
      assert forall o :: o in cops + [op] <==> o in cops || o == op;
    }
  }

  lemma {:induction false} OpsGrow(ops: seq<Op>, jobs: seq<Job>, op: Op)
    ensures forall a :: OpAttempt(ops + [op], jobs, a) <==> OpAttempt(ops, jobs, a) || a == OfOp(op, |ops|, jobs)
  {
    var more := ops + [op];
    forall a ensures OpAttempt(more, jobs, a) <==> OpAttempt(ops, jobs, a) || a == OfOp(op, |ops|, jobs) {
      if OpAttempt(ops, jobs, a) {
        var k :| 0 <= k < |ops| && a == OfOp(ops[k], k, jobs);
        assert more[k] == ops[k];
      }
      assert more[|ops|] == op;
      if OpAttempt(more, jobs, a) {
        var k :| 0 <= k < |more| && a == OfOp(more[k], k, jobs);
        assert k < |ops| ==> a == OfOp(ops[k], k, jobs);
      }
    }
  }

  /** An operation that names a known job joins it: the two are one attempt, in the place of the job's own. */
  lemma {:induction false} OpJoinsJob(ops: seq<Op>, jobs: seq<Job>, op: Op, job: Job)
    requires op.kind == "check" && JobOf(op, CheckJobs(jobs)) == Some(job)
    ensures forall a ::
              a in Unsorted(ops + [op], jobs) <==>
                  a == Joined(op, job) || (a in Unsorted(ops, jobs) && !LoneOf(a, op.jobId))
  {
    var cops, cjobs := CheckOps(ops), CheckJobs(jobs);
    OneMoreOp(ops, op);
    Members(ops, jobs);
    Members(ops + [op], jobs);
    JobOfMeaning(op, cjobs);
    OpsGrow(cops, cjobs, op);
    forall k | 0 <= k < |cjobs|
      ensures Unnamed(cops + [op], cjobs[k]) <==> Unnamed(cops, cjobs[k]) && cjobs[k].id != op.jobId
    {
      assert forall o :: o in cops + [op] <==> o in cops || o == op;
    }
    forall a ensures OpAttempt(cops, cjobs, a) ==> !LoneOf(a, op.jobId) {
    }
  }

  lemma {:induction false} NamedJobIsNoneOfItsOwn(ops: seq<Op>, jobs: seq<Job>, job: Job)
    requires !Unnamed(ops, job)
    ensures forall a :: LoneAttempt(ops, jobs + [job], a) <==> LoneAttempt(ops, jobs, a)
  {
    var more := jobs + [job];
    assert forall k :: 0 <= k < |more| ==> more[k] == if k < |jobs| then jobs[k] else job;
    forall a ensures LoneAttempt(ops, more, a) <==> LoneAttempt(ops, jobs, a) {
      if LoneAttempt(ops, jobs, a) {
        var k :| 0 <= k < |jobs| && Unnamed(ops, jobs[k]) && a == OfJob(jobs[k], k);
        assert more[k] == jobs[k];
      }
    }
  }

  lemma {:induction false} NamingOpsJoin(ops: seq<Op>, jobs: seq<Job>, more: seq<Job>, job: Job, a: Attempt)
    requires job.id != "" &&
              forall op: Op :: JobOf(op, more) == if op.jobId == job.id then Some(job) else JobOf(op, jobs)
    ensures OpAttempt(ops, more, a) <==> (OpAttempt(ops, jobs, a) && !Names(a, job.id)) || JoinedAttempt(ops, job, a)
  {
    if OpAttempt(ops, more, a) {
      var k :| 0 <= k < |ops| && a == OfOp(ops[k], k, more);
      assert ops[k] in ops;
      assert ops[k].jobId != job.id ==> a == OfOp(ops[k], k, jobs);
    }
    if OpAttempt(ops, jobs, a) && !Names(a, job.id) {
      var k :| 0 <= k < |ops| && a == OfOp(ops[k], k, jobs);
      assert a == OfOp(ops[k], k, more);
    }
    if JoinedAttempt(ops, job, a) {
      var op :| op in ops && op.jobId == job.id && a == Joined(op, job);
      var k :| 0 <= k < |ops| && ops[k] == op;
      assert a == OfOp(ops[k], k, more);
    }
  }

  /** One of the operations that name the job, together with it. */
  ghost predicate JoinedAttempt(ops: seq<Op>, job: Job, a: Attempt) {
    exists op :: op in ops && op.jobId == job.id && a == Joined(op, job)
  }

  /** A job that operations name joins each of them, in the place of what they were without it. */
  lemma {:induction false} JobJoinsOps(ops: seq<Op>, jobs: seq<Job>, job: Job)
    requires job.kind == "check" && !Unnamed(CheckOps(ops), job)
    ensures forall a :: a in Unsorted(ops, jobs + [job]) <==>
              (a in Unsorted(ops, jobs) && !Names(a, job.id)) || JoinedAttempt(CheckOps(ops), job, a)
  {
    OneMoreJob(jobs, job);
    Members(ops, jobs);
    Members(ops, jobs + [job]);
    NamedJobIsNoneOfItsOwn(CheckOps(ops), CheckJobs(jobs), job);
    forall a
      ensures a in Unsorted(ops, jobs + [job]) <==>
                (a in Unsorted(ops, jobs) && !Names(a, job.id)) || JoinedAttempt(CheckOps(ops), job, a)
    {
      NamingOpsJoin(CheckOps(ops), CheckJobs(jobs), CheckJobs(jobs) + [job], job, a);
    }
  }

  // ---- What one record more does to settled checks ----

  /** A check that is settled stays so when a job is added that no operation names. */
  lemma {:induction false} MoreJobsKeepSettled(coll: Collation, ops: seq<Op>, jobs: seq<Job>, job: Job, a: Attempt)
    requires Settled(coll, Unsorted(ops, jobs), a)
    requires job.kind == "check" && Unnamed(CheckOps(ops), job)
    ensures Settled(coll, Unsorted(ops, jobs + [job]), a)
  {
    LoneJobAdds(ops, jobs, job);
  }

  /** ... and when an operation is added that names no known job. */
  lemma {:induction false} MoreOpsKeepSettled(coll: Collation, ops: seq<Op>, jobs: seq<Job>, op: Op, a: Attempt)
    requires Settled(coll, Unsorted(ops, jobs), a)
    requires op.kind == "check" && JobOf(op, CheckJobs(jobs)).None?
    ensures Settled(coll, Unsorted(ops + [op], jobs), a)
  {
    LoneOpAdds(ops, jobs, op);
  }

  /** A new attempt, recorded by an operation together with the job it names, reopens nothing: what was an attempt
      remains one, and the new one joins them. */
  lemma {:induction false} NewAttemptKeepsSettled(coll: Collation, ops: seq<Op>, jobs: seq<Job>, op: Op, job: Job,
                                                  a: Attempt)
    requires op.kind == job.kind == "check" && op.jobId == job.id != ""
    requires Unnamed(CheckOps(ops), job) && forall j :: j in CheckJobs(jobs) ==> j.id != job.id
    ensures forall x :: x in Unsorted(ops + [op], jobs + [job]) <==> x in Unsorted(ops, jobs) || x == Joined(op, job)
    ensures Settled(coll, Unsorted(ops, jobs), a) ==> Settled(coll, Unsorted(ops + [op], jobs + [job]), a)
  {
    var cops, cjobs := CheckOps(ops), CheckJobs(jobs);
    JobOfMeaning(op, cjobs);
    Members(ops, jobs);
    forall x | x in Unsorted(ops, jobs) ensures !Names(x, job.id) {
    }
    LoneOpAdds(ops, jobs, op);
    OneMoreOp(ops, op);
    assert op in CheckOps(ops + [op]);
    JobJoinsOps(ops + [op], jobs, job);
    forall o | o in CheckOps(ops + [op]) && o.jobId == job.id ensures o == op {
    }
    assert Names(OfOp(op, |cops|, cjobs), job.id);
  }

  /** An operation added for a job that is known: a settled check stays settled exactly if something else settles it
      or the two do together. */
  lemma {:induction false} OpForKnownJob(coll: Collation, ops: seq<Op>, jobs: seq<Job>, op: Op, job: Job, a: Attempt)
    requires op.kind == "check" && JobOf(op, CheckJobs(jobs)) == Some(job)
    ensures Settled(coll, Unsorted(ops + [op], jobs), a) <==>
              Settles(coll, Joined(op, job), a) ||
                  exists d :: d in Unsorted(ops, jobs) && !LoneOf(d, op.jobId) && Settles(coll, d, a)
  {
    OpJoinsJob(ops, jobs, op, job);
    assert Joined(op, job) in Unsorted(ops + [op], jobs);
  }

  /** The two together do, if the job alone did, exactly if the range that the operation names still covers. */
  lemma {:induction false} JoinedOpSettles(coll: Collation, op: Op, job: Job, i: nat, a: Attempt)
    requires op.jobId == job.id != "" && Settles(coll, OfJob(job, i), a)
    ensures Settles(coll, Joined(op, job), a) <==>
              && (op.range.checks == [] || NormalChecks(ScopeOf(a).value.checks) <= NormalChecks(op.range.checks))
              && (op.range.workdir.None? || NormalWorkdir(op.range.workdir) == NormalWorkdir(ScopeOf(a).value.workdir))
  {
    assert ScopeOf(OfJob(job, i)).value.checks == job.range.checks;
  }

  /** And a stopped check that is such a job stays settled by an attempt exactly if that is newer than its operation,
      too, and covers the range that it names. */
  lemma {:induction false} JoinedOpStaysSettled(coll: Collation, op: Op, job: Job, i: nat, d: Attempt)
    requires op.jobId == job.id != "" && Settles(coll, d, OfJob(job, i))
    ensures Settles(coll, d, Joined(op, job)) <==>
              && (op.time < d.time || (op.time == d.time && coll.behind(d.id, job.id)))
              && (op.range.checks == [] || NormalChecks(op.range.checks) <= NormalChecks(ScopeOf(d).value.checks))
              && (op.range.workdir.None? || NormalWorkdir(op.range.workdir) == NormalWorkdir(ScopeOf(d).value.workdir))
  {
    assert ScopeOf(OfJob(job, i)).value.checks == job.range.checks;
  }

  /** A job added that operations name already: a settled check stays settled exactly if something else settles it or
      one of them does together with the job. */
  lemma {:induction false} JobForKnownOps(coll: Collation, ops: seq<Op>, jobs: seq<Job>, job: Job, a: Attempt)
    requires job.kind == "check" && !Unnamed(CheckOps(ops), job)
    ensures Settled(coll, Unsorted(ops, jobs + [job]), a) <==>
              || (exists op :: op in CheckOps(ops) && op.jobId == job.id && Settles(coll, Joined(op, job), a))
              || exists d :: d in Unsorted(ops, jobs) && !Names(d, job.id) && Settles(coll, d, a)
  {
    JobJoinsOps(ops, jobs, job);
    if op :| op in CheckOps(ops) && op.jobId == job.id && Settles(coll, Joined(op, job), a) {
      assert JoinedAttempt(CheckOps(ops), job, Joined(op, job));
      assert Joined(op, job) in Unsorted(ops, jobs + [job]);
    }
  }

  /** The two together do, if the operation alone did, exactly if the job has ended with a result, is no older than the
      check (or sorts behind it), and names no directory where the operation names none. */
  lemma {:induction false} JoinedJobSettles(coll: Collation, op: Op, job: Job, i: nat, jobs: seq<Job>, a: Attempt)
    requires op.jobId == job.id && JobOf(op, jobs).None? && Settles(coll, OfOp(op, i, jobs), a)
    ensures Settles(coll, Joined(op, job), a) <==>
              && IsDeterminate(job.state)
              && (op.time > a.time || job.time > a.time || coll.behind(job.id, a.id))
              && (op.range.workdir.Some? || NormalWorkdir(job.range.workdir).None?)
  {
    assert ScopeOf(OfOp(op, i, jobs)).value == op.range;
  }

  /** And a stopped check that is such an operation stays settled by an attempt, if the job has been stopped too,
      exactly if that is newer than the job, too, and covers the directory that it names. */
  lemma {:induction false} JoinedJobStaysSettled(coll: Collation, op: Op, job: Job, i: nat, jobs: seq<Job>, d: Attempt)
    requires op.jobId == job.id && JobOf(op, jobs).None? && Settles(coll, d, OfOp(op, i, jobs))
    ensures Settles(coll, d, Joined(op, job)) <==>
              && (job.time < d.time || (job.time == d.time && coll.behind(d.id, job.id)))
              && (op.time < d.time || coll.behind(d.id, job.id))
              && (op.range.workdir.Some? || NormalWorkdir(job.range.workdir) == NormalWorkdir(ScopeOf(d).value.workdir))
  {
    assert ScopeOf(OfOp(op, i, jobs)).value == op.range;
  }

  /** Both can reopen a check: first, an operation that claims other checks for the job that settled it. */
  lemma {:induction false} OpReopens(coll: Collation, done: Job, stopped: Job, op: Op)
    requires done.kind == stopped.kind == op.kind == "check"
    requires done.id != "" && stopped.id != "" && stopped.id != done.id && op.jobId == done.id
    requires IsDeterminate(done.state) && IsStopped(stopped.state) && done.time > stopped.time
    requires done.range == stopped.range && done.range.checks != []
    requires op.range.checks != [] && !(NormalChecks(done.range.checks) <= NormalChecks(op.range.checks))
    ensures var jobs, a := [done, stopped], OfJob(stopped, 1);
            && a in Unsorted([], jobs) && Stopped(a) && Settled(coll, Unsorted([], jobs), a)
            && a in Unsorted([op], jobs) && !Settled(coll, Unsorted([op], jobs), a)
  {
    var jobs, a := [done, stopped], OfJob(stopped, 1);
    TwoJobs(done, stopped);
    assert OfJob(done, 0) in Unsorted([], jobs) && Settles(coll, OfJob(done, 0), a);
    JobOfMeaning(op, jobs);
    assert [] + [op] == [op];
    OpForKnownJob(coll, [], jobs, op, done, a);
    OpJoinsJob([], jobs, op, done);
    JoinedOpSettles(coll, op, done, 0, a);
  }

  lemma {:induction false} TwoJobs(j: Job, k: Job)
    requires j.kind == k.kind == "check"
    ensures CheckJobs([j, k]) == [j, k]
    ensures forall a :: a in Unsorted([], [j, k]) <==> a == OfJob(j, 0) || a == OfJob(k, 1)
  {
    assert CheckJobs([]) == [] && [] + [j] == [j] && [j] + [k] == [j, k];
    OneMoreJob([], j);
    OneMoreJob([j], k);
    LoneJobAdds([], [], j);
    LoneJobAdds([], [j], k);
    assert Unsorted([], []) == [];
  }

  /** Second, a job without a result yet, that the operation names which settled it. */
  lemma {:induction false} JobReopens(coll: Collation, done: Op, stopped: Op, job: Job)
    requires done.kind == stopped.kind == job.kind == "check"
    requires job.id != "" && done.jobId == job.id && stopped.jobId != job.id
    requires IsDeterminate(done.state) && IsStopped(stopped.state) && !IsDeterminate(job.state) &&
              done.time > stopped.time
    requires done.range == stopped.range && done.range.checks != []
    ensures var ops, a := [done, stopped], OfOp(stopped, 1, []);
            && a in Unsorted(ops, []) && Stopped(a) && Settled(coll, Unsorted(ops, []), a)
            && a in Unsorted(ops, [job]) && !Settled(coll, Unsorted(ops, [job]), a)
  {
    var ops, a := [done, stopped], OfOp(stopped, 1, []);
    TwoOps(done, stopped);
    assert OfOp(done, 0, []) in Unsorted(ops, []) && Settles(coll, OfOp(done, 0, []), a);
    assert [] + [job] == [job] && done in ops;
    JobForKnownOps(coll, ops, [], job, a);
    JobJoinsOps(ops, [], job);
  }

  lemma {:induction false} TwoOps(o: Op, p: Op)
    requires o.kind == p.kind == "check"
    ensures CheckOps([o, p]) == [o, p]
    ensures forall a :: a in Unsorted([o, p], []) <==> a == OfOp(o, 0, []) || a == OfOp(p, 1, [])
  {
    assert CheckOps([]) == [] && [] + [o] == [o] && [o] + [p] == [o, p];
    OneMoreOp([], o);
    OneMoreOp([o], p);
    LoneOpAdds([], [], o);
    LoneOpAdds([o], [], p);
    assert Unsorted([], []) == [];
  }
}

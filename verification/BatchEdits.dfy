/** Several symbol edits on one file in one batch: they are applied one after another to a shared line
    array, each at a position corrected for the edits before it
    (malong/write-runtime.js: group loop and applyBatchItem; malong/write-edit.js). */
module BatchEdits {
  import opened Common
  import opened Lines
  import opened Splice

  // ---- Searching ----

  predicate OccursAt(hay: string, needle: string, i: nat) {
    i + |needle| <= |hay| && hay[i..i+|needle|] == needle
  }

  /** hay.indexOf(needle, from) */
  function IndexOf(hay: string, needle: string, from: nat): (r: Option<nat>)
    ensures r.Some? ==> from <= r.value && r.value + |needle| <= |hay|
    decreases |hay| - from
  {
    if from + |needle| > |hay| then None
    else if OccursAt(hay, needle, from) then Some(from)
    else IndexOf(hay, needle, from + 1)
  }

  lemma {:induction false} IndexOfIsFirst(hay: string, needle: string, from: nat)
    ensures var r := IndexOf(hay, needle, from); r.Some? ==> OccursAt(hay, needle, r.value)
    ensures var r := IndexOf(hay, needle, from);
              forall i: nat :: from <= i && (r.Some? ==> i < r.value) ==> !OccursAt(hay, needle, i)
    decreases |hay| - from
  {
    if from + |needle| <= |hay| && !OccursAt(hay, needle, from) {
      IndexOfIsFirst(hay, needle, from + 1);
    }
  }

  /** How many times `needle` is found in `hay` from `from` on, when every find is skipped as a whole. */
  function Finds(hay: string, needle: string, from: nat): nat
    requires needle != ""
    decreases |hay| - from
  {
    match IndexOf(hay, needle, from)
    case None => 0
    case Some(i) => 1 + Finds(hay, needle, i + |needle|)
  }

  method CountOccurrences(hay: string, needle: string) returns (n: nat)
    ensures n == if needle == "" then 0 else Finds(hay, needle, 0)
  {
    if needle == "" { return 0; }
    n := 0;
    var idx := 0;
    while true
      invariant 0 <= idx <= |hay|
      invariant n + Finds(hay, needle, idx) == Finds(hay, needle, 0)
      decreases |hay| - idx
    {
      var found := IndexOf(hay, needle, idx);
      if found.None? {
        return;
      }
      assert Finds(hay, needle, idx) == 1 + Finds(hay, needle, found.value + |needle|);
      n := n + 1;
      idx := found.value + |needle|;
    }
  }

  ghost predicate FirstAt(hay: string, needle: string, f: nat) {
    OccursAt(hay, needle, f) && forall i: nat :: i < f ==> !OccursAt(hay, needle, i)
  }

  /** The uniqueness test behind a patch: a count of one means there is a first occurrence and none behind
      its end. An occurrence that overlaps the first is not noticed. */
  lemma {:induction false} FoundOnce(hay: string, needle: string)
    requires needle != ""
    ensures Finds(hay, needle, 0) == 0 <==> forall i: nat :: !OccursAt(hay, needle, i)
    ensures Finds(hay, needle, 0) == 1 <==>
              exists f: nat ::
                  FirstAt(hay, needle, f) && forall i: nat :: i >= f + |needle| ==> !OccursAt(hay, needle, i)
  {
    IndexOfIsFirst(hay, needle, 0);
    match IndexOf(hay, needle, 0)
    case None =>
    case Some(f) =>
      FoundOnceAt(hay, needle);
      assert FirstAt(hay, needle, f);
      assert forall g: nat :: FirstAt(hay, needle, g) ==> g == f;
  }

  /** Where it is found first, and whether it is found again. */
  lemma {:induction false} FoundOnceAt(hay: string, needle: string)
    requires needle != "" && IndexOf(hay, needle, 0).Some?
    ensures var f := IndexOf(hay, needle, 0).value;
            && FirstAt(hay, needle, f) && Finds(hay, needle, 0) >= 1
            && (Finds(hay, needle, 0) == 1 <==> forall i: nat :: i >= f + |needle| ==> !OccursAt(hay, needle, i))
  {
    IndexOfIsFirst(hay, needle, 0);
    var f := IndexOf(hay, needle, 0).value;
    IndexOfIsFirst(hay, needle, f + |needle|);
    match IndexOf(hay, needle, f + |needle|)
    case None => assert Finds(hay, needle, f + |needle|) == 0;
    case Some(g) => assert OccursAt(hay, needle, g) && Finds(hay, needle, f + |needle|) >= 1;
  }

  /** A proper prefix of the needle, b characters long, is also its suffix. */
  predicate Border(needle: string, b: nat) {
    0 < b < |needle| && needle[..b] == needle[|needle|-b..]
  }

  ghost predicate OccursOnce(hay: string, needle: string) {
    forall i: nat, j: nat :: OccursAt(hay, needle, i) && OccursAt(hay, needle, j) ==> i == j
  }

  /** Two occurrences that overlap make a border. */
  lemma {:induction false} OverlapIsBorder(hay: string, needle: string, i: nat, j: nat)
    requires OccursAt(hay, needle, i) && OccursAt(hay, needle, j) && i < j < i + |needle|
    ensures Border(needle, i + |needle| - j)
  {
    var n, b := |needle|, i + |needle| - j;
    forall k | 0 <= k < b ensures needle[k] == needle[n-b+k] {
      assert hay[j..j+n][k] == hay[j+k] == hay[i..i+n][n-b+k];
    }
    assert needle[..b] == needle[n-b..];
  }

  /** A needle with a border is found once in a text that holds it twice. */
  lemma {:induction false} OverlapMissed(needle: string, b: nat)
    requires Border(needle, b)
    ensures var hay := needle + needle[b..];
            Finds(hay, needle, 0) == 1 && OccursAt(hay, needle, 0) && OccursAt(hay, needle, |needle| - b) &&
                !OccursOnce(hay, needle)
  {
    var n, hay := |needle|, needle + needle[b..];
    assert hay[0..n] == needle;
    forall k | 0 <= k < n ensures hay[n-b..n-b+n][k] == needle[k] {
      if k < b {
        assert hay[n-b+k] == needle[n-b..][k] == needle[..b][k];
      }
    }
    assert hay[n-b..n-b+n] == needle;
    assert OccursAt(hay, needle, 0) && OccursAt(hay, needle, n - b);
    assert IndexOf(hay, needle, 0) == Some(0) && IndexOf(hay, needle, n) == None;
    assert Finds(hay, needle, n) == 0;
  }

  /** What a count of one is worth: it means a single occurrence in every text exactly if the needle has no border. */
  lemma {:induction false} OneMeansSingle(needle: string)
    requires needle != ""
    ensures (forall hay :: Finds(hay, needle, 0) == 1 ==> OccursOnce(hay, needle)) <==>
              forall b: nat :: !Border(needle, b)
  {
    if b: nat :| Border(needle, b) {
      OverlapMissed(needle, b);
    } else {
      forall hay | Finds(hay, needle, 0) == 1 ensures OccursOnce(hay, needle) {
        FoundOnce(hay, needle);
        var f: nat :| FirstAt(hay, needle, f) && forall i: nat :: i >= f + |needle| ==> !OccursAt(hay, needle, i);
        forall i: nat | OccursAt(hay, needle, i) ensures i == f {
          if i > f {
            OverlapIsBorder(hay, needle, f, i);
          }
        }
      }
    }
  }

  /** text.replace(needle, () => repl): the first occurrence. */
  function ReplaceFirst(hay: string, needle: string, repl: string): string {
    match IndexOf(hay, needle, 0)
    case None => hay
    case Some(i) => hay[..i] + repl + hay[i+|needle|..]
  }

  // ---- Edits ----

  datatype Op =
    | ReplaceFull(content: string)
    | ReplaceBody(content: string)
    | InsertAfter(content: string)
    | Patch(find: string, repl: string)

  datatype Error =
    | SingleLineSymbol | BodyContainsSignature | MissingParameter
    | OldStringNotFound | OldStringAmbiguous | DuplicateSymbolEdit

  /** What applyBatchItem returns. */
  datatype Outcome<+T> = Edited(result: T) | AlreadyApplied | Fails(error: Error)

  predicate AnyLineTrimsTo(lines: seq<Line>, s: string) {
    exists l :: l in lines && Trim(l) == s
  }

  /** applyBodyEdit, called with the range [lo + 2, hi] in the source's counting: the signature line stays. */
  function ApplyBodyEdit(lines: seq<Line>, lo: nat, hi: nat, content: string): Outcome<seq<Line>>
    requires lo < hi <= |lines|
  {
    if hi < lo + 2 then Fails(SingleLineSymbol)
    else if Trim(lines[lo]) != "" && AnyLineTrimsTo(Split(content), Trim(lines[lo])) then Fails(BodyContainsSignature)
    else Edited(lines[..lo+1] + Split(content) + lines[hi..])
  }

  /** applyBatchItem on the symbol at lines lo..hi. */
  function ApplyBatchItem(lines: seq<Line>, lo: nat, hi: nat, op: Op): Outcome<seq<Line>>
    requires lo < hi <= |lines|
  {
    match op
    case Patch(find, repl) =>
      var scope := Join(lines[lo..hi]);
      if find == "" then Fails(MissingParameter)
      else if Finds(scope, find, 0) == 0 then
        if repl != "" && Finds(scope, repl, 0) > 0 then AlreadyApplied else Fails(OldStringNotFound)
      else if Finds(scope, find, 0) > 1 then Fails(OldStringAmbiguous)
      else Edited(lines[..lo] + Split(ReplaceFirst(scope, find, repl)) + lines[hi..])
    case ReplaceBody(content) =>
      if Trim(Join(lines[lo+1..hi])) == Trim(content) then AlreadyApplied
      else ApplyBodyEdit(lines, lo, hi, content)
    case ReplaceFull(content) =>
      if Trim(Join(lines[lo..hi])) == Trim(content) then AlreadyApplied
      else Edited(lines[..lo] + Split(content) + lines[hi..])
    case InsertAfter(content) => Edited(lines[..hi] + Split(content) + lines[hi..])
  }

  /** The idempotency check made before an item is applied; the range may be stale, so it is clamped. */
  predicate AlreadyThere(lines: seq<Line>, lo: nat, hi: nat, op: Op) {
    match op
    case ReplaceFull(content) => content != "" && Trim(Join(Slice(lines, lo, hi))) == Trim(content)
    case ReplaceBody(content) => content != "" && Trim(Join(Slice(lines, lo + 1, hi))) == Trim(content)
    case InsertAfter(_) => false
    case Patch(find, repl) =>
      && find != "" && Finds(Join(Slice(lines, lo, hi)), find, 0) == 0
      && repl != "" && Finds(Join(Slice(lines, lo, hi)), repl, 0) > 0
  }

  /** What an item does to the body of its symbol, seen on its own. */
  function Effect(body: seq<Line>, op: Op): Outcome<seq<Line>>
    requires body != []
  {
    if AlreadyThere(body, 0, |body|, op) then AlreadyApplied else ApplyBatchItem(body, 0, |body|, op)
  }

  /** What an edit means for the text of its symbol: the whole is replaced; or all but the first line; or text is
      put behind it; or the first place where the old string stands gets the new one, the rest staying. */
  lemma {:induction false} EditMeaning(body: seq<Line>, op: Op)
    requires body != [] && Effect(body, op).Edited?
    ensures op.ReplaceFull? ==> Join(Effect(body, op).result) == op.content
    ensures op.ReplaceBody? ==> |body| >= 2 && KeepsFirst(body, Effect(body, op).result, op.content)
    ensures op.InsertAfter? ==> var r := Effect(body, op).result; body <= r && Join(r[|body|..]) == op.content
    ensures op.Patch? ==> exists u, v :: Patched(Join(body), op.find, op.repl, Join(Effect(body, op).result), u, v)
  {
    match op
    case ReplaceFull(content) =>
      JoinSplit(content);
      WholeMeaning(body, Split(content));
    case ReplaceBody(content) =>
      JoinSplit(content);
      TailMeaning(body, 1, Split(content));
    case InsertAfter(content) =>
      JoinSplit(content);
      TailMeaning(body, |body|, Split(content));
    case Patch(find, repl) => PatchMeaning(body, find, repl);
  }

  lemma {:induction false} WholeMeaning(body: seq<Line>, ins: seq<Line>)
    ensures body[..0] + ins + body[|body|..] == ins
  {
  }

  lemma {:induction false} TailMeaning(body: seq<Line>, k: nat, ins: seq<Line>)
    requires k <= |body|
    ensures var r := body[..k] + ins + body[|body|..];
              r[..k] == body[..k] && r[k..] == ins && (k == |body| ==> body <= r)
  {
  }

  lemma {:induction false} PatchMeaning(body: seq<Line>, find: string, repl: string)
    requires body != [] && Effect(body, Patch(find, repl)).Edited?
    ensures exists u, v :: Patched(Join(body), find, repl, Join(Effect(body, Patch(find, repl)).result), u, v)
  {
    assert body[0..|body|] == body;
    var text := Join(body);
    var after := ReplaceFirst(text, find, repl);
    JoinSplit(after);
    WholeMeaning(body, Split(after));
    PatchedText(text, find, repl);
  }

  lemma {:induction false} PatchedText(text: string, find: string, repl: string)
    requires find != "" && Finds(text, find, 0) == 1
    ensures exists u, v :: Patched(text, find, repl, ReplaceFirst(text, find, repl), u, v)
  {
    FoundOnceAt(text, find);
    var i := IndexOf(text, find, 0).value;
    assert text == text[..i] + find + text[i+|find|..];
    assert Patched(text, find, repl, ReplaceFirst(text, find, repl), text[..i], text[i+|find|..]);
  }

  ghost predicate KeepsFirst(body: seq<Line>, r: seq<Line>, content: string)
    requires body != []
  {
    r != [] && r[0] == body[0] && Join(r[1..]) == content
  }

  ghost predicate Patched(before: string, find: string, repl: string, after: string, u: string, v: string) {
    && before == u + find + v && after == u + repl + v
    && FirstAt(before, find, |u|) && forall i: nat :: i >= |u| + |find| ==> !OccursAt(before, find, i)
  }

  /** When an edit is refused, and for what. */
  lemma {:induction false} RefusalMeaning(body: seq<Line>, op: Op)
    requires body != []
    ensures op.ReplaceFull? ==> !Effect(body, op).Fails?
    ensures op.ReplaceFull? ==> (Effect(body, op) == AlreadyApplied <==> Trim(Join(body)) == Trim(op.content))
    ensures op.InsertAfter? ==> Effect(body, op).Edited?
    ensures op.ReplaceBody? ==>
              var r, same := Effect(body, op), Trim(Join(body[1..])) == Trim(op.content);
              && (r == AlreadyApplied <==> same)
              && (r == Fails(SingleLineSymbol) <==> !same && |body| == 1)
              && (r == Fails(BodyContainsSignature) <==> !same && |body| > 1 && RepeatsSignature(body, op.content))
              && (r.Edited? <==> !same && |body| > 1 && !RepeatsSignature(body, op.content))
    ensures op.Patch? ==> (Effect(body, op) == Fails(MissingParameter) <==> op.find == "")
    ensures op.Patch? && op.find != "" ==>
              var gone, there := !Occurs(Join(body), op.find), op.repl != "" && Occurs(Join(body), op.repl);
              && (Effect(body, op) == Fails(OldStringNotFound) <==> gone && !there)
              && (Effect(body, op) == AlreadyApplied <==> gone && there)
              && (Effect(body, op) == Fails(OldStringAmbiguous) <==> OccursApart(Join(body), op.find))
              && (Effect(body, op).Edited? <==> !gone && !OccursApart(Join(body), op.find))
  {
    assert body[0..|body|] == body && body[1..|body|] == body[1..];
    assert Slice(body, 0, |body|) == body && Slice(body, 1, |body|) == body[1..];
    match op
    case Patch(find, repl) =>
      if find != "" {
        FoundOnce(Join(body), find);
        FoundApart(Join(body), find);
      }
      if repl != "" { FoundOnce(Join(body), repl); }
    case ReplaceBody(_) =>
    case ReplaceFull(_) =>
    case InsertAfter(_) =>
  }

  /** The new body has a line that reads like the signature line, whatever the indentation. */
  ghost predicate RepeatsSignature(body: seq<Line>, content: string)
    requires body != []
  {
    Trim(body[0]) != "" && exists l :: l in Split(content) && Trim(l) == Trim(body[0])
  }

  /** The needle stands at two places that do not overlap. */
  ghost predicate OccursApart(hay: string, needle: string) {
    exists i: nat, j: nat :: OccursAt(hay, needle, i) && OccursAt(hay, needle, j) && i + |needle| <= j
  }

  lemma {:induction false} FoundApart(hay: string, needle: string)
    requires needle != ""
    ensures Finds(hay, needle, 0) > 1 <==> OccursApart(hay, needle)
  {
    FoundOnce(hay, needle);
    if IndexOf(hay, needle, 0).Some? {
      FoundOnceAt(hay, needle);
      var f := IndexOf(hay, needle, 0).value;
      if Finds(hay, needle, 0) > 1 {
        var i: nat :| i >= f + |needle| && OccursAt(hay, needle, i);
        assert OccursAt(hay, needle, f);
      }
      if i: nat, j: nat :| OccursAt(hay, needle, i) && OccursAt(hay, needle, j) && i + |needle| <= j {
        assert i >= f;
      }
    }
  }

  ghost predicate Occurs(hay: string, needle: string) {
    exists i: nat :: OccursAt(hay, needle, i)
  }

  /** What the lines of a symbol have to be after an edit that was not refused: they say what the edit asks for. */
  ghost predicate Serves(body: seq<Line>, op: Op, after: seq<Line>)
    requires body != []
  {
    match op
    case ReplaceFull(content) => Trim(Join(after)) == Trim(content)
    case ReplaceBody(content) => after != [] && after[0] == body[0] && Trim(Join(after[1..])) == Trim(content)
    case InsertAfter(content) => body <= after && Join(after[|body|..]) == content
    case Patch(find, repl) =>
      || (exists u, v :: Patched(Join(body), find, repl, Join(after), u, v))
      || (after == body && !Occurs(Join(body), find) && repl != "" && Occurs(Join(body), repl))
  }

  lemma {:induction false} EffectServes(body: seq<Line>, op: Op)
    requires body != [] && !Effect(body, op).Fails?
    ensures Serves(body, op, if Effect(body, op).Edited? then Effect(body, op).result else body)
  {
    if Effect(body, op).Edited? {
      EditMeaning(body, op);
    } else {
      RefusalMeaning(body, op);
    }
  }

  /** What an item makes of the lines, given what it makes of its symbol alone. */
  ghost predicate Local(lines: seq<Line>, lo: nat, hi: nat, whole: Outcome<seq<Line>>, alone: Outcome<seq<Line>>)
    requires lo <= hi <= |lines|
  {
    match whole
    case Edited(ls) => alone.Edited? && ls == lines[..lo] + alone.result + lines[hi..]
    case AlreadyApplied => alone == AlreadyApplied
    case Fails(err) => alone == Fails(err)
  }

  lemma {:induction false} SpliceIsLocal(lines: seq<Line>, lo: nat, hi: nat, from: nat, ins: seq<Line>)
    requires lo <= from <= hi <= |lines|
    ensures lines[..from] + ins + lines[hi..]
         == lines[..lo] + (lines[lo..hi][..from-lo] + ins + lines[lo..hi][hi-lo..]) + lines[hi..]
  {
    assert lines[..from] == lines[..lo] + lines[lo..hi][..from-lo];
    assert lines[lo..hi][hi-lo..] == [];
  }

  lemma {:induction false} ApplyIsLocal(lines: seq<Line>, lo: nat, hi: nat, op: Op)
    requires lo < hi <= |lines|
    ensures Local(lines, lo, hi, ApplyBatchItem(lines, lo, hi, op), ApplyBatchItem(lines[lo..hi], 0, hi - lo, op))
  {
    var body := lines[lo..hi];
    assert body[0..hi-lo] == body;
    assert lines[lo+1..hi] == body[1..hi-lo];
    match op
    case InsertAfter(content) => SpliceIsLocal(lines, lo, hi, hi, Split(content));
    case ReplaceBody(content) => SpliceIsLocal(lines, lo, hi, lo + 1, Split(content));
    case ReplaceFull(content) => SpliceIsLocal(lines, lo, hi, lo, Split(content));
    case Patch(find, repl) => SpliceIsLocal(lines, lo, hi, lo, Split(ReplaceFirst(Join(body), find, repl)));
  }

  /** An item looks at nothing outside the lines of its symbol and changes nothing outside them. */
  lemma {:induction false} ItemIsLocal(lines: seq<Line>, lo: nat, hi: nat, op: Op)
    requires lo < hi <= |lines|
    ensures AlreadyThere(lines, lo, hi, op) ==> Effect(lines[lo..hi], op) == AlreadyApplied
    ensures !AlreadyThere(lines, lo, hi, op) ==>
              Local(lines, lo, hi, ApplyBatchItem(lines, lo, hi, op), Effect(lines[lo..hi], op))
  {
    var body := lines[lo..hi];
    assert Slice(lines, lo, hi) == body && Slice(body, 0, |body|) == body;
    assert Slice(lines, lo + 1, hi) == Slice(body, 1, |body|);
    ApplyIsLocal(lines, lo, hi, op);
  }

  // ---- The group loop ----

  /** One item of a batch: an operation on the symbol at zones[target]. */
  datatype Item = Item(target: nat, op: Op)

  /** An edit that was applied: the last line of its symbol in the original, and how many lines it added. */
  datatype Applied = Applied(endLine: nat, delta: int)

  /** The correction for a symbol whose first line is lo: the deltas of the edits that ended before it. */
  ghost function OffsetOf(applied: seq<Applied>, lo: nat): int {
    if applied == [] then 0
    else OffsetOf(applied[..|applied|-1], lo) + if applied[|applied|-1].endLine <= lo then
        applied[|applied|-1].delta else 0
  }

  method OffsetFor(applied: seq<Applied>, lo: nat) returns (offset: int)
    ensures offset == OffsetOf(applied, lo)
  {
    offset := 0;
    for i := 0 to |applied|
      invariant offset == OffsetOf(applied[..i], lo)
    {
      if applied[i].endLine < lo + 1 {
        offset := offset + applied[i].delta;
      }
      assert applied[..i+1][..i] == applied[..i];
    }
    assert applied[..|applied|] == applied;
  }

  /** The list of applied edits after one more. */
  function Note(applied: seq<Applied>, endLine: nat, delta: int): seq<Applied> {
    if delta != 0 then applied + [Applied(endLine, delta)] else applied
  }

  ghost predicate Targeted(zones: seq<Zone>, items: seq<Item>) {
    forall i :: 0 <= i < |items| ==> items[i].target < |zones|
  }

  /** No two of the first n items have the same target. */
  ghost predicate DistinctTargets(items: seq<Item>, n: nat)
    requires n <= |items|
  {
    forall i, j :: 0 <= i < j < n ==> items[i].target != items[j].target
  }

  ghost predicate TargetOf(items: seq<Item>, n: nat, k: nat)
    requires n <= |items|
  {
    exists i :: 0 <= i < n && items[i].target == k
  }

  /** What an item makes of the original symbol, seen on its own. */
  ghost function EffectOf(orig: seq<Line>, zones: seq<Zone>, item: Item): Outcome<seq<Line>>
    requires Disjoint(orig, zones) && item.target < |zones|
  {
    Effect(Body(orig, zones[item.target]), item.op)
  }

  ghost predicate NoneFails(orig: seq<Line>, zones: seq<Zone>, items: seq<Item>, n: nat)
    requires Disjoint(orig, zones) && Targeted(zones, items) && n <= |items|
  {
    forall i :: 0 <= i < n ==> !EffectOf(orig, zones, items[i]).Fails?
  }

  /** One of the first n items edits symbol k, seen on its own, to r. */
  ghost predicate Makes(orig: seq<Line>, zones: seq<Zone>, items: seq<Item>, n: nat, k: nat, r: seq<Line>)
    requires Disjoint(orig, zones) && Targeted(zones, items) && n <= |items|
  {
    exists i :: 0 <= i < n && items[i].target == k && EffectOf(orig, zones, items[i]) == Edited(r)
  }

  /** The replacements are those the first n items make, each on its own; all of them if no symbol is a target
      twice. */
  ghost predicate MadeBy(orig: seq<Line>, zones: seq<Zone>, items: seq<Item>, n: nat, repl: map<nat, seq<Line>>)
    requires Disjoint(orig, zones) && Targeted(zones, items) && n <= |items|
  {
    && (forall k :: k in repl ==> Makes(orig, zones, items, n, k, repl[k]))
    && (DistinctTargets(items, n) ==>
           forall k: nat, r: seq<Line> :: Makes(orig, zones, items, n, k, r) ==> Holds(repl, k, r))
  }

  ghost predicate Holds(repl: map<nat, seq<Line>>, k: nat, r: seq<Line>) {
    k in repl && repl[k] == r
  }

  /** The list of applied edits says by how much each zone not yet reached has moved. */
  ghost predicate Corrects(zones: seq<Zone>, repl: map<nat, seq<Line>>, applied: seq<Applied>) {
    forall k :: 0 <= k < |zones| ==> OffsetOf(applied, zones[k].lo) == Shift(zones, repl, k)
  }

  lemma {:induction false} CorrectsOneMore(orig: seq<Line>, zones: seq<Zone>, repl: map<nat, seq<Line>>,
                                           applied: seq<Applied>, j: nat, r: seq<Line>)
    requires Disjoint(orig, zones) && j < |zones| && j !in repl && Corrects(zones, repl, applied)
    ensures var delta := |r| - (zones[j].hi - zones[j].lo);
            Corrects(zones, repl[j := r], Note(applied, zones[j].hi, delta))
  {
    var delta := |r| - (zones[j].hi - zones[j].lo);
    var more := applied + [Applied(zones[j].hi, delta)];
    assert more[..|applied|] == applied;
    forall k | 0 <= k < |zones|
      ensures OffsetOf(more, zones[k].lo) == Shift(zones, repl[j := r], k) ==
                OffsetOf(applied, zones[k].lo) + if j < k then delta else 0
    {
      ShiftAfter(zones, repl, k, j, r);
      assert j < k <==> zones[j].hi <= zones[k].lo;
    }
  }

  datatype GroupResult = Done(lines: seq<Line>) | Refused(item: nat, error: Error)

  lemma {:induction false} MakesGrows(orig: seq<Line>, zones: seq<Zone>, items: seq<Item>, n: nat, k: nat, r: seq<Line>)
    requires Disjoint(orig, zones) && Targeted(zones, items) && n < |items|
    ensures Makes(orig, zones, items, n, k, r) ==> Makes(orig, zones, items, n + 1, k, r)
    ensures Makes(orig, zones, items, n + 1, k, r) ==>
              Makes(orig, zones, items, n, k, r) ||
                  (k == items[n].target && EffectOf(orig, zones, items[n]) == Edited(r))
  {
  }

  /** The replacements after one more item that did not edit its symbol ... */
  lemma {:induction false} MadeByIdle(orig: seq<Line>, zones: seq<Zone>, items: seq<Item>, repl: map<nat, seq<Line>>,
                                      n: nat)
    requires Disjoint(orig, zones) && n < |items| && Targeted(zones, items)
    requires MadeBy(orig, zones, items, n, repl)
    requires EffectOf(orig, zones, items[n]).Edited? ==> !DistinctTargets(items, n + 1)
    ensures MadeBy(orig, zones, items, n + 1, repl)
  {
    forall k | k in repl ensures Makes(orig, zones, items, n + 1, k, repl[k]) {
      MakesGrows(orig, zones, items, n, k, repl[k]);
    }
    if DistinctTargets(items, n + 1) {
      var m := n + 1;
      forall k: nat, r | Makes(orig, zones, items, m, k, r) ensures Holds(repl, k, r) {
        MakesGrows(orig, zones, items, n, k, r);
      }
    }
  }

  /** ... and after one that did. */
  lemma {:induction false} MadeByOneMore(orig: seq<Line>, zones: seq<Zone>, items: seq<Item>, repl: map<nat, seq<Line>>,
                                         n: nat, r: seq<Line>)
    requires Disjoint(orig, zones) && n < |items| && Targeted(zones, items)
    requires MadeBy(orig, zones, items, n, repl)
    requires EffectOf(orig, zones, items[n]) == Edited(r) && items[n].target !in repl
    ensures MadeBy(orig, zones, items, n + 1, repl[items[n].target := r])
  {
    var t := items[n].target;
    var repl' := repl[t := r];
    assert Makes(orig, zones, items, n + 1, t, r);
    forall k | k in repl' ensures Makes(orig, zones, items, n + 1, k, repl'[k]) {
      if k != t {
        MakesGrows(orig, zones, items, n, k, repl[k]);
      }
    }
    if DistinctTargets(items, n + 1) {
      var m := n + 1;
      forall k: nat, q | Makes(orig, zones, items, m, k, q) ensures Holds(repl', k, q) {
        MakesGrows(orig, zones, items, n, k, q);
        if k == t {
          assert !Makes(orig, zones, items, n, k, q);
        } else {
          assert Holds(repl, k, q);
        }
      }
    }
  }

  /** One item on the spliced lines, where the list of applied edits says its symbol now stands. */
  lemma {:induction false} ItemOnSplice(orig: seq<Line>, zones: seq<Zone>, repl: map<nat, seq<Line>>, item: Item,
                                        lines: seq<Line>, lo: int, hi: int)
    requires Disjoint(orig, zones) && item.target < |zones| && item.target !in repl
    requires lines == Spliced(orig, zones, repl)
    requires lo == zones[item.target].lo + Shift(zones, repl, item.target) &&
              hi == zones[item.target].hi + Shift(zones, repl, item.target)
    ensures 0 <= lo < hi <= |lines|
    ensures AlreadyThere(lines, lo, hi, item.op) ==> EffectOf(orig, zones, item) == AlreadyApplied
    ensures !AlreadyThere(lines, lo, hi, item.op) ==>
              match ApplyBatchItem(lines, lo, hi, item.op)
              case Edited(ls) => EffectOf(orig, zones, item).Edited?
                              && ls == Spliced(orig, zones, repl[item.target := EffectOf(orig, zones, item).result])
                              && |ls| - |lines| == |EffectOf(orig, zones, item).result| - (hi - lo)
              case AlreadyApplied => EffectOf(orig, zones, item) == AlreadyApplied
              case Fails(e) => EffectOf(orig, zones, item) == Fails(e)
  {
    var body := Body(orig, zones[item.target]);
    SpliceOneMore(orig, zones, repl, item.target, body);
    assert lines[lo..hi] == body;
    ItemIsLocal(lines, lo, hi, item.op);
    var e := EffectOf(orig, zones, item);
    if e.Edited? {
      EditOnSplice(orig, zones, repl, item.target, lines, lo, hi, e.result);
    }
  }

  lemma {:induction false} EditOnSplice(orig: seq<Line>, zones: seq<Zone>, repl: map<nat, seq<Line>>, k: nat,
                                        lines: seq<Line>, lo: nat, hi: nat, r: seq<Line>)
    requires Disjoint(orig, zones) && k < |zones| && k !in repl && lines == Spliced(orig, zones, repl)
    requires lo == zones[k].lo + Shift(zones, repl, k) && hi == zones[k].hi + Shift(zones, repl, k) && hi <= |lines|
    ensures var ls := lines[..lo] + r + lines[hi..];
            ls == Spliced(orig, zones, repl[k := r]) && |ls| - |lines| == |r| - (hi - lo)
  {
    SpliceOneMore(orig, zones, repl, k, r);
  }

  /** Where the group loop stands before item n. */
  ghost predicate Progress(orig: seq<Line>, zones: seq<Zone>, items: seq<Item>, n: nat,
                           lines: seq<Line>, applied: seq<Applied>, targets: set<nat>, repl: map<nat, seq<Line>>)
    requires Disjoint(orig, zones) && Targeted(zones, items) && n <= |items|
  {
    && lines == Spliced(orig, zones, repl)
    && Corrects(zones, repl, applied)
    && repl.Keys <= targets
    && Claimed(zones, items, n, targets)
    && MadeBy(orig, zones, items, n, repl)
    && FineSoFar(orig, zones, items, n)
  }

  lemma {:induction false} IdleStep(orig: seq<Line>, zones: seq<Zone>, items: seq<Item>, n: nat,
                 lines: seq<Line>, applied: seq<Applied>, targets: set<nat>, repl: map<nat, seq<Line>>)
    requires Disjoint(orig, zones) && Targeted(zones, items) && n < |items|
    requires Progress(orig, zones, items, n, lines, applied, targets, repl)
    requires EffectOf(orig, zones, items[n]) == AlreadyApplied || items[n].target in targets
    ensures Progress(orig, zones, items, n + 1, lines, applied, targets, repl)
    ensures Progress(orig, zones, items, n + 1, lines, applied, targets + {items[n].target}, repl)
  {
    MadeByIdle(orig, zones, items, repl, n);
    ClaimedOneMore(zones, items, n, targets);
    FineOneMore(orig, zones, items, n);
  }

  /** With no symbol a target twice, no item so far fails on its own. */
  ghost predicate FineSoFar(orig: seq<Line>, zones: seq<Zone>, items: seq<Item>, n: nat)
    requires Disjoint(orig, zones) && Targeted(zones, items) && n <= |items|
  {
    DistinctTargets(items, |items|) ==> NoneFails(orig, zones, items, n)
  }

  lemma {:induction false} FineOneMore(orig: seq<Line>, zones: seq<Zone>, items: seq<Item>, n: nat)
    requires Disjoint(orig, zones) && Targeted(zones, items) && n < |items| && FineSoFar(orig, zones, items, n)
    requires !EffectOf(orig, zones, items[n]).Fails? || TargetOf(items, n, items[n].target)
    ensures FineSoFar(orig, zones, items, n + 1)
  {
  }

  lemma {:induction false} KeysGrow(repl: map<nat, seq<Line>>, targets: set<nat>, k: nat, r: seq<Line>)
    requires repl.Keys <= targets
    ensures repl[k := r].Keys <= targets + {k}
  {
  }

  /** Every target is one of a zone, and of an item so far. */
  ghost predicate Claimed(zones: seq<Zone>, items: seq<Item>, n: nat, targets: set<nat>)
    requires n <= |items|
  {
    forall k :: k in targets ==> k < |zones| && TargetOf(items, n, k)
  }

  lemma {:induction false} ClaimedOneMore(zones: seq<Zone>, items: seq<Item>, n: nat, targets: set<nat>)
    requires n < |items| && items[n].target < |zones| && Claimed(zones, items, n, targets)
    ensures Claimed(zones, items, n + 1, targets) && Claimed(zones, items, n + 1, targets + {items[n].target})
  {
  }

  lemma {:induction false} EditStep(orig: seq<Line>, zones: seq<Zone>, items: seq<Item>, n: nat,
                 lines: seq<Line>, applied: seq<Applied>, targets: set<nat>, repl: map<nat, seq<Line>>, r: seq<Line>,
                 lines': seq<Line>)
    requires Disjoint(orig, zones) && Targeted(zones, items) && n < |items|
    requires Progress(orig, zones, items, n, lines, applied, targets, repl)
    requires EffectOf(orig, zones, items[n]) == Edited(r) && items[n].target !in targets
    requires lines' == Spliced(orig, zones, repl[items[n].target := r])
    ensures var k := items[n].target;
            Progress(orig, zones, items, n + 1, lines', Note(applied, zones[k].hi, |r| - (zones[k].hi - zones[k].lo)),
                targets + {k}, repl[k := r])
  {
    CorrectsOneMore(orig, zones, repl, applied, items[n].target, r);
    MadeByOneMore(orig, zones, items, repl, n, r);
    ClaimedOneMore(zones, items, n, targets);
    FineOneMore(orig, zones, items, n);
    KeysGrow(repl, targets, items[n].target, r);
  }

  lemma {:induction false} NoItemYet(orig: seq<Line>, zones: seq<Zone>, items: seq<Item>)
    requires Disjoint(orig, zones) && Targeted(zones, items)
    ensures Progress(orig, zones, items, 0, orig, [], {}, map[])
  {
    NothingReplaced(orig, zones, 0);
    forall k | 0 <= k < |zones| ensures OffsetOf([], zones[k].lo) == Shift<Line>(zones, map[], k) {
      NoShift<Line>(zones, k);
    }
  }

  lemma {:induction false} NotAboveTheFile(orig: seq<Line>, zones: seq<Zone>, repl: map<nat, seq<Line>>, k: nat)
    requires Disjoint(orig, zones) && k < |zones|
    ensures 0 <= zones[k].lo + Shift(zones, repl, k)
  {
    Places(orig, zones, repl, k);
  }

  /** Why item n may be refused: it fails on its own, or its symbol is already a target. */
  ghost predicate Refusable(orig: seq<Line>, zones: seq<Zone>, items: seq<Item>, n: nat, error: Error)
    requires Disjoint(orig, zones) && Targeted(zones, items)
  {
    && n < |items|
    && (DistinctTargets(items, |items|) ==> NoneFails(orig, zones, items, n))
    && if EffectOf(orig, zones, items[n]) == Fails(error) then true
       else error == DuplicateSymbolEdit && TargetOf(items, n, items[n].target) && !DistinctTargets(items, |items|)
  }

  /** What one turn of the loop makes of its variables, or the error it ends with. */
  datatype TurnResult = Goes(lines: seq<Line>, applied: seq<Applied>, targets: set<nat>) | Stops(error: Error)

  function TakeTurn(lines: seq<Line>, applied: seq<Applied>, targets: set<nat>, item: Item, endLine: nat, lo: nat,
                    hi: nat): TurnResult
    requires lo < hi && (item.target !in targets ==> hi <= |lines|)
  {
    if AlreadyThere(lines, lo, hi, item.op) then Goes(lines, applied, targets)
    else if item.target in targets then Stops(DuplicateSymbolEdit)
    else
      match ApplyBatchItem(lines, lo, hi, item.op)
      case Fails(e) => Stops(e)
      case AlreadyApplied => Goes(lines, applied, targets + {item.target})
      case Edited(edited) => Goes(edited, Note(applied, endLine, |edited| - |lines|), targets + {item.target})
  }

  /** Where the loop stands after item n. */
  ghost predicate TurnOk(orig: seq<Line>, zones: seq<Zone>, items: seq<Item>, n: nat, r: TurnResult,
                         repl: map<nat, seq<Line>>)
    requires Disjoint(orig, zones) && Targeted(zones, items) && n < |items|
  {
    match r
    case Goes(lines, applied, targets) => Progress(orig, zones, items, n + 1, lines, applied, targets, repl)
    case Stops(error) => Refusable(orig, zones, items, n, error)
  }

  lemma {:induction false} AgainTurn(orig: seq<Line>, zones: seq<Zone>, items: seq<Item>, n: nat,
                  lines: seq<Line>, applied: seq<Applied>, targets: set<nat>, repl: map<nat, seq<Line>>, lo: int,
                  hi: int)
    requires Disjoint(orig, zones) && Targeted(zones, items) && n < |items|
    requires Progress(orig, zones, items, n, lines, applied, targets, repl) && items[n].target in targets
    requires var z := zones[items[n].target];
              lo == z.lo + OffsetOf(applied, z.lo) && hi == z.hi + OffsetOf(applied, z.lo)
    ensures 0 <= lo < hi
    ensures TurnOk(orig, zones, items, n,
              TakeTurn(lines, applied, targets, items[n], zones[items[n].target].hi, lo, hi), repl)
  {
    NotAboveTheFile(orig, zones, repl, items[n].target);
    IdleStep(orig, zones, items, n, lines, applied, targets, repl);
  }

  lemma {:induction false} FirstTurn(orig: seq<Line>, zones: seq<Zone>, items: seq<Item>, n: nat,
                  lines: seq<Line>, applied: seq<Applied>, targets: set<nat>, repl: map<nat, seq<Line>>, lo: int,
                  hi: int)
    returns (repl': map<nat, seq<Line>>)
    requires Disjoint(orig, zones) && Targeted(zones, items) && n < |items|
    requires Progress(orig, zones, items, n, lines, applied, targets, repl) && items[n].target !in targets
    requires var z := zones[items[n].target];
              lo == z.lo + OffsetOf(applied, z.lo) && hi == z.hi + OffsetOf(applied, z.lo)
    ensures 0 <= lo < hi <= |lines|
    ensures TurnOk(orig, zones, items, n,
              TakeTurn(lines, applied, targets, items[n], zones[items[n].target].hi, lo, hi), repl')
  {
    repl' := repl;
    ItemOnSplice(orig, zones, repl, items[n], lines, lo, hi);
    match EffectOf(orig, zones, items[n])
    case AlreadyApplied => IdleStep(orig, zones, items, n, lines, applied, targets, repl);
    case Fails(_) =>
    case Edited(r) =>
      repl' := repl[items[n].target := r];
      EditStep(orig, zones, items, n, lines, applied, targets, repl, r, Spliced(orig, zones, repl'));
  }

  /** With no symbol a target twice, the replacements, and so the resulting lines, are the same for every order
      of the same items. */
  lemma {:induction false} OrderDoesNotMatter(orig: seq<Line>, zones: seq<Zone>, items: seq<Item>, items': seq<Item>,
                           repl: map<nat, seq<Line>>, repl': map<nat, seq<Line>>)
    requires Disjoint(orig, zones) && Targeted(zones, items) && Targeted(zones, items')
    requires DistinctTargets(items, |items|) && DistinctTargets(items', |items'|) &&
              forall it :: it in items <==> it in items'
    requires MadeBy(orig, zones, items, |items|, repl) && MadeBy(orig, zones, items', |items'|, repl')
    ensures repl == repl' && Spliced(orig, zones, repl) == Spliced(orig, zones, repl')
    ensures NoneFails(orig, zones, items, |items|) <==> NoneFails(orig, zones, items', |items'|)
  {
    SameEdits(orig, zones, items, items');
    SameEdits(orig, zones, items', items);
    SameReplacements(orig, zones, items, items', repl, repl');
    SameReplacements(orig, zones, items', items, repl', repl);
    assert repl.Keys == repl'.Keys;
  }

  lemma {:induction false} SameReplacements(orig: seq<Line>, zones: seq<Zone>, items: seq<Item>, items': seq<Item>,
                         repl: map<nat, seq<Line>>, repl': map<nat, seq<Line>>)
    requires Disjoint(orig, zones) && Targeted(zones, items) && Targeted(zones, items') &&
              DistinctTargets(items', |items'|)
    requires MadeBy(orig, zones, items, |items|, repl) && MadeBy(orig, zones, items', |items'|, repl')
    requires forall k: nat, r :: Makes(orig, zones, items, |items|, k, r) ==> Makes(orig, zones, items', |items'|, k, r)
    ensures forall k :: k in repl ==> Holds(repl', k, repl[k])
  {
    forall k | k in repl ensures Holds(repl', k, repl[k]) {
      assert Makes(orig, zones, items, |items|, k, repl[k]);
    }
  }

  lemma {:induction false} SameEdits(orig: seq<Line>, zones: seq<Zone>, items: seq<Item>, items': seq<Item>)
    requires Disjoint(orig, zones) && Targeted(zones, items) && Targeted(zones, items')
    requires forall it :: it in items ==> it in items'
    ensures forall k: nat, r :: Makes(orig, zones, items, |items|, k, r) ==> Makes(orig, zones, items', |items'|, k, r)
    ensures NoneFails(orig, zones, items', |items'|) ==> NoneFails(orig, zones, items, |items|)
  {
    forall k: nat, r | Makes(orig, zones, items, |items|, k, r) ensures Makes(orig, zones, items', |items'|, k, r) {
      var i :| 0 <= i < |items| && items[i].target == k && EffectOf(orig, zones, items[i]) == Edited(r);
      assert items[i] in items';
      var j :| 0 <= j < |items'| && items'[j] == items[i];
    }
    if NoneFails(orig, zones, items', |items'|) {
      forall i | 0 <= i < |items| ensures !EffectOf(orig, zones, items[i]).Fails? {
        assert items[i] in items';
        var j :| 0 <= j < |items'| && items'[j] == items[i];
      }
    }
  }

  /** With no symbol a target twice, every item finds in the end what it asks for in the lines of its symbol. */
  ghost predicate AllServed(orig: seq<Line>, zones: seq<Zone>, items: seq<Item>, repl: map<nat, seq<Line>>)
    requires Disjoint(orig, zones) && Targeted(zones, items)
  {
    forall i :: 0 <= i < |items| ==>
      var k := items[i].target; Serves(Body(orig, zones[k]), items[i].op, Piece(orig, zones, repl, k))
  }

  lemma {:induction false} MadeServes(orig: seq<Line>, zones: seq<Zone>, items: seq<Item>, repl: map<nat, seq<Line>>)
    requires Disjoint(orig, zones) && Targeted(zones, items) && DistinctTargets(items, |items|)
    requires MadeBy(orig, zones, items, |items|, repl) && NoneFails(orig, zones, items, |items|)
    ensures AllServed(orig, zones, items, repl)
  {
    forall i | 0 <= i < |items|
      ensures var k := items[i].target; Serves(Body(orig, zones[k]), items[i].op, Piece(orig, zones, repl, k))
    {
      var k := items[i].target;
      EffectServes(Body(orig, zones[k]), items[i].op);
      match EffectOf(orig, zones, items[i])
      case Edited(r) =>
        assert Makes(orig, zones, items, |items|, k, r);
        assert Holds(repl, k, r);
      case AlreadyApplied =>
    }
  }

  /** One turn of the group loop. */
  method ApplyNext(orig: seq<Line>, zones: seq<Zone>, items: seq<Item>, n: nat,
                   lines: seq<Line>, applied: seq<Applied>, groupTargets: set<nat>, ghost repl: map<nat, seq<Line>>)
    returns (r: TurnResult, ghost repl': map<nat, seq<Line>>)
    requires Disjoint(orig, zones) && Targeted(zones, items) && n < |items|
    requires Progress(orig, zones, items, n, lines, applied, groupTargets, repl)
    ensures TurnOk(orig, zones, items, n, r, repl')
  {
    var item := items[n];
    var symbol := zones[item.target];
    var offset := OffsetFor(applied, symbol.lo);
    var lo, hi := symbol.lo + offset, symbol.hi + offset;
    repl' := repl;
    if item.target in groupTargets {
      AgainTurn(orig, zones, items, n, lines, applied, groupTargets, repl, lo, hi);
    } else {
      repl' := FirstTurn(orig, zones, items, n, lines, applied, groupTargets, repl, lo, hi);
    }
    r := TakeTurn(lines, applied, groupTargets, item, symbol.hi, lo, hi);
  }

  /** The group loop of writeSymbols for one existing file with symbol targets. When it is done, the lines are
      the original with all edits spliced in at once, each edit being what its item makes of the original
      symbol on its own. Only for a symbol that is a target twice may an item be left out or refused for the
      sake of another. */
  method ApplyGroup(orig: seq<Line>, zones: seq<Zone>, items: seq<Item>) returns (result: GroupResult)
    requires Disjoint(orig, zones) && Targeted(zones, items)
    ensures result.Done? ==>
              exists repl :: MadeBy(orig, zones, items, |items|, repl) && result.lines == Spliced(orig, zones, repl) &&
                (DistinctTargets(items, |items|) ==> AllServed(orig, zones, items, repl))
    ensures result.Done? && DistinctTargets(items, |items|) ==> NoneFails(orig, zones, items, |items|)
    ensures result.Refused? ==> Refusable(orig, zones, items, result.item, result.error)
  {
    var lines := orig;
    var applied: seq<Applied> := [];
    var groupTargets: set<nat> := {};
    ghost var repl: map<nat, seq<Line>> := map[];
    NoItemYet(orig, zones, items);
    for idx := 0 to |items|
      invariant Progress(orig, zones, items, idx, lines, applied, groupTargets, repl)
    {
      var r;
      r, repl := ApplyNext(orig, zones, items, idx, lines, applied, groupTargets, repl);
      if r.Stops? {
        return Refused(idx, r.error);
      }
      lines, applied, groupTargets := r.lines, r.applied, r.targets;
    }
    if DistinctTargets(items, |items|) {
      MadeServes(orig, zones, items, repl);
    }
    result := Done(lines);
  }
}

/** Which symbol lies in which: the stack-based parent computation and the qualified names made from it
    (malong/symbol-anchors.js: buildParentMap, buildQualifiedName). */
module SymbolTree {
  import opened Common

  type Id = nat

  datatype Symbol = Symbol(id: Id, name: string, start: int, end: int)

  type Parents = map<Id, Id>

  // ---- Sorting by range ----

  predicate NotAfter(a: Symbol, b: Symbol) {
    a.start < b.start || (a.start == b.start && a.end <= b.end)
  }

  ghost predicate Sorted(s: seq<Symbol>) {
    forall i, j :: 0 <= i < j < |s| ==> NotAfter(s[i], s[j])
  }

  ghost predicate Distinct(s: seq<Symbol>) {
    forall i, j :: 0 <= i < j < |s| ==> s[i] != s[j]
  }

  /** How many elements of the sorted sequence stand before x. */
  function Position(x: Symbol, s: seq<Symbol>): (k: nat)
    requires Sorted(s)
    ensures k <= |s|
    ensures forall i :: 0 <= i < k ==> NotAfter(s[i], x)
    ensures forall i :: k <= i < |s| ==> NotAfter(x, s[i])
  {
    if s == [] || NotAfter(x, s[0]) then 0 else 1 + Position(x, s[1..])
  }

  function Insert(x: Symbol, s: seq<Symbol>): seq<Symbol>
    requires Sorted(s)
  {
    var k := Position(x, s);
    s[..k] + [x] + s[k..]
  }

  lemma {:induction false} InsertedAt(x: Symbol, s: seq<Symbol>, i: nat)
    requires Sorted(s) && i <= |s|
    ensures var k, r := Position(x, s), Insert(x, s);
            |r| == |s| + 1 && r[i] == if i < k then s[i] else if i == k then x else s[i-1]
  {
  }

  lemma {:induction false} InsertedSorted(x: Symbol, s: seq<Symbol>)
    requires Sorted(s)
    ensures Sorted(Insert(x, s))
    ensures Distinct(s) && x !in s ==> Distinct(Insert(x, s))
  {
    var r := Insert(x, s);
    forall i, j | 0 <= i < j < |r| ensures NotAfter(r[i], r[j]) && (Distinct(s) && x !in s ==> r[i] != r[j]) {
      InsertedAt(x, s, i);
      InsertedAt(x, s, j);
    }
  }

  lemma {:induction false} Inserted(x: Symbol, s: seq<Symbol>)
    requires Sorted(s)
    ensures var r := Insert(x, s);
              Sorted(r) && (forall y :: y in r <==> y == x || y in s) && (Distinct(s) && x !in s ==> Distinct(r))
  {
    InsertedSorted(x, s);
    var k := Position(x, s);
    assert s == s[..k] + s[k..];
  }

  /** The symbols by start, then by end. */
  function Sort(s: seq<Symbol>): (r: seq<Symbol>)
    ensures Sorted(r) && (forall y :: y in r <==> y in s)
    ensures Distinct(s) ==> Distinct(r)
  {
    if s == [] then []
    else
      assert s == [s[0]] + s[1..];
      Inserted(s[0], Sort(s[1..]));
      Insert(s[0], Sort(s[1..]))
  }

  // ---- Ranges ----

  ghost predicate UniqueIds(s: seq<Symbol>) {
    forall i, j :: 0 <= i < j < |s| ==> s[i].id != s[j].id
  }

  /** b lies within a and starts later. */
  ghost predicate Encloses(a: Symbol, b: Symbol) {
    a.start < b.start && b.end <= a.end
  }

  /** The ranges are nested: of any two one encloses the other or ends before the other starts, and no two start
      on the same line. */
  ghost predicate Nested(s: seq<Symbol>) {
    && (forall a :: a in s ==> a.start <= a.end)
    && (forall a, b :: a in s && b in s && a != b ==> Related(a, b))
  }

  ghost predicate Related(a: Symbol, b: Symbol) {
    a.end < b.start || b.end < a.start || Encloses(a, b) || Encloses(b, a)
  }

  /** p encloses c, and everything else that encloses c encloses p. */
  ghost predicate Innermost(s: seq<Symbol>, p: Symbol, c: Symbol) {
    && p in s && Encloses(p, c)
    && forall q :: q in s && Encloses(q, c) ==> q == p || Encloses(q, p)
  }

  // ---- The stack ----

  /** The stack holds the sorted symbols at the places idx, in order, all before n. */
  ghost predicate StackIs(sorted: seq<Symbol>, n: nat, stack: seq<Symbol>, idx: seq<nat>) {
    && n <= |sorted| && |idx| == |stack|
    && (forall k :: 0 <= k < |idx| ==> idx[k] < n && stack[k] == sorted[idx[k]])
    && (forall k, l :: 0 <= k < l < |idx| ==> idx[k] < idx[l])
  }

  /** In order, each starting after the one before. */
  ghost predicate Ascending(sorted: seq<Symbol>) {
    forall i, j :: 0 <= i < j < |sorted| ==> sorted[i].start < sorted[j].start
  }

  /** All that reach down to the line are on the stack, and nothing is that does not reach to the line before. */
  ghost predicate Reaching(sorted: seq<Symbol>, n: nat, idx: seq<nat>, line: int, before: int)
    requires n <= |sorted|
  {
    && (forall i :: 0 <= i < n && sorted[i].end >= line ==> i in idx)
    && (forall i :: i in idx ==> i < n && sorted[i].end >= before)
  }

  lemma {:induction false} NestedAscends(sorted: seq<Symbol>)
    requires Sorted(sorted) && Distinct(sorted) && Nested(sorted)
    ensures Ascending(sorted)
  {
    forall i, j | 0 <= i < j < |sorted| ensures sorted[i].start < sorted[j].start {
      assert Related(sorted[i], sorted[j]);
    }
  }

  /** Everything below the top encloses it. */
  lemma {:induction false} BelowTop(sorted: seq<Symbol>, n: nat, stack: seq<Symbol>, idx: seq<nat>, k: nat)
    requires n < |sorted| && n > 0 && Nested(sorted) && Ascending(sorted) && StackIs(sorted, n, stack, idx)
    requires k < |stack| - 1 && stack[k].end >= sorted[n-1].start
    ensures Encloses(stack[k], stack[|stack|-1])
  {
    var t := idx[|idx|-1];
    assert idx[k] < t <= n - 1;
    assert t < n - 1 ==> sorted[t].start < sorted[n-1].start;
    assert Related(sorted[idx[k]], sorted[t]);
  }

  /** Whatever encloses symbol n is on the stack. */
  lemma {:induction false} EncloserOnStack(sorted: seq<Symbol>, n: nat, stack: seq<Symbol>, idx: seq<nat>, q: Symbol)
      returns (k: nat)
    requires n < |sorted| && Nested(sorted) && Ascending(sorted) && StackIs(sorted, n, stack, idx)
    requires forall i :: 0 <= i < n && sorted[i].end >= sorted[n].start ==> i in idx
    requires q in sorted && Encloses(q, sorted[n])
    ensures k < |stack| && stack[k] == q
  {
    var i :| 0 <= i < |sorted| && sorted[i] == q;
    assert i < n && sorted[n].start <= sorted[n].end;
    assert i in idx;
    k :| k < |idx| && idx[k] == i;
  }

  /** Once the top reaches down to symbol n, the top is the innermost that encloses it. */
  lemma {:induction false} TopIsInnermost(sorted: seq<Symbol>, n: nat, stack: seq<Symbol>, idx: seq<nat>)
    requires n < |sorted| && Nested(sorted) && Ascending(sorted) && StackIs(sorted, n, stack, idx)
    requires Reaching(sorted, n, idx, sorted[n].start, if n == 0 then sorted[n].start else sorted[n-1].start)
    requires stack != [] ==> stack[|stack|-1].end >= sorted[n].start
    ensures forall i :: i in idx ==> sorted[i].end >= sorted[n].start
    ensures stack == [] ==> forall q :: q in sorted ==> !Encloses(q, sorted[n])
    ensures stack != [] ==> Innermost(sorted, stack[|stack|-1], sorted[n])
  {
    var c := sorted[n];
    forall k | 0 <= k < |stack| - 1 ensures Encloses(stack[k], stack[|stack|-1]) {
      assert idx[k] in idx;
      BelowTop(sorted, n, stack, idx, k);
    }
    forall i | i in idx ensures sorted[i].end >= c.start {
      var k :| 0 <= k < |idx| && idx[k] == i;
    }
    forall q | q in sorted && Encloses(q, c)
      ensures stack != [] && (q == stack[|stack|-1] || Encloses(q, stack[|stack|-1]))
    {
      var k := EncloserOnStack(sorted, n, stack, idx, q);
    }
    if stack != [] {
      assert Related(stack[|stack|-1], c);
    }
  }

  // ---- Parents ----

  /** Parents start strictly before their children, and are symbols of the file. */
  ghost predicate Rising(s: seq<Symbol>, parents: Parents) {
    forall c :: c in parents ==> exists p, k :: Rises(s, parents, c, p, k)
  }

  ghost predicate Rises(s: seq<Symbol>, parents: Parents, c: Id, p: Symbol, k: Symbol)
    requires c in parents
  {
    p in s && k in s && p.id == parents[c] && k.id == c && p.start < k.start
  }

  /** The parent of a symbol is the innermost that encloses it; it has none only if nothing encloses it. */
  ghost predicate InnermostParent(s: seq<Symbol>, parents: Parents, k: Symbol) {
    || (exists p :: Innermost(s, p, k) && k.id in parents && parents[k.id] == p.id)
    || (k.id !in parents && forall q :: q in s ==> !Encloses(q, k))
  }

  /** The parents of the first n sorted symbols are right, and no others have any. */
  ghost predicate RightSoFar(sorted: seq<Symbol>, n: nat, parents: Parents)
    requires n <= |sorted|
  {
    && (forall i :: 0 <= i < n ==> InnermostParent(sorted, parents, sorted[i]))
  }

  ghost predicate OnlyOf(sorted: seq<Symbol>, n: nat, parents: Parents)
    requires n <= |sorted|
  {
    forall c :: c in parents ==> exists i :: 0 <= i < n && sorted[i].id == c
  }

  lemma {:induction false} RightOneMore(sorted: seq<Symbol>, n: nat, parents: Parents, top: Option<Symbol>)
    requires n < |sorted| && UniqueIds(sorted) && RightSoFar(sorted, n, parents) && OnlyOf(sorted, n, parents)
    requires match top case Some(p) => Innermost(sorted, p, sorted[n]) case None => forall q ::
              q in sorted ==> !Encloses(q, sorted[n])
    ensures var parents' := if top.Some? then parents[sorted[n].id := top.value.id] else parents;
            RightSoFar(sorted, n + 1, parents')
  {
    var parents' := if top.Some? then parents[sorted[n].id := top.value.id] else parents;
    forall i | 0 <= i <= n ensures InnermostParent(sorted, parents', sorted[i]) {
      if i < n {
        assert InnermostParent(sorted, parents, sorted[i]) && sorted[i].id != sorted[n].id;
      } else if top.Some? {
        assert Innermost(sorted, top.value, sorted[n]) && parents'[sorted[n].id] == top.value.id;
      }
    }
  }

  lemma {:induction false} SortedIsUnique(symbols: seq<Symbol>, sorted: seq<Symbol>)
    requires UniqueIds(symbols) && Distinct(sorted) && forall y :: y in sorted <==> y in symbols
    ensures UniqueIds(sorted)
  {
    forall i, j | 0 <= i < j < |sorted| ensures sorted[i].id != sorted[j].id {
      assert sorted[i] in symbols && sorted[j] in symbols;
      var k :| 0 <= k < |symbols| && symbols[k] == sorted[i];
      var l :| 0 <= l < |symbols| && symbols[l] == sorted[j];
    }
  }

  ghost function Before(sorted: seq<Symbol>, n: nat): int
    requires n < |sorted|
  {
    if n == 0 then sorted[n].start else sorted[n-1].start
  }

  /** The inner loop: symbols that ended before symbol n starts leave the stack. */
  method PopEnded(ghost sorted: seq<Symbol>, ghost n: nat, s: Symbol, stack: seq<Symbol>, ghost idx: seq<nat>,
                  ghost nested: bool)
    returns (stack': seq<Symbol>, ghost idx': seq<nat>)
    requires n < |sorted| && s == sorted[n] && StackIs(sorted, n, stack, idx)
    requires nested ==> Ascending(sorted) && Reaching(sorted, n, idx, Before(sorted, n), Before(sorted, n))
    ensures StackIs(sorted, n, stack', idx') && (stack' != [] ==> stack'[|stack'|-1].end >= s.start)
    ensures nested ==> Reaching(sorted, n, idx', s.start, Before(sorted, n))
  {
    stack', idx' := stack, idx;
    while stack' != [] && stack'[|stack'|-1].end < s.start
      invariant StackIs(sorted, n, stack', idx')
      invariant nested ==> Reaching(sorted, n, idx', s.start, Before(sorted, n))
      decreases |stack'|
    {
      ghost var last := |idx'| - 1;
      assert idx' == idx'[..last] + [idx'[last]];
      stack' := stack'[..|stack'|-1];
      idx' := idx'[..last];
    }
  }

  /** What is on the stack after symbol n was pushed. */
  lemma {:induction false} Pushed(sorted: seq<Symbol>, n: nat, stack: seq<Symbol>, idx: seq<nat>, nested: bool)
    requires n < |sorted| && StackIs(sorted, n, stack, idx)
    requires nested ==> sorted[n].start <= sorted[n].end && Reaching(sorted, n, idx, sorted[n].start, sorted[n].start)
    ensures StackIs(sorted, n + 1, stack + [sorted[n]], idx + [n])
    ensures nested ==> Reaching(sorted, n + 1, idx + [n], sorted[n].start, sorted[n].start)
  {
    assert n in idx + [n];
    assert forall i :: i in idx ==> i in idx + [n];
  }

  /** The body of the outer loop: the parent of symbol n, found on the stack. */
  method Place(ghost sorted: seq<Symbol>, ghost n: nat, s: Symbol, stack: seq<Symbol>, ghost idx: seq<nat>,
               parents: Parents, ghost nested: bool)
    returns (stack': seq<Symbol>, ghost idx': seq<nat>, parents': Parents)
    requires n < |sorted| && s == sorted[n] && Sorted(sorted) && UniqueIds(sorted)
    requires StackIs(sorted, n, stack, idx) && Rising(sorted, parents) && OnlyOf(sorted, n, parents)
    requires nested ==> Nested(sorted) && Ascending(sorted) && RightSoFar(sorted, n, parents)
    requires nested ==> Reaching(sorted, n, idx, Before(sorted, n), Before(sorted, n))
    ensures StackIs(sorted, n + 1, stack', idx') && Rising(sorted, parents') && OnlyOf(sorted, n + 1, parents')
    ensures nested ==> Reaching(sorted, n + 1, idx', s.start, s.start) && RightSoFar(sorted, n + 1, parents')
  {
    stack', idx' := PopEnded(sorted, n, s, stack, idx, nested);
    parents' := parents;
    if stack' != [] {
      var top := stack'[|stack'|-1];
      if top.start != s.start {
        parents' := parents[s.id := top.id];
      }
    }
    ParentFound(sorted, n, stack', idx', parents, parents', nested);
    Pushed(sorted, n, stack', idx', nested);
    stack', idx' := stack' + [s], idx' + [n];
  }

  lemma {:induction false} ParentFound(sorted: seq<Symbol>, n: nat, stack: seq<Symbol>, idx: seq<nat>, parents: Parents,
                                       parents': Parents, nested: bool)
    requires n < |sorted| && Sorted(sorted) && UniqueIds(sorted)
    requires StackIs(sorted, n, stack, idx) && (stack != [] ==> stack[|stack|-1].end >= sorted[n].start)
    requires Rising(sorted, parents) && OnlyOf(sorted, n, parents)
    requires nested ==> Nested(sorted) && Ascending(sorted) && RightSoFar(sorted, n, parents)
    requires nested ==> Reaching(sorted, n, idx, sorted[n].start, Before(sorted, n))
    requires parents' == if stack != [] && stack[|stack|-1].start != sorted[n].start then
              parents[sorted[n].id := stack[|stack|-1].id] else parents
    ensures Rising(sorted, parents') && OnlyOf(sorted, n + 1, parents')
    ensures nested ==> RightSoFar(sorted, n + 1, parents') && sorted[n].start <= sorted[n].end
    ensures nested ==> Reaching(sorted, n, idx, sorted[n].start, sorted[n].start)
  {
    if stack != [] {
      var top := stack[|stack|-1];
      assert top == sorted[idx[|idx|-1]] && NotAfter(top, sorted[n]);
      if top.start != sorted[n].start {
        RisingOneMore(sorted, parents, top, sorted[n]);
      }
    }
    OnlyOfOneMore(sorted, n, parents, parents');
    if nested {
      TopIsInnermost(sorted, n, stack, idx);
      RightOneMore(sorted, n, parents, if stack == [] then None else Some(stack[|stack|-1]));
    }
  }

  lemma {:induction false} OnlyOfOneMore(sorted: seq<Symbol>, n: nat, parents: Parents, parents': Parents)
    requires n < |sorted| && OnlyOf(sorted, n, parents)
    requires forall c :: c in parents' ==> c in parents || c == sorted[n].id
    ensures OnlyOf(sorted, n + 1, parents')
  {
  }

  lemma {:induction false} RisingOneMore(sorted: seq<Symbol>, parents: Parents, top: Symbol, s: Symbol)
    requires Rising(sorted, parents) && top in sorted && s in sorted && top.start < s.start
    ensures Rising(sorted, parents[s.id := top.id])
  {
    var parents' := parents[s.id := top.id];
    forall c | c in parents' ensures exists p, k :: Rises(sorted, parents', c, p, k) {
      if c == s.id {
        assert Rises(sorted, parents', c, top, s);
      } else {
        var p, k :| Rises(sorted, parents, c, p, k);
        assert Rises(sorted, parents', c, p, k);
      }
    }
  }

  /** buildParentMap: for all inputs a parent starts before its child; for nested ranges it is the innermost
      enclosing symbol. */
  method BuildParentMap(symbols: seq<Symbol>) returns (parents: Parents)
    requires UniqueIds(symbols)
    ensures Rising(symbols, parents)
    ensures Nested(symbols) ==> forall k :: k in symbols ==> InnermostParent(symbols, parents, k)
  {
    var sorted := Sort(symbols);
    SortedIsUnique(symbols, sorted);
    ghost var nested := Nested(sorted);
    if nested {
      NestedAscends(sorted);
    }
    parents := map[];
    var stack: seq<Symbol> := [];
    ghost var idx: seq<nat> := [];
    for n := 0 to |sorted|
      invariant StackIs(sorted, n, stack, idx) && Rising(sorted, parents) && OnlyOf(sorted, n, parents)
      invariant nested ==> RightSoFar(sorted, n, parents)
      invariant nested && n < |sorted| ==> Reaching(sorted, n, idx, Before(sorted, n), Before(sorted, n))
    {
      stack, idx, parents := Place(sorted, n, sorted[n], stack, idx, parents, nested);
    }
    Carried(sorted, symbols, parents);
  }

  /** What was shown of the sorted symbols holds of the symbols as given. */
  lemma {:induction false} Carried(sorted: seq<Symbol>, symbols: seq<Symbol>, parents: Parents)
    requires forall y :: y in sorted <==> y in symbols
    requires Rising(sorted, parents)
    requires Nested(sorted) ==> RightSoFar(sorted, |sorted|, parents)
    ensures Rising(symbols, parents)
    ensures Nested(symbols) ==> forall k :: k in symbols ==> InnermostParent(symbols, parents, k)
  {
    forall c | c in parents ensures exists p, k :: Rises(symbols, parents, c, p, k) {
      var p, k :| Rises(sorted, parents, c, p, k);
      assert Rises(symbols, parents, c, p, k);
    }
    if Nested(symbols) {
      forall k | k in symbols ensures InnermostParent(symbols, parents, k) {
        var i :| 0 <= i < |sorted| && sorted[i] == k;
        assert InnermostParent(sorted, parents, k);
        assert forall p :: Innermost(sorted, p, k) ==> Innermost(symbols, p, k);
      }
    }
  }

  // ---- Qualified names ----

  function Find(symbols: seq<Symbol>, id: Id): Option<Symbol> {
    if symbols == [] then None else if symbols[|symbols|-1].id == id then Some(symbols[|symbols|-1])
        else Find(symbols[..|symbols|-1], id)
  }

  lemma {:induction false} FindUnique(symbols: seq<Symbol>, s: Symbol)
    requires UniqueIds(symbols) && s in symbols
    ensures Find(symbols, s.id) == Some(s)
  {
    var last := |symbols| - 1;
    assert symbols == symbols[..last] + [symbols[last]];
    if symbols[last] != s {
      var i :| 0 <= i < |symbols| && symbols[i] == s;
      FindUnique(symbols[..last], s);
    }
  }

  /** Following parents never leads back: the parent relation has no cycle. */
  lemma {:induction false} NoCycle(symbols: seq<Symbol>, parents: Parents, first: Symbol, walk: seq<Id>, n: nat)
    requires UniqueIds(symbols) && Rising(symbols, parents) && first in symbols
    requires walk != [] && walk[0] == first.id && n < |walk|
    requires forall i :: 0 <= i < |walk| - 1 ==> walk[i] in parents && walk[i+1] == parents[walk[i]]
    ensures var t := Find(symbols, walk[n]); t.Some? && t.value in symbols && t.value.id == walk[n]
    ensures n > 0 ==> Find(symbols, walk[n]).value.start < first.start && walk[n] != walk[0]
  {
    FindUnique(symbols, first);
    if n > 0 {
      NoCycle(symbols, parents, first, walk, n - 1);
      assert walk[n-1] in parents && walk[n-1+1] == parents[walk[n-1]];
      ParentRises(symbols, parents, Find(symbols, walk[n-1]).value);
    }
  }

  /** The names from the outermost symbol inwards, each found by following the parent ids. */
  ghost function Chain(symbols: seq<Symbol>, parents: Parents, s: Symbol, low: int): seq<string>
    requires UniqueIds(symbols) && Rising(symbols, parents) && s in symbols
    requires forall t :: t in symbols ==> t.start >= low
    decreases s.start - low
  {
    if s.id in parents then
      ParentRises(symbols, parents, s);
      Chain(symbols, parents, Find(symbols, parents[s.id]).value, low) + [s.name]
    else [s.name]
  }

  lemma {:induction false} ParentRises(symbols: seq<Symbol>, parents: Parents, s: Symbol)
    requires UniqueIds(symbols) && Rising(symbols, parents) && s in symbols && s.id in parents
    ensures var p := Find(symbols, parents[s.id]);
              p.Some? && p.value in symbols && p.value.id == parents[s.id] && p.value.start < s.start
  {
    var p, k :| Rises(symbols, parents, s.id, p, k);
    FindUnique(symbols, p);
    FindUnique(symbols, k);
    FindUnique(symbols, s);
  }

  /** buildQualifiedName, before the names are joined with dots. The guard against going round in circles never
      cuts a chain short: the parent relation has no cycles. */
  method QualifiedChain(symbols: seq<Symbol>, parents: Parents, sym: Symbol, ghost low: int)
      returns (chain: seq<string>)
    requires UniqueIds(symbols) && Rising(symbols, parents) && sym in symbols
    requires forall t :: t in symbols ==> t.start >= low
    ensures chain == Chain(symbols, parents, sym, low)
  {
    chain := [];
    var cur := Some(sym);
    var seen: set<Id> := {};
    while cur.Some?
      invariant cur.Some? ==> cur.value in symbols
      invariant cur.Some? ==> SeenBelow(symbols, seen, cur.value)
      invariant Chain(symbols, parents, sym, low) ==
                (if cur.Some? then Chain(symbols, parents, cur.value, low) else []) + chain
      decreases if cur.Some? then cur.value.start - low + 1 else 0
    {
      var c := cur.value;
      if c.id in seen {
        break;
      }
      ghost var before := seen;
      ChainStep(symbols, parents, c, low, chain);
      seen := seen + {c.id};
      chain := [c.name] + chain;
      if c.id in parents {
        cur := Find(symbols, parents[c.id]);
        SeenOneMore(symbols, before, c, cur.value);
      } else {
        cur := None;
      }
    }
  }

  lemma {:induction false} ChainStep(symbols: seq<Symbol>, parents: Parents, c: Symbol, low: int, chain: seq<string>)
    requires UniqueIds(symbols) && Rising(symbols, parents) && c in symbols
    requires forall t :: t in symbols ==> t.start >= low
    ensures c.id in parents ==>
              var p := Find(symbols, parents[c.id]);
              && p.Some? && p.value in symbols && p.value.start < c.start
              && Chain(symbols, parents, c, low) + chain == Chain(symbols, parents, p.value, low) + ([c.name] + chain)
    ensures c.id !in parents ==> Chain(symbols, parents, c, low) + chain == [c.name] + chain
  {
    if c.id in parents {
      ParentRises(symbols, parents, c);
    }
  }

  /** The symbols seen start after the current one. */
  ghost predicate SeenBelow(symbols: seq<Symbol>, seen: set<Id>, cur: Symbol) {
    forall t :: t in symbols && t.id in seen ==> t.start > cur.start
  }

  lemma {:induction false} SeenOneMore(symbols: seq<Symbol>, seen: set<Id>, c: Symbol, p: Symbol)
    requires UniqueIds(symbols) && c in symbols && SeenBelow(symbols, seen, c) && p.start < c.start
    ensures SeenBelow(symbols, seen + {c.id}, p)
  {
    SameId(symbols, c);
  }

  lemma {:induction false} SameId(symbols: seq<Symbol>, c: Symbol)
    requires UniqueIds(symbols) && c in symbols
    ensures forall t :: t in symbols && t.id == c.id ==> t == c
  {
    forall t | t in symbols && t.id == c.id ensures t == c {
      FindUnique(symbols, t);
      FindUnique(symbols, c);
    }
  }
}

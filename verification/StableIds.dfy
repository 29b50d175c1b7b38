/** Stable symbol ids and how equal ones are told apart (malong/symbol-anchors.js: makeStableId,
    resolveAmbiguities). */
module StableIds {
  import opened Common

  datatype Kind = Function | Class | Variable | Method | Export | Import | Interface | Type

  function KindName(k: Kind): (s: string)
    ensures s != "" && '#' !in s && !IsDigit(s[0]) && !StartsWith(s, "sig-")
  {
    match k
    case Function => "function"
    case Class => "class"
    case Variable => "variable"
    case Method => "method"
    case Export => "export"
    case Import => "import"
    case Interface => "interface"
    case Type => "type"
  }

  predicate StartsWith(s: string, prefix: string) {
    prefix <= s
  }

  predicate IsDigit(c: char) {
    '0' <= c <= '9'
  }

  /** name.replace(/[#:]/g, '_') */
  function Safe(name: string): string {
    seq(|name|, i requires 0 <= i < |name| => if name[i] == '#' || name[i] == ':' then '_' else name[i])
  }

  /** lang:path::name#kind, or none if a part is missing. */
  function MakeStableId(lang: string, path: string, name: string, kind: Kind): Option<string> {
    if lang == "" || path == "" || name == "" then None
    else Some(lang + ":" + path + "::" + Safe(name) + "#" + KindName(kind))
  }

  function Decimal(n: nat): (s: string)
    ensures s != "" && (forall c :: c in s ==> IsDigit(c))
  {
    if n < 10 then [('0' as int + n) as char] else Decimal(n / 10) + [('0' as int + n % 10) as char]
  }

  lemma {:induction false} DecimalInjective(m: nat, n: nat)
    requires Decimal(m) == Decimal(n)
    ensures m == n
  {
    var a, b := Decimal(m), Decimal(n);
    assert a[|a|-1] == b[|b|-1];
    if m >= 10 && n >= 10 {
      assert a[..|a|-1] == Decimal(m / 10) && b[..|b|-1] == Decimal(n / 10);
      DecimalInjective(m / 10, n / 10);
    }
  }

  /** What stands behind the last '#' determines where it is. */
  lemma {:induction false} LastHash(a: string, b: string, c: string, d: string)
    requires a + "#" + b == c + "#" + d && '#' !in b && '#' !in d
    ensures a == c && b == d
  {
    var s, t := a + "#" + b, c + "#" + d;
    assert s[|a|] == '#' && t[|c|] == '#';
    assert |a| == |c|;
    assert s[..|a|] == a && t[..|c|] == c;
    assert s[|a|+1..] == b && t[|c|+1..] == d;
  }

  /** The two characters count as the same in an id. */
  ghost predicate AlikeInId(c: char, d: char) {
    c == d || (c in {'#', ':', '_'} && d in {'#', ':', '_'})
  }

  /** There is an id unless language, path or name is missing. In one file two symbols get the same one exactly if they
      are of one kind and their names differ at most in signs that an id cannot hold. */
  lemma {:induction false} SameIdMeaning(lang: string, path: string, a: string, b: string, k: Kind, l: Kind)
    ensures MakeStableId(lang, path, a, k).None? <==> lang == "" || path == "" || a == ""
    ensures lang != "" && path != "" && a != "" && b != "" ==>
              (MakeStableId(lang, path, a, k) == MakeStableId(lang, path, b, l) <==>
                 k == l && |a| == |b| && forall i :: 0 <= i < |a| ==> AlikeInId(a[i], b[i]))
  {
    var front := lang + ":" + path + "::";
    SafeMeaning(a, b);
    if lang != "" && path != "" && a != "" && b != "" {
      if MakeStableId(lang, path, a, k) == MakeStableId(lang, path, b, l) {
        LastHash(front + Safe(a), KindName(k), front + Safe(b), KindName(l));
        assert (front + Safe(a))[|front|..] == Safe(a) && (front + Safe(b))[|front|..] == Safe(b);
        KindsDiffer(k, l);
      }
    }
  }

  lemma {:induction false} SafeMeaning(a: string, b: string)
    ensures Safe(a) == Safe(b) <==> |a| == |b| && forall i :: 0 <= i < |a| ==> AlikeInId(a[i], b[i])
  {
    if Safe(a) == Safe(b) {
      forall i | 0 <= i < |a| ensures AlikeInId(a[i], b[i]) {
        assert Safe(a)[i] == Safe(b)[i];
      }
    }
  }

  lemma {:induction false} KindsDiffer(k: Kind, l: Kind)
    requires KindName(k) == KindName(l)
    ensures k == l
  {
  }

  // ---- Telling equal ids apart ----

  /** The id of a symbol so far, and the first eight characters of its signature's hash. The loops only compare
      them. */
  datatype Row<I, S> = Row(id: I, sig: S)

  /** What becomes of an id: it is kept, or a signature, or a signature and a number is put behind it. */
  datatype Name<I, S> = Keep(id: I) | Sig(id: I, sig: S) | Ordinal(id: I, sig: S, n: nat)

  type IdRow = Row<Option<string>, string>

  type IdName = Name<Option<string>, string>

  /** A template literal turns null into text. */
  function Text(id: Option<string>): string {
    if id.Some? then id.value else "null"
  }

  /** The id as it is written into the row. */
  function Spelled(name: IdName): Option<string> {
    match name
    case Keep(id) => id
    case Sig(id, sig) => Some(Text(id) + "#sig-" + sig)
    case Ordinal(id, sig, n) => Some(Text(id) + "#sig-" + sig + "#" + Decimal(n))
  }

  /** How many of the first n rows have this id, and this id and signature. */
  ghost function SameId<I, S>(rows: seq<Row<I, S>>, id: I, n: nat): nat
    requires n <= |rows|
  {
    if n == 0 then 0 else SameId(rows, id, n - 1) + if rows[n-1].id == id then 1 else 0
  }

  ghost function SameSig<I, S>(rows: seq<Row<I, S>>, id: I, sig: S, n: nat): nat
    requires n <= |rows|
  {
    if n == 0 then 0 else SameSig(rows, id, sig, n - 1) + if rows[n-1] == Row(id, sig) then 1 else 0
  }

  /** What becomes of the id of row i. */
  ghost function Final<I, S>(rows: seq<Row<I, S>>, i: nat): Name<I, S>
    requires i < |rows|
  {
    var r := rows[i];
    if SameId(rows, r.id, |rows|) == 1 then Keep(r.id)
    else if SameSig(rows, r.id, r.sig, |rows|) == 1 then Sig(r.id, r.sig)
    else Ordinal(r.id, r.sig, SameSig(rows, r.id, r.sig, i + 1))
  }

  lemma {:induction false} CountsGrow<I, S>(rows: seq<Row<I, S>>, id: I, sig: S, i: nat, n: nat)
    requires i <= n <= |rows|
    ensures SameId(rows, id, i) <= SameId(rows, id, n) && SameSig(rows, id, sig, i) <= SameSig(rows, id, sig, n)
  {
    if i < n {
      CountsGrow(rows, id, sig, i, n - 1);
    }
  }

  /** Rows as they come from makeStableId and a hexadecimal hash. */
  ghost predicate WellMade(rows: seq<IdRow>) {
    && (forall i :: 0 <= i < |rows| && rows[i].id.Some? ==> IsBase(rows[i].id.value))
    && (forall i :: 0 <= i < |rows| ==> '#' !in rows[i].sig)
  }

  ghost predicate IsBase(id: string) {
    exists front, kind :: EndsIn(id, front, kind)
  }

  ghost predicate EndsIn(id: string, front: string, kind: Kind) {
    id == front + "#" + KindName(kind)
  }

  lemma {:induction false} MadeIsBase(lang: string, path: string, name: string, kind: Kind)
    requires MakeStableId(lang, path, name, kind).Some?
    ensures IsBase(MakeStableId(lang, path, name, kind).value)
  {
    assert EndsIn(MakeStableId(lang, path, name, kind).value, lang + ":" + path + "::" + Safe(name), kind);
  }

  ghost function Parts(id: string): (p: (string, Kind))
    requires IsBase(id)
    ensures EndsIn(id, p.0, p.1)
  {
    var front, kind :| EndsIn(id, front, kind);
    (front, kind)
  }

  /** A final id that is not missing is split by its last '#' into a front and a kind, a signature or a number. */
  ghost function Front(s: IdName): string
    requires NameOk(s) && Spelled(s).Some?
  {
    match s
    case Keep(id) => Parts(id.value).0
    case Sig(id, _) => Text(id)
    case Ordinal(id, sig, _) => Text(id) + "#sig-" + sig
  }

  ghost function Tail(s: IdName): string
    requires NameOk(s) && Spelled(s).Some?
  {
    match s
    case Keep(id) => KindName(Parts(id.value).1)
    case Sig(_, sig) => "sig-" + sig
    case Ordinal(_, _, n) => Decimal(n)
  }

  ghost predicate NameOk(s: IdName) {
    && (s.id.Some? ==> IsBase(s.id.value))
    && (!s.Keep? ==> '#' !in s.sig)
  }

  lemma {:induction false} SplitName(s: IdName)
    requires NameOk(s) && Spelled(s).Some?
    ensures Spelled(s).value == Front(s) + "#" + Tail(s) && '#' !in Tail(s) && Tail(s) != ""
    ensures s.Sig? <==> StartsWith(Tail(s), "sig-")
    ensures s.Ordinal? <==> IsDigit(Tail(s)[0])
  {
    match s
    case Keep(_) =>
    case Sig(id, sig) => assert Text(id) + "#sig-" + sig == Text(id) + "#" + ("sig-" + sig);
    case Ordinal(_, _, n) =>
      var t := Decimal(n);
      assert t[0] in t;
  }

  /** An id never reads like the text of a missing one. */
  lemma {:induction false} TextInjective(a: Option<string>, b: Option<string>)
    requires Text(a) == Text(b) && (a.Some? ==> IsBase(a.value)) && (b.Some? ==> IsBase(b.value))
    ensures a == b
  {
    assert '#' !in "null";
    if a.Some? {
      var front, kind :| EndsIn(a.value, front, kind);
      assert a.value[|front|] == '#';
    }
    if b.Some? {
      var front, kind :| EndsIn(b.value, front, kind);
      assert b.value[|front|] == '#';
    }
  }

  /** What is spelled the same is the same. */
  lemma {:induction false} SpelledInjective(s: IdName, t: IdName)
    requires NameOk(s) && NameOk(t) && Spelled(s).Some? && Spelled(s) == Spelled(t)
    ensures s == t
    decreases if s.Ordinal? then 1 else 0
  {
    SplitName(s);
    SplitName(t);
    LastHash(Front(s), Tail(s), Front(t), Tail(t));
    if s.Sig? {
      assert s.sig == Tail(s)[4..] && t.sig == Tail(t)[4..];
      TextInjective(s.id, t.id);
    } else if s.Ordinal? {
      DecimalInjective(s.n, t.n);
      SpelledInjective(Sig(s.id, s.sig), Sig(t.id, t.sig));
    }
  }

  /** Different rows never get the same name, unless both go without. */
  lemma {:induction false} FinalsDiffer<I, S>(rows: seq<Row<I, S>>, i: nat, j: nat)
    requires i < j < |rows|
    ensures Final(rows, i) != Final(rows, j)
    ensures Final(rows, i).Keep? ==> rows[j].id != rows[i].id
  {
    var r, q := rows[i], rows[j];
    CountsGrow(rows, r.id, r.sig, i + 1, j);
    CountsGrow(rows, r.id, r.sig, j + 1, |rows|);
    CountsGrow(rows, r.id, r.sig, 0, i);
  }

  lemma {:induction false} NoneIsZero<I, S>(rows: seq<Row<I, S>>, id: I, n: nat)
    requires n <= |rows|
    ensures SameId(rows, id, n) == 0 <==> forall j :: 0 <= j < n ==> rows[j].id != id
  {
    if n > 0 {
      NoneIsZero(rows, id, n - 1);
    }
  }

  lemma {:induction false} AloneIsOne<I, S>(rows: seq<Row<I, S>>, i: nat, n: nat)
    requires i < n <= |rows|
    ensures SameId(rows, rows[i].id, n) == 1 <==> forall j :: 0 <= j < n && j != i ==> rows[j].id != rows[i].id
  {
    NoneIsZero(rows, rows[i].id, n - 1);
    if i < n - 1 {
      AloneIsOne(rows, i, n - 1);
    }
  }

  /** A symbol is left without an id exactly if it is the only one of the file that had none; of several each gets one
      that begins with the word null. */
  lemma {:induction false} IdMissingIff(rows: seq<IdRow>, i: nat)
    requires i < |rows|
    ensures Spelled(Final(rows, i)).None? <==>
              rows[i].id.None? && forall j :: 0 <= j < |rows| && j != i ==> rows[j].id.Some?
    ensures rows[i].id.None? && Spelled(Final(rows, i)).Some? ==> "null#sig-" <= Spelled(Final(rows, i)).value
  {
    AloneIsOne(rows, i, |rows|);
  }

  /** After disambiguation no two ids of a file are the same text, nor are two symbols left without one. */
  lemma {:induction false} IdsDiffer(rows: seq<IdRow>, i: nat, j: nat)
    requires WellMade(rows) && i < j < |rows|
    ensures Spelled(Final(rows, i)) != Spelled(Final(rows, j))
  {
    IdMissingIff(rows, i);
    IdMissingIff(rows, j);
    FinalsDiffer(rows, i, j);
    if Spelled(Final(rows, i)).Some? && Spelled(Final(rows, i)) == Spelled(Final(rows, j)) {
      SpelledInjective(Final(rows, i), Final(rows, j));
    }
  }

  // ---- The loops ----

  /** The rows with an id, among the first n, in order. */
  ghost function Group<I, S>(rows: seq<Row<I, S>>, id: I, n: nat): (g: seq<nat>)
    requires n <= |rows|
    ensures Within(rows, g)
  {
    if n == 0 then [] else if rows[n-1].id == id then Group(rows, id, n - 1) + [n - 1] else Group(rows, id, n - 1)
  }

  lemma {:induction false} GroupMembers<I, S>(rows: seq<Row<I, S>>, id: I, n: nat)
    requires n <= |rows|
    ensures var g := Group(rows, id, n);
            && |g| == SameId(rows, id, n)
            && (forall k :: 0 <= k < |g| ==> g[k] < n && rows[g[k]].id == id)
            && (forall i :: 0 <= i < n && rows[i].id == id ==> i in g)
            && (forall k, l :: 0 <= k < l < |g| ==> g[k] < g[l])
  {
    if n > 0 {
      GroupMembers(rows, id, n - 1);
    }
  }

  ghost predicate Within<I, S>(rows: seq<Row<I, S>>, group: seq<nat>) {
    forall k :: 0 <= k < |group| ==> group[k] < |rows|
  }

  /** Of the first k rows of the group, how many have the signature. */
  ghost function SigIn<I, S>(rows: seq<Row<I, S>>, group: seq<nat>, sig: S, k: nat): nat
    requires k <= |group| && Within(rows, group)
  {
    if k == 0 then 0 else SigIn(rows, group, sig, k - 1) + if rows[group[k-1]].sig == sig then 1 else 0
  }

  lemma {:induction false} SigInPrefix<I, S>(rows: seq<Row<I, S>>, group: seq<nat>, more: seq<nat>, sig: S, k: nat)
    requires k <= |group| && Within(rows, group) && Within(rows, group + more)
    ensures SigIn(rows, group + more, sig, k) == SigIn(rows, group, sig, k)
  {
    if k > 0 {
      SigInPrefix(rows, group, more, sig, k - 1);
    }
  }

  /** Counting in the group is counting in the file. */
  lemma {:induction false} GroupTotal<I, S>(rows: seq<Row<I, S>>, id: I, sig: S, n: nat)
    requires n <= |rows|
    ensures SigIn(rows, Group(rows, id, n), sig, |Group(rows, id, n)|) == SameSig(rows, id, sig, n)
  {
    if n > 0 {
      GroupTotal(rows, id, sig, n - 1);
      var g := Group(rows, id, n - 1);
      if rows[n-1].id == id {
        assert Group(rows, id, n) == g + [n - 1];
        SigInPrefix(rows, g, [n - 1], sig, |g|);
      } else {
        assert Group(rows, id, n) == g;
      }
    }
  }

  lemma {:induction false} GroupCounts<I, S>(rows: seq<Row<I, S>>, id: I, sig: S, n: nat, k: nat)
    requires n <= |rows| && k < |Group(rows, id, n)|
    ensures SigIn(rows, Group(rows, id, n), sig, k + 1) == SameSig(rows, id, sig, Group(rows, id, n)[k] + 1)
  {
    if rows[n-1].id == id && k == |Group(rows, id, n)| - 1 {
      assert Group(rows, id, n)[k] == n - 1;
      GroupTotal(rows, id, sig, n);
    } else {
      GroupCounts(rows, id, sig, n - 1, k);
      if rows[n-1].id == id {
        SigInPrefix(rows, Group(rows, id, n - 1), [n - 1], sig, k + 1);
      }
    }
  }

  function Get<S>(m: map<S, nat>, key: S): nat {
    if key in m then m[key] else 0
  }

  /** The ids of the rows with this id, as far as they are named; all others as they were. */
  ghost predicate Named<I, S>(rows: seq<Row<I, S>>, id: I, ids: seq<Name<I, S>>, out: seq<Name<I, S>>, group: seq<nat>,
                              k: nat)
    requires Within(rows, group) && k <= |group|
  {
    && |out| == |rows| == |ids|
    && (forall i :: 0 <= i < |rows| && rows[i].id != id ==> out[i] == ids[i])
    && (forall l :: 0 <= l < k ==> out[group[l]] == Final(rows, group[l]))
  }

  method CountSigs<I(==), S(==)>(rows: seq<Row<I, S>>, group: seq<nat>) returns (sigCount: map<S, nat>)
    requires Within(rows, group)
    ensures forall sig :: Get(sigCount, sig) == SigIn(rows, group, sig, |group|)
  {
    sigCount := map[];
    for k := 0 to |group|
      invariant forall sig :: Get(sigCount, sig) == SigIn(rows, group, sig, k)
    {
      var sig := rows[group[k]].sig;
      sigCount := sigCount[sig := Get(sigCount, sig) + 1];
    }
  }

  lemma {:induction false} FinalInGroup<I, S>(rows: seq<Row<I, S>>, id: I, g: seq<nat>, k: nat, i: nat, sig: S)
    requires g == Group(rows, id, |rows|) && k < |g| && i == g[k] && i < |rows| && sig == rows[i].sig
    ensures Final(rows, i) == if |g| == 1 then Keep(id)
                              else if SigIn(rows, g, sig, |g|) == 1 then Sig(id, sig)
                              else Ordinal(id, sig, SigIn(rows, g, sig, k) + 1)
  {
    GroupMembers(rows, id, |rows|);
    assert rows[i] == Row(id, sig) && |g| == SameId(rows, id, |rows|);
    GroupTotal(rows, id, sig, |rows|);
    GroupCounts(rows, id, sig, |rows|, k);
    assert SigIn(rows, g, sig, k + 1) == SigIn(rows, g, sig, k) + 1;
  }

  lemma {:induction false} NamedOneMore<I, S>(rows: seq<Row<I, S>>, id: I, ids: seq<Name<I, S>>, out: seq<Name<I, S>>,
                                              group: seq<nat>, k: nat)
    requires group == Group(rows, id, |rows|) && k < |group| && Named(rows, id, ids, out, group, k)
    ensures Named(rows, id, ids, out[group[k] := Final(rows, group[k])], group, k + 1)
  {
    GroupMembers(rows, id, |rows|);
  }

  /** One group of rows with the same id. */
  method NameGroup<I(==), S(==)>(rows: seq<Row<I, S>>, id: I, group: seq<nat>, ids: seq<Name<I, S>>)
      returns (out: seq<Name<I, S>>)
    requires |ids| == |rows| && group != [] && group == Group(rows, id, |rows|)
    ensures Named(rows, id, ids, out, group, |group|)
  {
    out := ids;
    GroupMembers(rows, id, |rows|);
    if |group| == 1 {
      FinalInGroup(rows, id, group, 0, group[0], rows[group[0]].sig);
      out := out[group[0] := Keep(id)];
      return;
    }
    var sigCount := CountSigs(rows, group);
    var ordinal: map<S, nat> := map[];
    for k := 0 to |group|
      invariant forall sig :: SigIn(rows, group, sig, |group|) != 1 ==> Get(ordinal, sig) == SigIn(rows, group, sig, k)
      invariant Named(rows, id, ids, out, group, k)
    {
      NamedOneMore(rows, id, ids, out, group, k);
      FinalInGroup(rows, id, group, k, group[k], rows[group[k]].sig);
      var sig := rows[group[k]].sig;
      if Get(sigCount, sig) == 1 {
        out := out[group[k] := Sig(id, sig)];
      } else {
        var n := Get(ordinal, sig) + 1;
        ordinal := ordinal[sig := n];
        out := out[group[k] := Ordinal(id, sig, n)];
      }
    }
  }

  function Listed<I>(base: map<I, seq<nat>>, id: I): seq<nat> {
    if id in base then base[id] else []
  }

  /** The rows by id. */
  method GroupRows<I(==), S(==)>(rows: seq<Row<I, S>>) returns (base: map<I, seq<nat>>)
    ensures forall id :: Listed(base, id) == Group(rows, id, |rows|)
    ensures forall id :: id in base ==> base[id] != []
  {
    base := map[];
    for i := 0 to |rows|
      invariant forall id :: Listed(base, id) == Group(rows, id, i)
      invariant forall id :: id in base ==> base[id] != []
    {
      var id := rows[i].id;
      base := base[id := Listed(base, id) + [i]];
    }
  }

  /** Every row whose group has been dealt with has its final id, every other its first. */
  ghost predicate Halfway<I, S>(rows: seq<Row<I, S>>, todo: set<I>, ids: seq<Name<I, S>>) {
    |ids| == |rows| &&
        forall i :: 0 <= i < |rows| ==> ids[i] == if rows[i].id in todo then Keep(rows[i].id) else Final(rows, i)
  }

  lemma {:induction false} GroupDone<I, S>(rows: seq<Row<I, S>>, todo: set<I>, id: I, ids: seq<Name<I, S>>,
                                           out: seq<Name<I, S>>)
    requires Halfway(rows, todo, ids) && Named(rows, id, ids, out, Group(rows, id, |rows|), |Group(rows, id, |rows|)|)
    ensures Halfway(rows, todo - {id}, out)
  {
    forall i | 0 <= i < |rows| ensures out[i] == if rows[i].id in todo - {id} then Keep(rows[i].id)
        else Final(rows, i) {
      if rows[i].id == id {
        var g := Group(rows, id, |rows|);
        GroupMembers(rows, id, |rows|);
        var l :| 0 <= l < |g| && g[l] == i;
        assert out[g[l]] == Final(rows, g[l]);
      }
    }
  }

  /** resolveAmbiguities */
  method ResolveAmbiguities<I(==), S(==)>(rows: seq<Row<I, S>>) returns (ids: seq<Name<I, S>>)
    ensures |ids| == |rows| && forall i :: 0 <= i < |rows| ==> ids[i] == Final(rows, i)
  {
    var base := GroupRows(rows);
    ids := seq(|rows|, i requires 0 <= i < |rows| => Keep(rows[i].id));
    var todo := base.Keys;
    forall i | 0 <= i < |rows| ensures rows[i].id in todo {
      GroupMembers(rows, rows[i].id, |rows|);
      assert i in Listed(base, rows[i].id);
    }
    while todo != {}
      invariant todo <= base.Keys && Halfway(rows, todo, ids)
      decreases todo
    {
      var id :| id in todo;
      assert Listed(base, id) == base[id];
      var out := NameGroup(rows, id, base[id], ids);
      GroupDone(rows, todo, id, ids, out);
      ids, todo := out, todo - {id};
    }
  }
}

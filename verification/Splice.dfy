/** Replacing several disjoint ranges of a sequence at once, and the diff between two sequences. */
module Splice {

  /** The lines of one symbol, zero-based and half open: the source's [start, end] is [lo + 1, hi]. */
  datatype Zone = Zone(lo: nat, hi: nat)

  /** Symbols of one file with pairwise disjoint ranges, listed from top to bottom. */
  ghost predicate Disjoint<T>(orig: seq<T>, zones: seq<Zone>) {
    && (forall i :: 0 <= i < |zones| ==> zones[i].lo < zones[i].hi <= |orig|)
    && (forall i, j :: 0 <= i < j < |zones| ==> zones[i].hi <= zones[j].lo)
  }

  ghost function Body<T>(orig: seq<T>, z: Zone): seq<T>
    requires z.lo < z.hi <= |orig|
  {
    orig[z.lo..z.hi]
  }

  // ---- Gaps and pieces in turn ----

  /** gaps[0] + pieces[0] + ... + gaps[k-1] + pieces[k-1] */
  ghost function Above<T>(gaps: seq<seq<T>>, pieces: seq<seq<T>>, k: nat): seq<T>
    requires k <= |pieces| < |gaps|
  {
    if k == 0 then [] else Above(gaps, pieces, k - 1) + gaps[k-1] + pieces[k-1]
  }

  /** gaps[k] + pieces[k] + gaps[k+1] + ... up to the gap behind the last piece */
  ghost function Below<T>(gaps: seq<seq<T>>, pieces: seq<seq<T>>, k: nat): seq<T>
    requires k <= |pieces| < |gaps|
    decreases |pieces| - k
  {
    if k == |pieces| then gaps[k] else gaps[k] + pieces[k] + Below(gaps, pieces, k + 1)
  }

  lemma {:induction false} Meet<T>(gaps: seq<seq<T>>, pieces: seq<seq<T>>, k: nat)
    requires k <= |pieces| < |gaps|
    ensures Above(gaps, pieces, k) + Below(gaps, pieces, k) == Below(gaps, pieces, 0)
  {
    if k > 0 {
      Meet(gaps, pieces, k - 1);
      Regroup(Above(gaps, pieces, k - 1), gaps[k-1], pieces[k-1], Below(gaps, pieces, k));
    }
  }

  lemma {:induction false} Regroup<T>(a: seq<T>, b: seq<T>, c: seq<T>, d: seq<T>)
    ensures a + (b + c + d) == (a + b + c) + d
  {
  }

  lemma {:induction false} AboveKeeps<T>(gaps: seq<seq<T>>, pieces: seq<seq<T>>, k: nat, j: nat, r: seq<T>)
    requires k <= j < |pieces| < |gaps|
    ensures Above(gaps, pieces[j := r], k) == Above(gaps, pieces, k)
  {
    if k > 0 {
      AboveKeeps(gaps, pieces, k - 1, j, r);
    }
  }

  lemma {:induction false} BelowKeeps<T>(gaps: seq<seq<T>>, pieces: seq<seq<T>>, k: nat, j: nat, r: seq<T>)
    requires j < k <= |pieces| < |gaps|
    ensures Below(gaps, pieces[j := r], k) == Below(gaps, pieces, k)
    decreases |pieces| - k
  {
    if k < |pieces| {
      BelowKeeps(gaps, pieces, k + 1, j, r);
    }
  }

  ghost predicate Stands<T>(lines: seq<T>, at: int, piece: seq<T>) {
    0 <= at && at + |piece| <= |lines| && lines[at..at+|piece|] == piece
  }

  lemma {:induction false} Between<T>(xs: seq<T>, a: seq<T>, b: seq<T>, c: seq<T>)
    requires xs == a + b + c
    ensures Stands(xs, |a|, b)
  {
  }

  lemma {:induction false} First<T>(xs: seq<T>, a: seq<T>, b: seq<T>, c: seq<T>, d: seq<T>)
    requires xs == a + b + c + d
    ensures Stands(xs, |a|, b)
  {
    assert a + b + c + d == a + b + (c + d);
    Between(xs, a, b, c + d);
  }

  lemma {:induction false} GapStands<T>(gaps: seq<seq<T>>, pieces: seq<seq<T>>, k: nat, at: int)
    requires k <= |pieces| < |gaps| && at == |Above(gaps, pieces, k)|
    ensures Stands(Below(gaps, pieces, 0), at, gaps[k])
    ensures k == |pieces| ==> |Below(gaps, pieces, 0)| == at + |gaps[k]|
  {
    if k == |pieces| {
      Meet(gaps, pieces, k);
      Between(Below(gaps, pieces, 0), Above(gaps, pieces, k), gaps[k], []);
    } else {
      Meet(gaps, pieces, k + 1);
      First(Below(gaps, pieces, 0), Above(gaps, pieces, k), gaps[k], pieces[k], Below(gaps, pieces, k + 1));
    }
  }

  lemma {:induction false} PieceStands<T>(gaps: seq<seq<T>>, pieces: seq<seq<T>>, k: nat, at: int)
    requires k < |pieces| < |gaps| && at == |Above(gaps, pieces, k)| + |gaps[k]|
    ensures Stands(Below(gaps, pieces, 0), at, pieces[k])
  {
    Meet(gaps, pieces, k + 1);
    Between(Below(gaps, pieces, 0), Above(gaps, pieces, k) + gaps[k], pieces[k], Below(gaps, pieces, k + 1));
  }

  ghost predicate Exchanged<T>(before: seq<T>, lo: int, hi: int, r: seq<T>, after: seq<T>) {
    0 <= lo <= hi <= |before| && before[..lo] + r + before[hi..] == after
  }

  lemma {:induction false} ExchangePiece<T>(gaps: seq<seq<T>>, pieces: seq<seq<T>>, k: nat, lo: int, r: seq<T>)
    requires k < |pieces| < |gaps| && lo == |Above(gaps, pieces, k)| + |gaps[k]|
    ensures Exchanged(Below(gaps, pieces, 0), lo, lo + |pieces[k]|, r, Below(gaps, pieces[k := r], 0))
  {
    var head, tail := Above(gaps, pieces, k) + gaps[k], Below(gaps, pieces, k + 1);
    Meet(gaps, pieces, k + 1);
    Meet(gaps, pieces[k := r], k + 1);
    AboveKeeps(gaps, pieces, k, k, r);
    BelowKeeps(gaps, pieces, k + 1, k, r);
    Exchange(Below(gaps, pieces, 0), head, pieces[k], tail, r);
  }

  lemma {:induction false} Exchange<T>(xs: seq<T>, head: seq<T>, mid: seq<T>, tail: seq<T>, other: seq<T>)
    requires xs == head + mid + tail
    ensures xs[..|head|] + other + xs[|head|+|mid|..] == head + other + tail
  {
    assert xs[..|head|] == head && xs[|head|+|mid|..] == tail;
  }

  // ---- The simultaneous splice ----

  /** The first element after zone k - 1. */
  ghost function GapLo(zones: seq<Zone>, k: nat): nat
    requires k <= |zones|
  {
    if k == 0 then 0 else zones[k-1].hi
  }

  /** What the original holds between zone k - 1 and zone k. */
  ghost function Gap<T>(orig: seq<T>, zones: seq<Zone>, k: nat): seq<T>
    requires Disjoint(orig, zones) && k <= |zones|
  {
    orig[GapLo(zones, k)..if k == |zones| then |orig| else zones[k].lo]
  }

  /** What stands in place of zone k: its replacement if there is one. */
  ghost function Piece<T>(orig: seq<T>, zones: seq<Zone>, repl: map<nat, seq<T>>, k: nat): seq<T>
    requires Disjoint(orig, zones) && k < |zones|
  {
    if k in repl then repl[k] else Body(orig, zones[k])
  }

  ghost function Gaps<T>(orig: seq<T>, zones: seq<Zone>): seq<seq<T>>
    requires Disjoint(orig, zones)
  {
    seq(|zones| + 1, k requires 0 <= k <= |zones| => Gap(orig, zones, k))
  }

  ghost function Pieces<T>(orig: seq<T>, zones: seq<Zone>, repl: map<nat, seq<T>>): seq<seq<T>>
    requires Disjoint(orig, zones)
  {
    seq(|zones|, k requires 0 <= k < |zones| => Piece(orig, zones, repl, k))
  }

  /** The original with zones replaced all at once: the gaps stay, zone k becomes repl[k] if that is given. */
  ghost function Spliced<T>(orig: seq<T>, zones: seq<Zone>, repl: map<nat, seq<T>>): seq<T>
    requires Disjoint(orig, zones)
  {
    Below(Gaps(orig, zones), Pieces(orig, zones, repl), 0)
  }

  /** By how much the replacement of zone k moves what is behind it. */
  ghost function Growth<T>(zones: seq<Zone>, repl: map<nat, seq<T>>, k: nat): int
    requires k < |zones|
  {
    if k in repl then |repl[k]| - (zones[k].hi - zones[k].lo) else 0
  }

  /** By how much the replacements of the zones before zone k move it. */
  ghost function Shift<T>(zones: seq<Zone>, repl: map<nat, seq<T>>, k: nat): int
    requires k <= |zones|
  {
    if k == 0 then 0 else Shift(zones, repl, k - 1) + Growth(zones, repl, k - 1)
  }

  ghost predicate Measures<T>(zones: seq<Zone>, repl: map<nat, seq<T>>, gaps: seq<seq<T>>, pieces: seq<seq<T>>) {
    && |gaps| == |zones| + 1 && |pieces| == |zones|
    && (forall i {:trigger gaps[i]} :: 0 <= i < |zones| ==> |gaps[i]| == zones[i].lo - GapLo(zones, i))
    && (forall i {:trigger pieces[i]} ::
           0 <= i < |zones| ==> |pieces[i]| == zones[i].hi - zones[i].lo + Growth(zones, repl, i))
  }

  lemma {:induction false} LengthAbove<T>(zones: seq<Zone>, repl: map<nat, seq<T>>, gaps: seq<seq<T>>,
                                          pieces: seq<seq<T>>, k: nat)
    requires Measures(zones, repl, gaps, pieces) && k <= |zones|
    ensures |Above(gaps, pieces, k)| == GapLo(zones, k) + Shift(zones, repl, k)
  {
    if k > 0 {
      LengthAbove(zones, repl, gaps, pieces, k - 1);
    }
  }

  lemma {:induction false} AboveLength<T>(orig: seq<T>, zones: seq<Zone>, repl: map<nat, seq<T>>, k: nat)
    requires Disjoint(orig, zones) && k <= |zones|
    ensures |Above(Gaps(orig, zones), Pieces(orig, zones, repl), k)| == GapLo(zones, k) + Shift(zones, repl, k)
  {
    var gaps, pieces := Gaps(orig, zones), Pieces(orig, zones, repl);
    forall i | 0 <= i < |zones|
      ensures |gaps[i]| == zones[i].lo - GapLo(zones, i) &&
                |pieces[i]| == zones[i].hi - zones[i].lo + Growth(zones, repl, i)
    {
      PartLengths(orig, zones, repl, i);
    }
    LengthAbove(zones, repl, gaps, pieces, k);
  }

  lemma {:induction false} PartLengths<T>(orig: seq<T>, zones: seq<Zone>, repl: map<nat, seq<T>>, k: nat)
    requires Disjoint(orig, zones) && k < |zones|
    ensures |Gaps(orig, zones)[k]| == zones[k].lo - GapLo(zones, k)
    ensures |Pieces(orig, zones, repl)[k]| == zones[k].hi - zones[k].lo + Growth(zones, repl, k)
  {
  }

  /** Replacing nothing changes nothing. */
  lemma {:induction false} NothingReplaced<T>(orig: seq<T>, zones: seq<Zone>, k: nat)
    requires Disjoint(orig, zones) && k <= |zones|
    ensures Below(Gaps(orig, zones), Pieces(orig, zones, map[]), k) == orig[GapLo(zones, k)..]
    ensures k == 0 ==> Spliced(orig, zones, map[]) == orig
    decreases |zones| - k
  {
    if k < |zones| {
      NothingReplaced(orig, zones, k + 1);
      CutInThree(orig, GapLo(zones, k), zones[k].lo, zones[k].hi);
    }
  }

  lemma {:induction false} CutInThree<T>(xs: seq<T>, a: nat, b: nat, c: nat)
    requires a <= b <= c <= |xs|
    ensures xs[a..] == xs[a..b] + xs[b..c] + xs[c..]
  {
  }

  lemma {:induction false} NoShift<T>(zones: seq<Zone>, k: nat)
    requires k <= |zones|
    ensures Shift<T>(zones, map[], k) == 0
  {
    if k > 0 {
      NoShift<T>(zones, k - 1);
    }
  }

  lemma {:induction false} ShiftAfter<T>(zones: seq<Zone>, repl: map<nat, seq<T>>, k: nat, j: nat, r: seq<T>)
    requires k <= |zones| && j < |zones| && j !in repl
    ensures Shift(zones, repl[j := r], k)
         == Shift(zones, repl, k) + if j < k then |r| - (zones[j].hi - zones[j].lo) else 0
  {
    if k > 0 {
      ShiftAfter(zones, repl, k - 1, j, r);
    }
  }

  /** Where zone k and the gap above it stand in the splice. */
  lemma {:induction false} Places<T>(orig: seq<T>, zones: seq<Zone>, repl: map<nat, seq<T>>, k: nat)
    requires Disjoint(orig, zones) && k < |zones|
    ensures var gaps, pieces := Gaps(orig, zones), Pieces(orig, zones, repl);
            && |Above(gaps, pieces, k)| == GapLo(zones, k) + Shift(zones, repl, k)
            && |Above(gaps, pieces, k)| + |gaps[k]| == zones[k].lo + Shift(zones, repl, k)
            && gaps[k] == Gap(orig, zones, k) && pieces[k] == Piece(orig, zones, repl, k)
  {
    AboveLength(orig, zones, repl, k);
  }

  /** What the splice is, element by element: what the original holds between two zones is kept, moved by the
      shift of the zones above it ... */
  lemma {:induction false} SplicedGap<T>(orig: seq<T>, zones: seq<Zone>, repl: map<nat, seq<T>>, k: nat)
    requires Disjoint(orig, zones) && k <= |zones|
    ensures Stands(Spliced(orig, zones, repl), GapLo(zones, k) + Shift(zones, repl, k), Gap(orig, zones, k))
  {
    var gaps := Gaps(orig, zones);
    assert gaps[k] == Gap(orig, zones, k);
    AboveLength(orig, zones, repl, k);
    GapStands(gaps, Pieces(orig, zones, repl), k, GapLo(zones, k) + Shift(zones, repl, k));
  }

  /** ... every zone holds exactly its piece ... */
  lemma {:induction false} SplicedPiece<T>(orig: seq<T>, zones: seq<Zone>, repl: map<nat, seq<T>>, k: nat)
    requires Disjoint(orig, zones) && k < |zones|
    ensures Stands(Spliced(orig, zones, repl), zones[k].lo + Shift(zones, repl, k), Piece(orig, zones, repl, k))
  {
    var gaps, pieces := Gaps(orig, zones), Pieces(orig, zones, repl);
    Places(orig, zones, repl, k);
    assert pieces[k] == Piece(orig, zones, repl, k);
    PieceStands(gaps, pieces, k, zones[k].lo + Shift(zones, repl, k));
  }

  /** ... and there is nothing else. */
  lemma {:induction false} SplicedEnd<T>(orig: seq<T>, zones: seq<Zone>, repl: map<nat, seq<T>>)
    requires Disjoint(orig, zones)
    ensures |Spliced(orig, zones, repl)| == |orig| + Shift(zones, repl, |zones|)
  {
    AboveLength(orig, zones, repl, |zones|);
    GapStands(Gaps(orig, zones), Pieces(orig, zones, repl), |zones|,
        GapLo(zones, |zones|) + Shift(zones, repl, |zones|));
  }

  lemma {:induction false} PiecesUpdate<T>(orig: seq<T>, zones: seq<Zone>, repl: map<nat, seq<T>>, k: nat, r: seq<T>)
    requires Disjoint(orig, zones) && k < |zones|
    ensures Pieces(orig, zones, repl[k := r]) == Pieces(orig, zones, repl)[k := r]
  {
  }

  /** Replacing one more zone where it now stands is splicing with one more replacement. */
  lemma {:induction false} SpliceOneMore<T>(orig: seq<T>, zones: seq<Zone>, repl: map<nat, seq<T>>, k: nat, r: seq<T>)
    requires Disjoint(orig, zones) && k < |zones| && k !in repl
    ensures var lines, lo, hi := Spliced(orig, zones, repl), zones[k].lo + Shift(zones, repl, k), zones[k].hi +
              Shift(zones, repl, k);
            Stands(lines, lo, Body(orig, zones[k])) && Exchanged(lines, lo, hi, r, Spliced(orig, zones, repl[k := r]))
  {
    var lo := zones[k].lo + Shift(zones, repl, k);
    Places(orig, zones, repl, k);
    PiecesUpdate(orig, zones, repl, k, r);
    PieceStands(Gaps(orig, zones), Pieces(orig, zones, repl), k, lo);
    ExchangePiece(Gaps(orig, zones), Pieces(orig, zones, repl), k, lo, r);
  }

  // ---- The diff that is reported with an edit ----

  datatype Diff<T> = Diff(start: nat, removed: seq<T>, added: seq<T>)

  /** The diff turns the one sequence into the other, and neither begins nor ends with a common element. */
  ghost predicate Explains<T>(d: Diff<T>, before: seq<T>, after: seq<T>) {
    && Stands(before, d.start, d.removed)
    && after == before[..d.start] + d.added + before[d.start+|d.removed|..]
    && (d.removed != [] && d.added != [] ==>
           d.removed[0] != d.added[0] && d.removed[|d.removed|-1] != d.added[|d.added|-1])
  }

  ghost predicate SameHead<T>(before: seq<T>, after: seq<T>, n: nat) {
    n <= |before| && n <= |after| && forall i :: 0 <= i < n ==> before[i] == after[i]
  }

  ghost predicate SameTail<T>(before: seq<T>, after: seq<T>, n: nat) {
    n <= |before| && n <= |after| && forall i :: |after| - n <= i < |after| ==> after[i] == before[i+|before|-|after|]
  }

  lemma {:induction false} Rejoined<T>(before: seq<T>, after: seq<T>, p: nat, s: nat)
    requires SameHead(before, after, p) && SameTail(before, after, s) && p + s <= |before| && p + s <= |after|
    requires p + s < |before| && p + s < |after| ==> before[p] != after[p] && before[|before|-1-s] != after[|after|-1-s]
    ensures Explains(Diff(p, before[p..|before|-s], after[p..|after|-s]), before, after)
  {
    var b, a := |before| - s, |after| - s;
    SplitInThree(after, p, a);
    assert after[..p] == before[..p];
    assert after[a..] == before[b..];
  }

  lemma {:induction false} SplitInThree<T>(xs: seq<T>, p: nat, a: nat)
    requires p <= a <= |xs|
    ensures xs == xs[..p] + xs[p..a] + xs[a..]
  {
  }

  lemma {:induction false} OneMoreInTail<T>(before: seq<T>, after: seq<T>, s: nat)
    requires SameTail(before, after, s) && s < |before| && s < |after| && before[|before|-1-s] == after[|after|-1-s]
    ensures SameTail(before, after, s + 1)
  {
  }

  /** makeSimpleDiff: one hunk between the longest common prefix and suffix. */
  method MakeSimpleDiff<T(==)>(before: seq<T>, after: seq<T>) returns (d: Diff<T>)
    ensures Explains(d, before, after)
  {
    var prefix := 0;
    var maxP := if |before| < |after| then |before| else |after|;
    while prefix < maxP && before[prefix] == after[prefix]
      invariant 0 <= prefix <= maxP && SameHead(before, after, prefix)
    {
      prefix := prefix + 1;
    }
    var suffix := 0;
    while suffix < |before| - prefix && suffix < |after| - prefix &&
        before[|before|-1-suffix] == after[|after|-1-suffix]
      invariant 0 <= suffix <= |before| - prefix && suffix <= |after| - prefix && SameTail(before, after, suffix)
    {
      OneMoreInTail(before, after, suffix);
      suffix := suffix + 1;
    }
    Rejoined(before, after, prefix, suffix);
    d := Diff(prefix, before[prefix..|before|-suffix], after[prefix..|after|-suffix]);
  }
}

/** Text and its lines, as JavaScript's split, join, slice and trim see them. */
module Lines {

  type Line = string

  /** text.split('\n') */
  function Split(text: string): (lines: seq<Line>)
    ensures |lines| >= 1
  {
    if text == "" then [""]
    else if text[0] == '\n' then [""] + Split(text[1..])
    else PushFirst(text[0], Split(text[1..]))
  }

  function PushFirst(c: char, lines: seq<Line>): seq<Line>
    requires lines != []
  {
    [[c] + lines[0]] + lines[1..]
  }

  lemma {:induction false} PushFirstConcat(c: char, a: seq<Line>, b: seq<Line>)
    requires a != []
    ensures PushFirst(c, a + b) == PushFirst(c, a) + b
  {
    assert (a + b)[1..] == a[1..] + b;
  }

  /** lines.join('\n') */
  function Join(lines: seq<Line>): string {
    if lines == [] then "" else if |lines| == 1 then lines[0] else lines[0] + "\n" + Join(lines[1..])
  }

  lemma {:induction false} JoinSplit(text: string)
    ensures Join(Split(text)) == text
  {
    if text != "" {
      JoinSplit(text[1..]);
      var rest := Split(text[1..]);
      if text[0] == '\n' {
        assert ([""] + rest)[1..] == rest;
      } else {
        var lines := [[text[0]] + rest[0]] + rest[1..];
        assert lines[1..] == rest[1..];
      }
    }
  }

  /** No line holds a line feed; with that and JoinSplit the lines are fixed. */
  lemma {:induction false} SplitIsFine(text: string)
    ensures forall l :: l in Split(text) ==> '\n' !in l
  {
    if text != "" {
      SplitIsFine(text[1..]);
      var rest := Split(text[1..]);
      assert forall i :: 0 <= i < |rest| ==> rest[i] in rest;
    }
  }

  lemma {:induction false} SplitAtNewline(a: string, b: string)
    ensures Split(a + "\n" + b) == Split(a) + Split(b)
  {
    var t := a + "\n" + b;
    if a == "" {
      assert t[1..] == b;
    } else {
      SplitAtNewline(a[1..], b);
      assert t[1..] == a[1..] + "\n" + b && t[0] == a[0];
      if a[0] == '\n' {
        assert Split(t) == [""] + (Split(a[1..]) + Split(b));
      } else {
        PushFirstConcat(a[0], Split(a[1..]), Split(b));
      }
    }
  }

  lemma {:induction false} SplitOneLine(text: string)
    requires '\n' !in text
    ensures Split(text) == [text]
  {
    if text != "" {
      SplitOneLine(text[1..]);
      assert text == [text[0]] + text[1..];
    }
  }

  /** Lines that are joined can be split again; no lines give no text. */
  lemma {:induction false} SplitJoin(lines: seq<Line>)
    requires forall l :: l in lines ==> '\n' !in l
    ensures Split(Join(lines)) == if lines == [] then [""] else lines
    ensures lines == [] ==> Join(lines) == ""
  {
    if |lines| == 1 {
      SplitOneLine(lines[0]);
    } else if lines != [] {
      SplitJoin(lines[1..]);
      SplitOneLine(lines[0]);
      SplitAtNewline(lines[0], Join(lines[1..]));
    }
  }

  /** The white space that trim removes. */
  predicate IsSpace(c: char) {
    c as int in {9, 10, 11, 12, 13, 32, 160, 5760, 8232, 8233, 8239, 8287, 12288, 65279} || 8192 <= c as int <= 8202
  }

  function Trim(s: string): string {
    if s == "" then ""
    else if IsSpace(s[0]) then Trim(s[1..])
    else if IsSpace(s[|s|-1]) then Trim(s[..|s|-1])
    else s
  }

  ghost predicate White(c: char) {
    || '\t' <= c <= '\r' || c == ' ' || c == '\U{00A0}' || c == '\U{1680}' || '\U{2000}' <= c <= '\U{200A}'
    || c == '\U{2028}' || c == '\U{2029}' || c == '\U{202F}' || c == '\U{205F}' || c == '\U{3000}' || c == '\U{FEFF}'
  }

  ghost predicate Blank(s: string) {
    forall i :: 0 <= i < |s| ==> White(s[i])
  }

  /** t is s without white space in front and behind. */
  ghost predicate IsTrimmed(s: string, front: string, t: string, back: string) {
    && s == front + t + back && Blank(front) && Blank(back)
    && (t != "" ==> !White(t[0]) && !White(t[|t|-1]))
  }

  lemma {:induction false} MoreInFront(s: string, front: string, t: string, back: string)
    requires s != "" && IsSpace(s[0]) && IsTrimmed(s[1..], front, t, back)
    ensures IsTrimmed(s, [s[0]] + front, t, back)
  {
    assert s == [s[0]] + s[1..] == [s[0]] + (front + t + back);
  }

  lemma {:induction false} MoreBehind(s: string, front: string, t: string, back: string)
    requires s != "" && IsSpace(s[|s|-1]) && IsTrimmed(s[..|s|-1], front, t, back)
    ensures IsTrimmed(s, front, t, back + [s[|s|-1]])
  {
    assert s == s[..|s|-1] + [s[|s|-1]] == front + t + back + [s[|s|-1]];
  }

  lemma {:induction false} TrimMeaning(s: string) returns (front: string, back: string)
    ensures IsTrimmed(s, front, Trim(s), back)
  {
    front, back := "", "";
    if s != "" {
      if IsSpace(s[0]) {
        front, back := TrimMeaning(s[1..]);
        MoreInFront(s, front, Trim(s[1..]), back);
        front := [s[0]] + front;
      } else if IsSpace(s[|s|-1]) {
        front, back := TrimMeaning(s[..|s|-1]);
        MoreBehind(s, front, Trim(s[..|s|-1]), back);
        back := back + [s[|s|-1]];
      }
    }
  }

  /** xs.slice(a, b) for non-negative bounds. */
  function Slice<T>(xs: seq<T>, a: nat, b: nat): seq<T> {
    if a >= |xs| || b <= a then [] else if b > |xs| then xs[a..] else xs[a..b]
  }

  /** The elements from a on, up to b as far as they exist. */
  lemma {:induction false} SliceMeaning<T>(xs: seq<T>, a: nat, b: nat)
    ensures var end := if b < |xs| then b else |xs|;
            && |Slice(xs, a, b)| == (if a < end then end - a else 0)
            && forall i :: 0 <= i < |Slice(xs, a, b)| ==> Slice(xs, a, b)[i] == xs[a+i]
  {
  }
}

/** The bracket check on edited code: string, comment and regex literals are stripped, then the brackets must be
    well nested (malong/write-edit.js: stripLiteralsForBracket, checkBracketBalance). */
module Brackets {
  import opened Common

  // ---- Well nested sequences ----

  datatype Nest = Empty | Wrap(open: char, inner: Nest, close: char) | Beside(left: Nest, right: Nest)

  predicate IsOpen(c: char) {
    c == '(' || c == '[' || c == '{'
  }

  predicate IsClose(c: char) {
    c == ')' || c == ']' || c == '}'
  }

  function Closing(c: char): char {
    if c == '(' then ')' else if c == '[' then ']' else '}'
  }

  /** An opening bracket and the one that closes it. */
  ghost predicate IsPair(open: char, close: char) {
    (open == '(' && close == ')') || (open == '[' && close == ']') || (open == '{' && close == '}')
  }

  ghost predicate Brackets(t: Nest) {
    match t
    case Empty => true
    case Wrap(open, inner, close) => IsPair(open, close) && Brackets(inner)
    case Beside(left, right) => Brackets(left) && Brackets(right)
  }

  ghost function Flat(t: Nest): string {
    match t
    case Empty => []
    case Wrap(open, inner, close) => [open] + Flat(inner) + [close]
    case Beside(left, right) => Flat(left) + Flat(right)
  }

  /** The sequence is nothing, a well nested sequence in a pair of brackets, or one beside another. */
  ghost predicate WellNested(s: string) {
    exists t :: Brackets(t) && Flat(t) == s
  }

  function BracketsOf(code: string): string {
    if code == "" then ""
    else if IsOpen(code[0]) || IsClose(code[0]) then [code[0]] + BracketsOf(code[1..])
    else BracketsOf(code[1..])
  }

  /** Which characters are brackets, and that nothing else is left of a text: of a longer one what is left of its
      parts. */
  lemma {:induction false} BracketsOfMeaning(c: char, rest: string)
    ensures BracketsOf([c] + rest) == (if c in "()[]{}" then [c] else "") + BracketsOf(rest)
    ensures BracketsOf("") == ""
  {
    assert ([c] + rest)[1..] == rest;
  }

  /** What the stack makes of a bracket sequence: the stack in the end, unless a closing bracket did not fit. */
  function Machine(stack: string, s: string): Option<string>
    decreases |s|
  {
    if s == "" then Some(stack)
    else if IsOpen(s[0]) then Machine(stack + [s[0]], s[1..])
    else if stack != "" && Closing(stack[|stack|-1]) == s[0] then Machine(stack[..|stack|-1], s[1..])
    else None
  }

  lemma {:induction false} NestRuns(t: Nest, stack: string, rest: string)
    requires Brackets(t)
    ensures Machine(stack, Flat(t) + rest) == Machine(stack, rest)
    decreases t
  {
    match t
    case Empty => assert Flat(t) + rest == rest;
    case Wrap(open, inner, close) =>
      var tail := [close] + rest;
      var s := Flat(t) + rest;
      assert s[1..] == Flat(inner) + tail;
      NestRuns(inner, stack + [open], tail);
      assert tail[1..] == rest && (stack + [open])[..|stack|] == stack;
    case Beside(left, right) =>
      assert Flat(t) + rest == Flat(left) + (Flat(right) + rest);
      NestRuns(left, stack, Flat(right) + rest);
      NestRuns(right, stack, rest);
  }

  /** The sequence closes all that is open on the stack, with something well nested before each closing bracket. */
  ghost predicate Completes(stack: string, s: string)
    decreases |stack|
  {
    if stack == "" then WellNested(s)
    else exists t, rest :: ClosesTop(stack, s, t, rest) && Completes(stack[..|stack|-1], rest)
  }

  ghost predicate ClosesTop(stack: string, s: string, t: Nest, rest: string)
    requires stack != ""
  {
    Brackets(t) && s == Flat(t) + [Closing(stack[|stack|-1])] + rest
  }

  lemma {:induction false} NestBefore(stack: string, w: Nest, rest: string)
    requires Brackets(w) && Completes(stack, rest)
    ensures Completes(stack, Flat(w) + rest)
  {
    if stack == "" {
      var t :| Brackets(t) && Flat(t) == rest;
      assert Brackets(Beside(w, t)) && Flat(Beside(w, t)) == Flat(w) + rest;
    } else {
      var t, r :| ClosesTop(stack, rest, t, r) && Completes(stack[..|stack|-1], r);
      var c := [Closing(stack[|stack|-1])];
      assert Flat(w) + (Flat(t) + c + r) == (Flat(w) + Flat(t)) + c + r;
      assert ClosesTop(stack, Flat(w) + rest, Beside(w, t), r);
    }
  }

  lemma {:induction false} OpenCompletes(stack: string, s: string)
    requires s != "" && IsOpen(s[0]) && Completes(stack + [s[0]], s[1..])
    ensures Completes(stack, s)
  {
    var stack' := stack + [s[0]];
    assert stack'[..|stack'|-1] == stack;
    var t, rest :| ClosesTop(stack', s[1..], t, rest) && Completes(stack, rest);
    var w := Wrap(s[0], t, Closing(s[0]));
    assert s == [s[0]] + s[1..] == Flat(w) + rest;
    NestBefore(stack, w, rest);
  }

  lemma {:induction false} AcceptedCompletes(stack: string, s: string)
    requires Machine(stack, s) == Some("")
    ensures Completes(stack, s)
    decreases |s|
  {
    if s == "" {
      assert Brackets(Empty) && Flat(Empty) == s;
    } else if IsOpen(s[0]) {
      AcceptedCompletes(stack + [s[0]], s[1..]);
      OpenCompletes(stack, s);
    } else {
      AcceptedCompletes(stack[..|stack|-1], s[1..]);
      assert s == Flat(Empty) + [s[0]] + s[1..];
      assert ClosesTop(stack, s, Empty, s[1..]);
    }
  }

  /** The stack ends empty exactly on the well nested sequences. */
  lemma {:induction false} MachineAccepts(s: string)
    ensures Machine("", s) == Some("") <==> WellNested(s)
  {
    if Machine("", s) == Some("") {
      AcceptedCompletes("", s);
    }
    if WellNested(s) {
      var t :| Brackets(t) && Flat(t) == s;
      NestRuns(t, "", "");
      assert s + "" == s;
    }
  }
}

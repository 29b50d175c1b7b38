/** On what the bracket check depends inside a string literal: on nothing, unless a slash before the literal is
    still waiting to be the start of a regex (malong/write-edit.js: stripLiteralsForBracket). */
module LiteralContents {
  import opened Common
  import opened Brackets
  import opened Stripper

  /** How a scan stands at the end of a text that goes on: between tokens, at a slash that may or may not turn out
      to start a regex, or inside a string or comment. */
  datatype Status = Between(before: string) | OpenRegex(at: nat, before: string) | Inside

  function Scan(pre: string, i: nat, before: string, hash: bool): (s: Status)
    ensures s.OpenRegex? ==> s.at < |pre|
    decreases |pre| - i
  {
    if i >= |pre| then Between(before)
    else
      var c := pre[i];
      if IsQuote(c) then
        if QuoteEnd(pre, i + 1, c).None? then Inside else Scan(pre, QuoteEnd(pre, i + 1, c).value, before + [' '], hash)
      else if (c == '/' && i + 1 < |pre| && pre[i+1] == '/') || (c == '#' && hash) then
        if LineEnd(pre, i) == |pre| then Inside else Scan(pre, LineEnd(pre, i), before + [' '], hash)
      else if c == '/' && i + 1 < |pre| && pre[i+1] == '*' then
        if CommentEnd(pre, i + 2).None? then Inside else Scan(pre, CommentEnd(pre, i + 2).value, before + [' '], hash)
      else if c == '/' && MayStartRegex(before) then
        match RegexEnd(pre, i + 1, false)
        case Found(e) => Scan(pre, e, before + [' '], hash)
        case NoRegex => Scan(pre, i + 1, before + [c], hash)
        case CutOff => OpenRegex(i, before)
      else Scan(pre, i + 1, before + [c], hash)
  }

  // ---- A longer text has the same ends ----

  lemma {:induction false} QuoteEndKept(pre: string, rest: string, i: nat, q: char)
    requires QuoteEnd(pre, i, q).Some?
    ensures QuoteEnd(pre + rest, i, q) == QuoteEnd(pre, i, q)
    decreases |pre| - i
  {
    if pre[i] == '\\' {
      QuoteEndKept(pre, rest, i + 2, q);
    } else if pre[i] != q {
      QuoteEndKept(pre, rest, i + 1, q);
    }
  }

  lemma {:induction false} LineEndKept(pre: string, rest: string, i: nat)
    requires i <= |pre| && LineEnd(pre, i) < |pre|
    ensures LineEnd(pre + rest, i) == LineEnd(pre, i)
    decreases |pre| - i
  {
    if pre[i] != '\n' {
      LineEndKept(pre, rest, i + 1);
    }
  }

  lemma {:induction false} CommentEndKept(pre: string, rest: string, i: nat)
    requires CommentEnd(pre, i).Some?
    ensures CommentEnd(pre + rest, i) == CommentEnd(pre, i)
    decreases |pre| - i
  {
    if !(pre[i] == '*' && pre[i+1] == '/') {
      CommentEndKept(pre, rest, i + 1);
    }
  }

  lemma {:induction false} RegexEndKept(pre: string, rest: string, i: nat, inClass: bool)
    requires !RegexEnd(pre, i, inClass).CutOff?
    ensures RegexEnd(pre + rest, i, inClass) == RegexEnd(pre, i, inClass)
    decreases |pre| - i
  {
    var c := pre[i];
    assert (pre + rest)[i] == c;
    if c == '\n' {
    } else if c == '\\' {
      RegexEndKept(pre, rest, i + 2, inClass);
    } else if c == '[' || c == ']' {
      RegexEndKept(pre, rest, i + 1, c == '[');
    } else if !(c == '/' && !inClass) {
      RegexEndKept(pre, rest, i + 1, inClass);
    }
  }

  /** One token of pre, unless the scan ends there: a longer text that goes on with a quote has the same. */
  lemma {:induction false} SameToken(pre: string, rest: string, i: nat, before: string, hash: bool)
      returns (e: nat, c: char)
    requires rest != "" && IsQuote(rest[0]) && i < |pre|
    ensures var s := Scan(pre, i, before, hash);
            || s.Inside? || s == OpenRegex(i, before)
            || (i < e <= |pre| && Token(pre + rest, i, before, hash) == (e, c) && s == Scan(pre, e, before + [c], hash))
  {
    var text := pre + rest;
    assert text[i] == pre[i] && (i + 1 < |pre| ==> text[i+1] == pre[i+1]) && (i + 1 == |pre| ==> text[i+1] == rest[0]);
    e, c := i, ' ';
    if IsQuote(pre[i]) {
      if QuoteEnd(pre, i + 1, pre[i]).Some? {
        QuoteEndKept(pre, rest, i + 1, pre[i]);
        e := QuoteEnd(pre, i + 1, pre[i]).value;
      }
    } else if (pre[i] == '/' && i + 1 < |pre| && pre[i+1] == '/') || (pre[i] == '#' && hash) {
      if LineEnd(pre, i) < |pre| {
        LineEndKept(pre, rest, i);
        e := LineEnd(pre, i);
      }
    } else if pre[i] == '/' && i + 1 < |pre| && pre[i+1] == '*' {
      if CommentEnd(pre, i + 2).Some? {
        CommentEndKept(pre, rest, i + 2);
        e := CommentEnd(pre, i + 2).value;
      }
    } else {
      e, c := i + 1, pre[i];
      if pre[i] == '/' && MayStartRegex(before) && !RegexEnd(pre, i + 1, false).CutOff? {
        RegexEndKept(pre, rest, i + 1, false);
        if RegexEnd(pre, i + 1, false).Found? {
          e, c := RegexEnd(pre, i + 1, false).end, ' ';
        }
      }
    }
  }

  /** Where a scan of pre stands is where a scan of the longer text passes, if that goes on with a quote. */
  lemma {:induction false} ScanPasses(pre: string, rest: string, i: nat, before: string, hash: bool)
    requires rest != "" && IsQuote(rest[0]) && i <= |pre|
    ensures match Scan(pre, i, before, hash)
            case Between(b) => Strip(pre + rest, i, before, hash) == Strip(pre + rest, |pre|, b, hash)
            case OpenRegex(j, b) => Strip(pre + rest, i, before, hash) == Strip(pre + rest, j, b, hash)
            case Inside => true
    decreases |pre| - i
  {
    if i < |pre| {
      var s := Scan(pre, i, before, hash);
      var e, c := SameToken(pre, rest, i, before, hash);
      if !s.Inside? && s != OpenRegex(i, before) {
        ScanPasses(pre, rest, e, before + [c], hash);
      }
    }
  }

  // ---- What is behind a place decides alone what is left of it ----

  lemma {:induction false} QuoteEndMoved(head: string, text: string, i: nat, q: char)
    ensures QuoteEnd(head + text, |head| + i, q) ==
      match QuoteEnd(text, i, q) case Some(e) => Some(|head| + e) case None => None
    decreases |text| - i
  {
    if i < |text| {
      assert (head + text)[|head|+i] == text[i];
      QuoteEndMoved(head, text, i + 2, q);
      QuoteEndMoved(head, text, i + 1, q);
    }
  }

  lemma {:induction false} LineEndMoved(head: string, text: string, i: nat)
    requires i <= |text|
    ensures LineEnd(head + text, |head| + i) == |head| + LineEnd(text, i)
    decreases |text| - i
  {
    if i < |text| {
      assert (head + text)[|head|+i] == text[i];
      LineEndMoved(head, text, i + 1);
    }
  }

  lemma {:induction false} CommentEndMoved(head: string, text: string, i: nat)
    ensures CommentEnd(head + text, |head| + i) ==
      match CommentEnd(text, i) case Some(e) => Some(|head| + e) case None => None
    decreases |text| - i
  {
    if i + 1 < |text| {
      assert (head + text)[|head|+i] == text[i] && (head + text)[|head|+i+1] == text[i+1];
      CommentEndMoved(head, text, i + 1);
    }
  }

  lemma {:induction false} RegexEndMoved(head: string, text: string, i: nat, inClass: bool)
    ensures RegexEnd(head + text, |head| + i, inClass) ==
      match RegexEnd(text, i, inClass) case Found(e) => Found(|head| + e) case other => other
    decreases |text| - i
  {
    if i < |text| {
      assert (head + text)[|head|+i] == text[i];
      if text[i] == '\\' {
        RegexEndMoved(head, text, i + 2, inClass);
      } else {
        RegexEndMoved(head, text, i + 1, if text[i] == '[' then true else if text[i] == ']' then false else inClass);
      }
    }
  }

  lemma {:induction false} TokenMoved(head: string, text: string, i: nat, before: string, hash: bool)
    requires i < |text|
    ensures Token(head + text, |head| + i, before, hash).0 == |head| + Token(text, i, before, hash).0
    ensures Token(head + text, |head| + i, before, hash).1 == Token(text, i, before, hash).1
  {
    assert (head + text)[|head|+i] == text[i] && (i + 1 < |text| ==> (head + text)[|head|+i+1] == text[i+1]);
    QuoteEndMoved(head, text, i + 1, text[i]);
    LineEndMoved(head, text, i);
    CommentEndMoved(head, text, i + 2);
    RegexEndMoved(head, text, i + 1, false);
  }

  lemma {:induction false} StripMoved(head: string, text: string, i: nat, before: string, hash: bool)
    ensures Strip(head + text, |head| + i, before, hash) == Strip(text, i, before, hash)
    decreases |text| - i
  {
    if i < |text| {
      TokenMoved(head, text, i, before, hash);
      var (e, c) := Token(text, i, before, hash);
      StripMoved(head, text, e, before + [c], hash);
    }
  }

  // ---- Literals ----

  /** The body of a literal that the quote q behind it ends. */
  ghost predicate Terminated(body: string, q: char) {
    IsQuote(q) && QuoteEnd(body + [q], 0, q) == Some(|body| + 1)
  }

  function Literal(body: string, q: char): string {
    [q] + body + [q]
  }

  lemma {:induction false} LiteralIsToken(body: string, q: char, post: string, before: string, hash: bool)
    requires Terminated(body, q)
    ensures Token(Literal(body, q) + post, 0, before, hash) == (|Literal(body, q)|, ' ')
  {
    var rest := Literal(body, q) + post;
    var tail := (body + [q]) + post;
    assert rest == [q] + tail;
    QuoteEndKept(body + [q], post, 0, q);
    QuoteEndMoved([q], tail, 0, q);
    assert QuoteEnd(rest, 1, q) == Some(|body| + 2);
  }

  /** Behind text that the scan has finished with, a terminated literal leaves one blank, whatever it contains. */
  lemma {:induction false} LiteralLeavesBlank(pre: string, body: string, q: char, post: string, hash: bool)
    requires Terminated(body, q) && Scan(pre, 0, "", hash).Between?
    ensures Strip(pre + Literal(body, q) + post, 0, "", hash) ==
              Strip(post, 0, Scan(pre, 0, "", hash).before + [' '], hash)
  {
    var lit, b := Literal(body, q), Scan(pre, 0, "", hash).before;
    var rest := lit + post;
    assert pre + lit + post == pre + rest;
    ScanPasses(pre, rest, 0, "", hash);
    StripMoved(pre, rest, 0, b, hash);
    LiteralIsToken(body, q, post, b, hash);
    StripMoved(lit, post, 0, b + [' '], hash);
  }

  /** So the verdict on the whole text does not depend on what the literal contains. */
  lemma {:induction false} ContentsDoNotMatter(pre: string, body: string, body': string, q: char, post: string,
                                               lang: string)
    requires Terminated(body, q) && Terminated(body', q)
    requires Scan(pre, 0, "", HashComments(lang)).Between?
    ensures Balanced(pre + Literal(body, q) + post, lang) <==> Balanced(pre + Literal(body', q) + post, lang)
  {
    LiteralLeavesBlank(pre, body, q, post, HashComments(lang));
    LiteralLeavesBlank(pre, body', q, post, HashComments(lang));
  }

  // ---- Where the contents matter ----

  /** A regex that is open at the end of pre is closed by "]/" and given up at a line feed. */
  lemma {:induction false} OpenRegexEnds(pre: string, i: nat, inClass: bool, q: char, post: string)
    requires RegexEnd(pre, i, inClass).CutOff? && IsQuote(q)
    requires i <= |pre| + 1
    ensures RegexEnd(pre + [q, ']', '/'] + post, i, inClass) == Found(|pre| + 3)
    ensures RegexEnd(pre + [q, q, '\n'] + post, i, inClass).NoRegex?
    decreases |pre| + 1 - i
  {
    var a, b := pre + [q, ']', '/'] + post, pre + [q, q, '\n'] + post;
    if i >= |pre| {
      assert a[|pre|] == q && a[|pre|+1] == ']' && a[|pre|+2] == '/';
      assert b[|pre|] == q && b[|pre|+1] == q && b[|pre|+2] == '\n';
      var n := |pre|;
      assert RegexEnd(a, n + 2, false) == Found(n + 3) && RegexEnd(b, n + 2, inClass).NoRegex?;
      assert RegexEnd(a, n + 1, inClass) == Found(n + 3) && RegexEnd(b, n + 1, inClass).NoRegex?;
      assert RegexEnd(a, n, inClass) == Found(n + 3) && RegexEnd(b, n, inClass).NoRegex?;
    } else {
      var c := pre[i];
      assert a[i] == c && b[i] == c;
      if c == '\\' {
        OpenRegexEnds(pre, i + 2, inClass, q, post);
      } else if c == '[' || c == ']' {
        OpenRegexEnds(pre, i + 1, c == '[', q, post);
      } else {
        OpenRegexEnds(pre, i + 1, inClass, q, post);
      }
    }
  }

  lemma {:induction false} StripExtends(text: string, i: nat, before: string, hash: bool)
    ensures before <= Strip(text, i, before, hash)
    decreases |text| - i
  {
    if i < |text| {
      var (e, c) := Token(text, i, before, hash);
      StripExtends(text, e, before + [c], hash);
      assert before <= before + [c];
    }
  }

  lemma {:induction false} SmallLiterals(q: char)
    requires IsQuote(q)
    ensures Terminated("", q) && Terminated("]/", q)
  {
    assert QuoteEnd("" + [q], 0, q) == Some(1);
    var body := "]/" + [q];
    assert QuoteEnd(body, 2, q) == Some(3) && QuoteEnd(body, 1, q) == Some(3) && QuoteEnd(body, 0, q) == Some(3);
  }

  /** If the scan meets a slash before the literal that may start a regex and finds no end of it there, then what
      is left of the text does depend on what the literal contains. */
  lemma {:induction false} ContentsMatter(pre: string, q: char, hash: bool)
    requires IsQuote(q) && Scan(pre, 0, "", hash).OpenRegex?
    ensures Terminated("", q) && Terminated("]/", q)
    ensures Strip(pre + Literal("", q) + "\n", 0, "", hash) != Strip(pre + Literal("]/", q) + "\n", 0, "", hash)
  {
    SmallLiterals(q);
    var j, b := Scan(pre, 0, "", hash).at, Scan(pre, 0, "", hash).before;
    OpenAtSlash(pre, 0, "", hash);
    var r, r' := [q, q, '\n'], [q, ']', '/'] + ([q] + "\n");
    var text, text' := pre + Literal("", q) + "\n", pre + Literal("]/", q) + "\n";
    assert text == pre + r && text == pre + r + "" && text' == pre + r' && text' == pre + [q, ']', '/'] + ([q] + "\n");
    ScanPasses(pre, r, 0, "", hash);
    ScanPasses(pre, r', 0, "", hash);
    OpenRegexEnds(pre, j + 1, false, q, "");
    OpenRegexEnds(pre, j + 1, false, q, [q] + "\n");
    SlashStays(text, j, b, hash);
    SlashGoes(text', j, b, hash);
  }

  /** The slash at which the scan is left open. */
  lemma {:induction false} OpenAtSlash(pre: string, i: nat, before: string, hash: bool)
    requires Scan(pre, i, before, hash).OpenRegex?
    ensures WaitsAt(pre, Scan(pre, i, before, hash).at, Scan(pre, i, before, hash).before)
    decreases |pre| - i
  {
    var c := pre[i];
    if IsQuote(c) {
      OpenAtSlash(pre, QuoteEnd(pre, i + 1, c).value, before + [' '], hash);
    } else if (c == '/' && i + 1 < |pre| && pre[i+1] == '/') || (c == '#' && hash) {
      OpenAtSlash(pre, LineEnd(pre, i), before + [' '], hash);
    } else if c == '/' && i + 1 < |pre| && pre[i+1] == '*' {
      OpenAtSlash(pre, CommentEnd(pre, i + 2).value, before + [' '], hash);
    } else if c == '/' && MayStartRegex(before) {
      match RegexEnd(pre, i + 1, false)
      case Found(e) => OpenAtSlash(pre, e, before + [' '], hash);
      case NoRegex => OpenAtSlash(pre, i + 1, before + [c], hash);
      case CutOff =>
    } else {
      OpenAtSlash(pre, i + 1, before + [c], hash);
    }
  }

  ghost predicate WaitsAt(pre: string, at: nat, before: string) {
    && at < |pre| && pre[at] == '/' && MayStartRegex(before) && RegexEnd(pre, at + 1, false).CutOff?
    && (at + 1 < |pre| ==> pre[at+1] != '/' && pre[at+1] != '*')
  }

  ghost predicate SlashAt(text: string, j: nat) {
    j + 1 < |text| && text[j] == '/' && text[j+1] != '/' && text[j+1] != '*'
  }

  lemma {:induction false} SlashStays(text: string, j: nat, b: string, hash: bool)
    requires SlashAt(text, j) && RegexEnd(text, j + 1, false).NoRegex?
    ensures var left := Strip(text, j, b, hash); |left| > |b| && left[|b|] == '/'
  {
    StripExtends(text, j + 1, b + ['/'], hash);
    assert (b + ['/'])[|b|] == '/';
  }

  lemma {:induction false} SlashGoes(text: string, j: nat, b: string, hash: bool)
    requires SlashAt(text, j) && RegexEnd(text, j + 1, false).Found? && MayStartRegex(b)
    ensures var left := Strip(text, j, b, hash); |left| > |b| && left[|b|] == ' '
  {
    StripExtends(text, RegexEnd(text, j + 1, false).end, b + [' '], hash);
    assert (b + [' '])[|b|] == ' ';
  }

  /** Exactly then: before a literal the scan has finished with everything, or it waits at a slash, or the quote is
      no start of a literal for it. In the first case no contents matter, in the second some do. */
  lemma {:induction false} WhenContentsMatter(pre: string, q: char, hash: bool)
    requires IsQuote(q) && !Scan(pre, 0, "", hash).Inside?
    ensures Scan(pre, 0, "", hash).Between? <==>
              forall body, body', post ::
                  Terminated(body, q) && Terminated(body', q) ==> SameLeft(pre, body, body', q, post, hash)
  {
    if Scan(pre, 0, "", hash).Between? {
      forall body, body', post | Terminated(body, q) && Terminated(body', q)
        ensures SameLeft(pre, body, body', q, post, hash)
      {
        LiteralLeavesBlank(pre, body, q, post, hash);
        LiteralLeavesBlank(pre, body', q, post, hash);
      }
    } else {
      ContentsMatter(pre, q, hash);
      assert !SameLeft(pre, "", "]/", q, "\n", hash);
    }
  }

  ghost predicate SameLeft(pre: string, body: string, body': string, q: char, post: string, hash: bool) {
    Strip(pre + Literal(body, q) + post, 0, "", hash) == Strip(pre + Literal(body', q) + post, 0, "", hash)
  }

  // ---- When the verdict itself depends on the contents ----

  lemma {:induction false} BracketsConcat(a: string, b: string)
    ensures BracketsOf(a + b) == BracketsOf(a) + BracketsOf(b)
  {
    if a == "" {
      assert a + b == b;
    } else {
      assert (a + b)[1..] == a[1..] + b;
      BracketsConcat(a[1..], b);
    }
  }

  lemma {:induction false} MachineConcat(stack: string, a: string, b: string)
    ensures Machine(stack, a).None? ==> Machine(stack, a + b).None?
    ensures Machine(stack, a).Some? ==> Machine(stack, a + b) == Machine(Machine(stack, a).value, b)
    decreases |a|
  {
    if a == "" {
      assert a + b == b;
    } else {
      assert (a + b)[1..] == a[1..] + b;
      if IsOpen(a[0]) {
        MachineConcat(stack + [a[0]], a[1..], b);
      } else if stack != "" && Closing(stack[|stack|-1]) == a[0] {
        MachineConcat(stack[..|stack|-1], a[1..], b);
      }
    }
  }

  /** What closes everything on the stack. */
  function Closers(stack: string): (s: string)
    ensures forall k :: 0 <= k < |s| ==> IsClose(s[k])
  {
    if stack == "" then "" else [Closing(stack[|stack|-1])] + Closers(stack[..|stack|-1])
  }

  lemma {:induction false} ClosersClose(stack: string)
    ensures Machine(stack, Closers(stack)) == Some("")
  {
    if stack != "" {
      ClosersClose(stack[..|stack|-1]);
      assert Closers(stack)[1..] == Closers(stack[..|stack|-1]);
    }
  }

  lemma {:induction false} AllBrackets(s: string)
    requires forall k :: 0 <= k < |s| ==> IsClose(s[k])
    ensures BracketsOf(s) == s
  {
    if s != "" {
      AllBrackets(s[1..]);
    }
  }

  /** Closing brackets and then a quote that nothing ends. */
  lemma {:induction false} PlainThenQuote(text: string, i: nat, x: string, q: char, before: string, hash: bool)
    requires IsQuote(q) && i <= |text| && text[i..] == x + [q] && forall k :: 0 <= k < |x| ==> IsClose(x[k])
    ensures Strip(text, i, before, hash) == before + x + [' ']
    decreases |x|
  {
    if x == "" {
      assert text[i..][0] == q && |text[i..]| == 1;
      assert QuoteEnd(text, i + 1, q).None? && Token(text, i, before, hash) == (|text|, ' ');
      assert before + x == before;
    } else {
      assert text[i] == text[i..][0] == x[0];
      assert text[i+1..] == text[i..][1..] == x[1..] + [q];
      PlainThenQuote(text, i + 1, x[1..], q, before + [x[0]], hash);
      assert before + [x[0]] + x[1..] == before + x;
    }
  }

  lemma {:induction false} SlashTakes(pre: string, tail: string, q: char, j: nat, b: string, hash: bool)
    requires IsQuote(q) && WaitsAt(pre, j, b)
    ensures Token(pre + [q, ']', '/'] + tail, j, b, hash) == (|pre| + 3, ' ')
  {
    OpenRegexEnds(pre, j + 1, false, q, tail);
  }

  /** From the waiting slash on, when the regex is closed and some brackets follow. */
  lemma {:induction false} StripFromSlash(pre: string, x: string, q: char, j: nat, b: string, hash: bool)
    requires IsQuote(q) && WaitsAt(pre, j, b) && forall k :: 0 <= k < |x| ==> IsClose(x[k])
    ensures Strip(pre + [q, ']', '/'] + (x + [q]), j, b, hash) == b + [' '] + x + [' ']
  {
    var text := pre + [q, ']', '/'] + (x + [q]);
    SlashTakes(pre, x + [q], q, j, b, hash);
    assert text[|pre|+3..] == x + [q];
    PlainThenQuote(text, |pre| + 3, x, q, b + [' '], hash);
  }

  /** A literal whose contents close the waiting regex and then some brackets. */
  lemma {:induction false} RegexClosed(pre: string, x: string, q: char, hash: bool)
    requires IsQuote(q) && Scan(pre, 0, "", hash).OpenRegex? && forall k :: 0 <= k < |x| ==> IsClose(x[k])
    ensures Terminated("]/" + x, q)
    ensures Strip(pre + Literal("]/" + x, q) + "", 0, "", hash) == Scan(pre, 0, "", hash).before + [' '] + x + [' ']
  {
    var j, b := Scan(pre, 0, "", hash).at, Scan(pre, 0, "", hash).before;
    var lit := Literal("]/" + x, q);
    NoQuoteInside("]/" + x, q, 0);
    OpenAtSlash(pre, 0, "", hash);
    ScanPasses(pre, lit, 0, "", hash);
    StripFromSlash(pre, x, q, j, b, hash);
    LiteralSpelled(pre, x, q);
  }

  lemma {:induction false} LiteralSpelled(pre: string, x: string, q: char)
    ensures pre + Literal("]/" + x, q) == pre + [q, ']', '/'] + (x + [q])
    ensures pre + Literal("]/" + x, q) + "" == pre + Literal("]/" + x, q)
  {
  }

  lemma {:induction false} NoQuoteInside(body: string, q: char, i: nat)
    requires IsQuote(q) && i <= |body| && forall k :: i <= k < |body| ==> body[k] != q && body[k] != '\\'
    ensures QuoteEnd(body + [q], i, q) == Some(|body| + 1)
    decreases |body| - i
  {
    var text := body + [q];
    if i < |body| {
      assert text[i] == body[i];
      NoQuoteInside(body, q, i + 1);
    }
  }

  ghost predicate SameVerdict(pre: string, body: string, body': string, q: char, post: string, lang: string) {
    Balanced(pre + Literal(body, q) + post, lang) <==> Balanced(pre + Literal(body', q) + post, lang)
  }

  /** The brackets left before the place at which the scan stands have been refused already. */
  predicate Refused(before: string) {
    Machine("", BracketsOf(before)).None?
  }

  lemma {:induction false} RefusedStays(pre: string, rest: string, lang: string)
    requires rest != "" && IsQuote(rest[0]) && !Scan(pre, 0, "", HashComments(lang)).Inside?
    requires Refused(Scan(pre, 0, "", HashComments(lang)).before) && !IsShell(lang)
    ensures !Balanced(pre + rest, lang)
  {
    var hash := HashComments(lang);
    var text, s := pre + rest, Scan(pre, 0, "", hash);
    ScanPasses(pre, rest, 0, "", hash);
    var left := Strip(text, 0, "", hash);
    StripExtends(text, if s.Between? then |pre| else s.at, s.before, hash);
    assert left == s.before + left[|s.before|..];
    BracketsConcat(s.before, left[|s.before|..]);
    MachineConcat("", BracketsOf(s.before), BracketsOf(left[|s.before|..]));
    MachineAccepts(BracketsOf(left));
  }

  /** With the regex closed inside the literal, the brackets behind decide. */
  lemma {:induction false} VerdictBehindRegex(pre: string, x: string, q: char, lang: string)
    requires IsQuote(q) && Scan(pre, 0, "", HashComments(lang)).OpenRegex? && !IsShell(lang)
    requires forall k :: 0 <= k < |x| ==> IsClose(x[k])
    requires !Refused(Scan(pre, 0, "", HashComments(lang)).before)
    ensures var stack := Machine("", BracketsOf(Scan(pre, 0, "", HashComments(lang)).before)).value;
            Balanced(pre + Literal("]/" + x, q) + "", lang) <==> Machine(stack, x) == Some("")
  {
    var hash := HashComments(lang);
    var b := Scan(pre, 0, "", hash).before;
    RegexClosed(pre, x, q, hash);
    var left := b + [' '] + x + [' '];
    BracketsConcat(b + [' '] + x, [' ']);
    BracketsConcat(b + [' '], x);
    BracketsConcat(b, [' ']);
    AllBrackets(x);
    assert BracketsOf([' ']) == BracketsOf([' '][1..]) == "";
    assert BracketsOf(left) == BracketsOf(b) + x;
    MachineConcat("", BracketsOf(b), x);
    MachineAccepts(BracketsOf(left));
  }

  /** Exactly when the verdict on a text can depend on what a literal contains: not for shell, not if the scan has
      finished with all that stands before the literal, and not if the brackets before the waiting slash do not fit
      already; in every other case two literals in the same place get different verdicts. */
  lemma {:induction false} WhenVerdictDepends(pre: string, q: char, lang: string)
    requires IsQuote(q) && !Scan(pre, 0, "", HashComments(lang)).Inside?
    ensures (forall body, body', post ::
              Terminated(body, q) && Terminated(body', q) ==> SameVerdict(pre, body, body', q, post, lang)) <==>
              var s := Scan(pre, 0, "", HashComments(lang)); IsShell(lang) || s.Between? || Refused(s.before)
  {
    var s := Scan(pre, 0, "", HashComments(lang));
    if IsShell(lang) || s.Between? || Refused(s.before) {
      forall body, body', post | Terminated(body, q) && Terminated(body', q)
        ensures SameVerdict(pre, body, body', q, post, lang)
      {
        if s.Between? {
          ContentsDoNotMatter(pre, body, body', q, post, lang);
        } else if !IsShell(lang) {
          assert pre + Literal(body, q) + post == pre + (Literal(body, q) + post);
          assert pre + Literal(body', q) + post == pre + (Literal(body', q) + post);
          RefusedStays(pre, Literal(body, q) + post, lang);
          RefusedStays(pre, Literal(body', q) + post, lang);
        }
      }
    } else {
      var stack := Machine("", BracketsOf(s.before)).value;
      var x, x' := Closers(stack), Closers(stack) + [')'];
      ClosersClose(stack);
      MachineConcat(stack, x, [')']);
      RegexClosed(pre, x, q, HashComments(lang));
      RegexClosed(pre, x', q, HashComments(lang));
      VerdictBehindRegex(pre, x, q, lang);
      VerdictBehindRegex(pre, x', q, lang);
      assert !SameVerdict(pre, "]/" + x, "]/" + x', q, "", lang);
    }
  }

  /** In the first text the slash stays a slash ... */
  lemma {:induction false} SlashLeft(a: string)
    requires a == ['=', '/', '"', '"']
    ensures Strip(a, 0, "", false) == "=/ "
  {
    assert RegexEnd(a, 4, false) == CutOff;
    assert RegexEnd(a, 3, false) == RegexEnd(a, 2, false) == CutOff;
    assert QuoteEnd(a, 3, '"') == Some(4);
    assert "" + ['='] == "=" && "=" + ['/'] == "=/" && "=/" + [' '] == "=/ ";
    assert Strip(a, 4, "=/ ", false) == "=/ ";
    assert Strip(a, 2, "=/", false) == "=/ ";
    assert Strip(a, 1, "=", false) == "=/ ";
  }

  /** ... in the second it takes the opening quote into a regex. */
  lemma {:induction false} SlashTaken(b: string)
    requires b == ['=', '/', '"', '/', '(', '"']
    ensures Strip(b, 0, "", false) == "= ( "
  {
    assert RegexEnd(b, 3, false) == Found(4);
    assert RegexEnd(b, 2, false) == Found(4);
    assert QuoteEnd(b, 6, '"') == None;
    assert "" + ['='] == "=" && "=" + [' '] == "= " && "= " + ['('] == "= (" && "= (" + [' '] == "= ( ";
    assert Trimmed("=") == "=" && MayStartRegex("=");
    assert Strip(b, 6, "= ( ", false) == "= ( ";
    assert Strip(b, 5, "= (", false) == "= ( ";
    assert Strip(b, 4, "= ", false) == "= ( ";
    assert Strip(b, 1, "=", false) == "= ( ";
  }

  /** The verdict itself flips: behind a slash, the first text passes the check and the second does not, though
      they differ only inside the quotes. */
  lemma {:induction false} VerdictFlips()
    ensures Balanced("=/" + Literal("", '"'), "js") && !Balanced("=/" + Literal("/(", '"'), "js")
  {
    var a, b := ['=', '/', '"', '"'], ['=', '/', '"', '/', '(', '"'];
    assert "=/" + Literal("", '"') == a && "=/" + Literal("/(", '"') == b;
    SlashLeft(a);
    SlashTaken(b);
    NoBrackets("=/ ");
    OneOpen();
    MachineAccepts("");
    MachineAccepts("(");
  }

  lemma {:induction false} NoBrackets(code: string)
    requires code == "=/ "
    ensures BracketsOf(code) == ""
  {
    assert code[1..] == "/ " && code[1..][1..] == " " && code[1..][1..][1..] == "";
    assert BracketsOf(" ") == BracketsOf("/ ") == "";
  }

  lemma {:induction false} OneOpen()
    ensures BracketsOf("= ( ") == "(" && Machine("", "(") != Some("")
  {
    assert "(" == ['('] && "" + ['('] == "(" && "("[1..] == "";
    assert Machine("", "(") == Machine("" + ['('], "");
    var code := "= ( ";
    assert code[1..] == " ( " && " ( "[1..] == "( " && "( "[1..] == " " && " "[1..] == "";
    assert BracketsOf(" ") == "";
    assert BracketsOf("( ") == "(";
  }
}

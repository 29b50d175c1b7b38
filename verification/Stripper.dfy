/** Stripping string, comment and regex literals in one scan (malong/write-edit.js: regexMayStart,
    scanRegexLiteral, stripLiteralsForBracket, checkBracketBalance). */
module Stripper {
  import opened Common
  import opened Brackets

  predicate IsQuote(c: char) {
    c == '"' || c == '\'' || c == '`'
  }

  // ---- Where a literal ends ----

  /** Behind the closing quote, searched from i on; a backslash hides the character behind it. */
  function QuoteEnd(text: string, i: nat, q: char): (r: Option<nat>)
    ensures r.Some? ==> i < r.value <= |text|
    decreases |text| - i
  {
    if i >= |text| then None
    else if text[i] == '\\' then QuoteEnd(text, i + 2, q)
    else if text[i] == q then Some(i + 1)
    else QuoteEnd(text, i + 1, q)
  }

  /** The next line feed, or the end. */
  function LineEnd(text: string, i: nat): (r: nat)
    requires i <= |text|
    ensures i <= r <= |text| && (i < |text| && text[i] != '\n' ==> i < r)
    decreases |text| - i
  {
    if i == |text| || text[i] == '\n' then i else LineEnd(text, i + 1)
  }

  /** Behind the next end of a block comment. */
  function CommentEnd(text: string, i: nat): (r: Option<nat>)
    ensures r.Some? ==> i < r.value <= |text|
    decreases |text| - i
  {
    if i + 1 >= |text| then None
    else if text[i] == '*' && text[i+1] == '/' then Some(i + 2)
    else CommentEnd(text, i + 1)
  }

  /** A regex literal ends behind a slash outside a class, cannot span lines, and may be cut off by the end. */
  datatype Regex = Found(end: nat) | NoRegex | CutOff

  function RegexEnd(text: string, i: nat, inClass: bool): (r: Regex)
    ensures r.Found? ==> i < r.end <= |text|
    decreases |text| - i
  {
    if i >= |text| then CutOff
    else if text[i] == '\n' then NoRegex
    else if text[i] == '\\' then RegexEnd(text, i + 2, inClass)
    else if text[i] == '[' then RegexEnd(text, i + 1, true)
    else if text[i] == ']' then RegexEnd(text, i + 1, false)
    else if text[i] == '/' && !inClass then Found(i + 1)
    else RegexEnd(text, i + 1, inClass)
  }

  // ---- What these places are ----

  /** How many backslashes stand right before place k, not before `start`. */
  ghost function Slashes(text: string, start: nat, k: nat): nat
    requires k <= |text|
  {
    if k > start && text[k-1] == '\\' then 1 + Slashes(text, start, k - 1) else 0
  }

  /** No backslash hides the character at place k: those before it hide each other. */
  ghost predicate Plain(text: string, start: nat, k: nat) {
    start <= k < |text| && Slashes(text, start, k) % 2 == 0
  }

  ghost predicate ClosesAt(text: string, start: nat, q: char, k: nat) {
    Plain(text, start, k) && text[k] == q
  }

  /** A quote ends at the first quote character that no backslash hides. */
  lemma {:induction false} QuoteEndMeaning(text: string, start: nat, q: char)
    requires q != '\\'
    ensures var r := QuoteEnd(text, start, q);
            && (r.Some? ==> 0 < r.value && ClosesAt(text, start, q, r.value - 1))
            && (forall k: nat :: (r.Some? ==> k < r.value - 1) ==> !ClosesAt(text, start, q, k))
  {
    QuoteEndFrom(text, start, q, start);
  }

  lemma {:induction false} QuoteEndFrom(text: string, start: nat, q: char, i: nat)
    requires q != '\\' && start <= i && (i < |text| ==> Slashes(text, start, i) % 2 == 0)
    ensures var r := QuoteEnd(text, i, q);
            && (r.Some? ==> i < r.value && ClosesAt(text, start, q, r.value - 1))
            && (forall k: nat :: i <= k && (r.Some? ==> k < r.value - 1) ==> !ClosesAt(text, start, q, k))
    decreases |text| - i
  {
    if i < |text| {
      if text[i] == '\\' {
        if i + 1 < |text| {
          assert Slashes(text, start, i + 1) == 1 + Slashes(text, start, i);
        }
        QuoteEndFrom(text, start, q, i + 2);
        var r := QuoteEnd(text, i + 2, q);
        forall k: nat | i <= k && (r.Some? ==> k < r.value - 1) ensures !ClosesAt(text, start, q, k) {
          assert k == i || k == i + 1 || k >= i + 2;
        }
      } else if text[i] == q {
        assert ClosesAt(text, start, q, i);
      } else {
        QuoteEndFrom(text, start, q, i + 1);
      }
    }
  }

  /** A line ends at its line feed, or with the text. */
  lemma {:induction false} LineEndMeaning(text: string, i: nat)
    requires i <= |text|
    ensures var r := LineEnd(text, i);
            && (r < |text| ==> text[r] == '\n') && forall k :: i <= k < r ==> text[k] != '\n'
    decreases |text| - i
  {
    if i < |text| && text[i] != '\n' {
      LineEndMeaning(text, i + 1);
    }
  }

  ghost predicate StarSlashAt(text: string, k: nat) {
    k + 1 < |text| && text[k] == '*' && text[k+1] == '/'
  }

  /** A block comment ends behind the first star with a slash. */
  lemma {:induction false} CommentEndMeaning(text: string, i: nat)
    ensures var r := CommentEnd(text, i);
            && (r.Some? ==> i + 2 <= r.value && StarSlashAt(text, r.value - 2))
            && (forall k: nat :: i <= k && (r.Some? ==> k < r.value - 2) ==> !StarSlashAt(text, k))
    decreases |text| - i
  {
    if i + 1 < |text| && !(text[i] == '*' && text[i+1] == '/') {
      CommentEndMeaning(text, i + 1);
    }
  }

  /** Place k lies in a class: of the square brackets before it that no backslash hides the last one opens. */
  ghost predicate InClass(text: string, start: nat, k: nat)
    requires k <= |text|
  {
    if k <= start then false
    else if Plain(text, start, k - 1) && (text[k-1] == '[' || text[k-1] == ']') then text[k-1] == '['
    else InClass(text, start, k - 1)
  }

  ghost predicate RegexClosesAt(text: string, start: nat, k: nat) {
    Plain(text, start, k) && text[k] == '/' && !InClass(text, start, k)
  }

  ghost predicate BreaksAt(text: string, start: nat, k: nat) {
    Plain(text, start, k) && text[k] == '\n'
  }

  ghost predicate StopsAt(text: string, start: nat, k: nat) {
    RegexClosesAt(text, start, k) || BreaksAt(text, start, k)
  }

  /** A regex ends behind the first slash that is neither hidden nor in a class. It is none if a line feed that is not
      hidden comes first, and cut off if neither comes. */
  lemma {:induction false} RegexEndMeaning(text: string, start: nat)
    ensures match RegexEnd(text, start, false)
            case Found(e) =>
                0 < e && RegexClosesAt(text, start, e - 1) && forall k: nat :: k < e - 1 ==> !StopsAt(text, start, k)
            case NoRegex => exists n: nat ::
                BreaksAt(text, start, n) && forall k: nat :: k < n ==> !StopsAt(text, start, k)
            case CutOff => forall k: nat :: !StopsAt(text, start, k)
  {
    RegexEndFrom(text, start, start, false);
  }

  lemma {:induction false} RegexEndFrom(text: string, start: nat, i: nat, inClass: bool)
    requires start <= i && (i < |text| ==> Slashes(text, start, i) % 2 == 0 && inClass == InClass(text, start, i))
    ensures match RegexEnd(text, i, inClass)
            case Found(e) => i < e && RegexClosesAt(text, start, e - 1) && NoStop(text, start, i, e - 1)
            case NoRegex => exists n: nat :: i <= n && BreaksAt(text, start, n) && NoStop(text, start, i, n)
            case CutOff => NoStop(text, start, i, |text|)
    decreases |text| - i
  {
    if i < |text| {
      var c := text[i];
      assert Plain(text, start, i);
      if c == '\n' {
        assert BreaksAt(text, start, i) && NoStop(text, start, i, i);
      } else if c == '\\' {
        if i + 1 < |text| {
          assert Slashes(text, start, i + 1) == 1 + Slashes(text, start, i);
          assert !Plain(text, start, i + 1);
          if i + 2 < |text| {
            assert InClass(text, start, i + 1) == inClass && InClass(text, start, i + 2) == InClass(text, start, i + 1);
          }
        }
        RegexEndFrom(text, start, i + 2, inClass);
      } else if c == '/' && !inClass {
        assert RegexClosesAt(text, start, i);
      } else {
        RegexEndFrom(text, start, i + 1, if c == '[' then true else if c == ']' then false else inClass);
      }
    }
  }

  ghost predicate NoStop(text: string, start: nat, i: nat, n: nat) {
    forall k: nat :: i <= k < n ==> !StopsAt(text, start, k)
  }

  // ---- Whether a slash may start a regex ----

  predicate IsBlank(c: char) {
    c == ' ' || c == '\n' || c == '\t' || c == '\r'
  }

  predicate IsIdChar(c: char) {
    'a' <= c <= 'z' || 'A' <= c <= 'Z' || '0' <= c <= '9' || c == '_' || c == '$'
  }

  predicate AllowsRegex(c: char) {
    c in "(,=:[!&|?{};+-*%<>^~"
  }

  predicate IsRegexKeyword(word: string) {
    word in ["return", "typeof", "case", "in", "of", "new", "delete", "void", "instanceof", "do", "else", "yield",
        "await", "throw"]
  }

  /** The text without blanks at its end, and the word at the end of a text. */
  function Trimmed(text: string): string {
    if text != "" && IsBlank(text[|text|-1]) then Trimmed(text[..|text|-1]) else text
  }

  function LastWord(text: string): string {
    if text != "" && IsIdChar(text[|text|-1]) then LastWord(text[..|text|-1]) + [text[|text|-1]] else ""
  }

  predicate MayStartRegex(before: string) {
    var t := Trimmed(before);
    t == "" || (if IsIdChar(t[|t|-1]) then IsRegexKeyword(LastWord(t)) else AllowsRegex(t[|t|-1]))
  }

  // ---- One scan ----

  /** The token at i: where it ends, and the character that is left of it. */
  function Token(text: string, i: nat, before: string, hash: bool): (r: (nat, char))
    requires i < |text|
    ensures i < r.0 <= |text|
  {
    var c := text[i];
    if IsQuote(c) then (var e := QuoteEnd(text, i + 1, c); if e.Some? then e.value else |text|, ' ')
    else if c == '/' && i + 1 < |text| && text[i+1] == '/' then (LineEnd(text, i), ' ')
    else if c == '/' && i + 1 < |text| &&
        text[i+1] == '*' then (var e := CommentEnd(text, i + 2); if e.Some? then e.value else |text|, ' ')
    else if c == '#' && hash then (LineEnd(text, i), ' ')
    else if c == '/' && MayStartRegex(before) && RegexEnd(text, i + 1, false).Found? then
        (RegexEnd(text, i + 1, false).end, ' ')
    else (i + 1, c)
  }

  /** What is left of the text from i on, behind what was left of the text before i. */
  function Strip(text: string, i: nat, before: string, hash: bool): string
    decreases |text| - i
  {
    if i >= |text| then before
    else
      var (e, c) := Token(text, i, before, hash);
      Strip(text, e, before + [c], hash)
  }

  // ---- What a slash and a token mean ----

  ghost predicate White(c: char) {
    c in " \n\t\r"
  }

  ghost predicate InWord(c: char) {
    c == '_' || c == '$' || '0' <= c <= '9' || 'A' <= c <= 'Z' || 'a' <= c <= 'z'
  }

  /** Place k holds the last character that is not white space. */
  ghost predicate LastInk(s: string, k: int) {
    0 <= k < |s| && !White(s[k]) && forall j :: k < j < |s| ==> White(s[j])
  }

  /** The word that ends at place k. */
  ghost predicate WordBefore(s: string, k: int, w: string) {
    && 0 <= k < |s| && |w| <= k + 1
    && var a := k + 1 - |w|; w == s[a..k+1] && (forall c :: c in w ==> InWord(c)) && (a > 0 ==> !InWord(s[a-1]))
  }

  ghost predicate BeforeExpression(word: string) {
    || word == "return" || word == "typeof" || word == "case" || word == "in" || word == "of" || word == "new"
    || word == "delete" || word == "void" || word == "instanceof" || word == "do" || word == "else" || word == "yield"
    || word == "await" || word == "throw"
  }

  lemma {:induction false} KeywordMeaning(word: string)
    ensures IsRegexKeyword(word) <==> BeforeExpression(word)
  {
  }

  /** Behind place k a slash starts a regex: a word stands there that is followed by an expression, or a sign that
      is. */
  ghost predicate ExpressionFollows(s: string, k: int)
    requires 0 <= k < |s|
  {
    if InWord(s[k]) then
      exists w :: WordBefore(s, k, w) && BeforeExpression(w)
    else s[k] in "(,=:[!&|?{};+-*%<>^~"
  }

  lemma {:induction false} TrimmedMeaning(s: string)
    ensures Trimmed(s) <= s && forall j :: |Trimmed(s)| <= j < |s| ==> White(s[j])
    ensures Trimmed(s) != "" ==> LastInk(s, |Trimmed(s)| - 1)
  {
    if s != "" && IsBlank(s[|s|-1]) {
      TrimmedMeaning(s[..|s|-1]);
    }
  }

  /** The last word begins behind the last character that is in no word. */
  lemma {:induction false} LastWordMeaning(t: string)
    ensures var a := |t| - |LastWord(t)|;
            && a >= 0 && LastWord(t) == t[a..] && (a > 0 ==> !InWord(t[a-1]))
            && forall j :: a <= j < |t| ==> InWord(t[j])
  {
    if t != "" && InWord(t[|t|-1]) {
      var front := t[..|t|-1];
      LastWordMeaning(front);
      var a := |front| - |LastWord(front)|;
      assert LastWord(t) == front[a..] + [t[|t|-1]] == t[a..];
    }
  }

  lemma {:induction false} OneWordBefore(s: string, k: nat, w: string)
    requires k < |s|
    ensures WordBefore(s, k, w) <==> w == LastWord(s[..k+1])
  {
    var t := s[..k+1];
    LastWordMeaning(t);
    if WordBefore(s, k, w) {
      var a, b := k + 1 - |w|, k + 1 - |LastWord(t)|;
      assert forall j :: a <= j <= k ==> w[j-a] == s[j] == t[j];
      assert a == b;
    }
  }

  lemma {:induction false} FollowsMeaning(s: string, k: nat)
    requires k < |s|
    ensures ExpressionFollows(s, k) <==> if IsIdChar(s[k]) then IsRegexKeyword(LastWord(s[..k+1]))
              else AllowsRegex(s[k])
  {
    var word := LastWord(s[..k+1]);
    KeywordMeaning(word);
    forall w ensures WordBefore(s, k, w) <==> w == word {
      OneWordBefore(s, k, w);
    }
  }

  /** A slash may start a regex exactly if nothing but white space stands before it, or if an expression follows what
      stands there. */
  lemma {:induction false} MayStartMeaning(before: string)
    ensures MayStartRegex(before) <==> forall k :: LastInk(before, k) ==> ExpressionFollows(before, k)
  {
    TrimmedMeaning(before);
    var n := |Trimmed(before)|;
    assert Trimmed(before) == before[..n];
    if n > 0 {
      FollowsMeaning(before, n - 1);
      assert forall k :: LastInk(before, k) ==> k == n - 1;
    }
  }

  /** From the quote before place `start` to the end of the string, or of the text. */
  ghost predicate ReadsQuote(text: string, start: nat, q: char, e: nat) {
    if exists k: nat :: ClosesAt(text, start, q, k)
    then 0 < e && ClosesAt(text, start, q, e - 1) && forall k: nat :: k < e - 1 ==> !ClosesAt(text, start, q, k)
    else e == |text|
  }

  ghost predicate ReadsLine(text: string, i: nat, e: nat) {
    i <= e <= |text| && (e < |text| ==> text[e] == '\n') && forall k :: i <= k < e ==> text[k] != '\n'
  }

  ghost predicate ReadsComment(text: string, start: nat, e: nat) {
    if exists k: nat :: start <= k && StarSlashAt(text, k)
    then start + 2 <= e && StarSlashAt(text, e - 2) && forall k: nat :: start <= k < e - 2 ==> !StarSlashAt(text, k)
    else e == |text|
  }

  ghost predicate ReadsRegex(text: string, start: nat, e: nat) {
    0 < e && RegexClosesAt(text, start, e - 1) && forall k: nat :: k < e - 1 ==> !StopsAt(text, start, k)
  }

  ghost predicate RegexFollows(text: string, start: nat) {
    exists e: nat :: ReadsRegex(text, start, e)
  }

  lemma {:induction false} QuoteIsRead(text: string, start: nat, q: char)
    requires q != '\\'
    ensures ReadsQuote(text, start, q, var e := QuoteEnd(text, start, q); if e.Some? then e.value else |text|)
  {
    QuoteEndMeaning(text, start, q);
  }

  lemma {:induction false} CommentIsRead(text: string, start: nat)
    ensures ReadsComment(text, start, var e := CommentEnd(text, start); if e.Some? then e.value else |text|)
  {
    CommentEndMeaning(text, start);
  }

  lemma {:induction false} RegexIsRead(text: string, start: nat)
    ensures RegexFollows(text, start) <==> RegexEnd(text, start, false).Found?
    ensures RegexFollows(text, start) ==> ReadsRegex(text, start, RegexEnd(text, start, false).end)
  {
    RegexEndMeaning(text, start);
    match RegexEnd(text, start, false)
    case Found(e) => assert ReadsRegex(text, start, e);
    case NoRegex =>
      var n: nat :| BreaksAt(text, start, n) && forall k: nat :: k < n ==> !StopsAt(text, start, k);
      forall e: nat ensures !ReadsRegex(text, start, e) {
        assert StopsAt(text, start, n);
        assert ReadsRegex(text, start, e) ==> StopsAt(text, start, e - 1) && e - 1 == n;
      }
    case CutOff =>
      forall e: nat ensures !ReadsRegex(text, start, e) {
        assert ReadsRegex(text, start, e) ==> StopsAt(text, start, e - 1);
      }
  }

  /** What the scan takes off at place i: a string, a line comment, a block comment or a regex, of each of which a
      blank is left, or else a single character, which stays. */
  lemma {:induction false} TokenMeaning(text: string, i: nat, before: string, hash: bool)
    requires i < |text|
    ensures var (e, left) := Token(text, i, before, hash);
            var next := if i + 1 < |text| then text[i+1] else ' ';
            if text[i] in "\"'`" then left == ' ' && ReadsQuote(text, i + 1, text[i], e)
            else if (text[i] == '/' && next == '/') || (text[i] == '#' && hash) then
                left == ' ' && ReadsLine(text, i, e)
            else if text[i] == '/' && next == '*' then left == ' ' && ReadsComment(text, i + 2, e)
            else if text[i] == '/' && MayStartRegex(before) && RegexFollows(text, i + 1)
            then left == ' ' && ReadsRegex(text, i + 1, e)
            else e == i + 1 && left == text[i]
  {
    if IsQuote(text[i]) {
      QuoteIsRead(text, i + 1, text[i]);
    } else {
      LineEndMeaning(text, i);
      CommentIsRead(text, i + 2);
      RegexIsRead(text, i + 1);
    }
  }

  // ---- The loops ----

  method SkipQuoted(text: string, start: nat, q: char) returns (i: nat)
    requires start <= |text|
    ensures i >= start
    ensures match QuoteEnd(text, start, q) case Some(e) => i == e case None => i >= |text|
  {
    i := start;
    while i < |text|
      invariant i >= start && QuoteEnd(text, start, q) == QuoteEnd(text, i, q)
      decreases |text| - i
    {
      if text[i] == '\\' {
        i := i + 2;
        continue;
      }
      if text[i] == q {
        return i + 1;
      }
      i := i + 1;
    }
  }

  method SkipLine(text: string, start: nat) returns (i: nat)
    requires start <= |text|
    ensures i == LineEnd(text, start)
  {
    i := start;
    while i < |text| && text[i] != '\n'
      invariant i <= |text| && LineEnd(text, start) == LineEnd(text, i)
    {
      i := i + 1;
    }
  }

  method SkipComment(text: string, start: nat) returns (i: nat)
    requires start <= |text|
    ensures i == (match CommentEnd(text, start) case Some(e) => e case None => |text|)
  {
    i := start;
    while i < |text| && !(text[i] == '*' && i + 1 < |text| && text[i+1] == '/')
      invariant i <= |text| && CommentEnd(text, start) == CommentEnd(text, i)
    {
      i := i + 1;
    }
    i := if i + 2 < |text| then i + 2 else |text|;
  }

  method ScanRegexLiteral(text: string, start: nat) returns (end: int)
    requires start < |text|
    ensures match RegexEnd(text, start + 1, false) case Found(e) => end == e case _ => end == -1
  {
    var i, inClass := start + 1, false;
    while i < |text|
      invariant RegexEnd(text, start + 1, false) == RegexEnd(text, i, inClass)
      decreases |text| - i
    {
      var ch := text[i];
      if ch == '\n' {
        return -1;
      }
      if ch == '\\' {
        i := i + 2;
        continue;
      }
      if ch == '[' {
        inClass := true;
      } else if ch == ']' {
        inClass := false;
      } else if ch == '/' && !inClass {
        return i + 1;
      }
      i := i + 1;
    }
    end := -1;
  }

  method RegexMayStart(before: string) returns (may: bool)
    ensures may == MayStartRegex(before)
  {
    var j := |before|;
    assert before[..j] == before;
    while j > 0 && IsBlank(before[j-1])
      invariant 0 <= j <= |before| && Trimmed(before) == Trimmed(before[..j])
    {
      assert before[..j][..j-1] == before[..j-1];
      j := j - 1;
    }
    ghost var t := before[..j];
    assert Trimmed(t) == t;
    if j == 0 {
      return true;
    }
    if IsIdChar(before[j-1]) {
      var k := WordStart(before, j);
      return IsRegexKeyword(before[k..j]);
    }
    may := AllowsRegex(before[j-1]);
  }

  /** Where the word before place j starts. */
  method WordStart(before: string, j: nat) returns (k: nat)
    requires j <= |before|
    ensures k <= j && before[k..j] == LastWord(before[..j])
  {
    k := j;
    while k > 0 && IsIdChar(before[k-1])
      invariant 0 <= k <= j && LastWord(before[..j]) == LastWord(before[..k]) + before[k..j]
    {
      assert before[..k][..k-1] == before[..k-1];
      assert before[k-1..j] == [before[k-1]] + before[k..j];
      k := k - 1;
    }
    assert LastWord(before[..k]) == "";
  }

  /** stripLiteralsForBracket */
  method StripLiterals(text: string, hash: bool) returns (before: string)
    ensures before == Strip(text, 0, "", hash)
  {
    before := "";
    var i := 0;
    while i < |text|
      invariant Strip(text, 0, "", hash) == Strip(text, i, before, hash)
      decreases |text| - i
    {
      var end, left := NextToken(text, i, before, hash);
      before := before + [left];
      i := end;
    }
  }

  /** One turn of the scan. */
  method NextToken(text: string, i: nat, before: string, hash: bool) returns (end: nat, left: char)
    requires i < |text|
    ensures left == Token(text, i, before, hash).1
    ensures end == Token(text, i, before, hash).0 || (end >= |text| && Token(text, i, before, hash).0 == |text|)
  {
    var c := text[i];
    left := ' ';
    if IsQuote(c) {
      end := SkipQuoted(text, i + 1, c);
      return;
    }
    if c == '/' && i + 1 < |text| && text[i+1] == '/' {
      end := SkipLine(text, i);
      return;
    }
    if c == '/' && i + 1 < |text| && text[i+1] == '*' {
      end := SkipComment(text, i + 2);
      return;
    }
    if c == '#' && hash {
      end := SkipLine(text, i);
      return;
    }
    if c == '/' {
      var may := RegexMayStart(before);
      if may {
        var e := ScanRegexLiteral(text, i);
        if e != -1 {
          end := e;
          return;
        }
      }
    }
    end, left := i + 1, c;
  }

  /** Whether '#' starts a comment in a language, and whether the check applies to it at all. */
  predicate HashComments(lang: string) {
    lang == "py" || lang == "rb"
  }

  predicate IsShell(lang: string) {
    lang == "bash"
  }

  /** The check in one line: for every language but shell, the brackets that are left are well nested. */
  ghost predicate Balanced(text: string, lang: string) {
    lang == "bash" || WellNested(BracketsOf(Strip(text, 0, "", lang == "py" || lang == "rb")))
  }

  /** checkBracketBalance */
  method CheckBracketBalance(text: string, lang: string) returns (ok: bool)
    ensures ok <==> Balanced(text, lang)
  {
    if IsShell(lang) {
      return true;
    }
    var code := StripLiterals(text, HashComments(lang));
    MachineAccepts(BracketsOf(code));
    var stack := "";
    for i := 0 to |code|
      invariant Machine("", BracketsOf(code)) == Machine(stack, BracketsOf(code[i..]))
    {
      var ch := code[i];
      assert code[i..][1..] == code[i+1..];
      BracketStep(ch, code[i+1..], stack);
      if IsOpen(ch) {
        stack := stack + [ch];
      } else if IsClose(ch) {
        if stack == "" || Closing(stack[|stack|-1]) != ch {
          return false;
        }
        stack := stack[..|stack|-1];
      }
    }
    assert code[|code|..] == "";
    ok := stack == "";
  }

  lemma {:induction false} BracketStep(ch: char, rest: string, stack: string)
    ensures BracketsOf([ch] + rest) == (if IsOpen(ch) || IsClose(ch) then [ch] else "") + BracketsOf(rest)
    ensures IsOpen(ch) ==> Machine(stack, [ch] + BracketsOf(rest)) == Machine(stack + [ch], BracketsOf(rest))
    ensures var fits := stack != "" && Closing(stack[|stack|-1]) == ch;
            IsClose(ch) ==> Machine(stack, [ch] + BracketsOf(rest)) == if fits then
                Machine(stack[..|stack|-1], BracketsOf(rest)) else None
  {
    assert ([ch] + rest)[1..] == rest;
    assert ([ch] + BracketsOf(rest))[1..] == BracketsOf(rest);
  }
}

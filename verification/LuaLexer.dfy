/**
 packages/github-ratchet-migration-slicer/tools/check_repo_lua.py: the spans of Lua comments and
 string literals. The specification functions take line numbers from the whole prefix of the text;
 `Lex` maintains them incrementally.
 */
module LuaLexer {
  import opened Collections
  import opened Results
  import opened Strings

  datatype Kind = ShortString | LongString | LineComment | LongComment

  /** `recognize_long_brackets` and `recognize_comments`. */
  datatype Mode = Mode(longBrackets: bool, comments: bool)

  datatype Token = Token(
    kind: Kind,
    start: nat,
    end: nat,
    bodyStart: nat,
    bodyEnd: nat,
    terminated: bool,
    level: Option<nat>)

  datatype Span = Span(token: Token, line: nat, bodyLine: nat, endLine: nat)

  // ----- Counting lines

  /** `text.count("\n", i, j)` */
  function Newlines(t: string, i: nat, j: nat): nat
    requires j <= |t|
    decreases j - i
  {
    if j <= i then 0 else Newlines(t, i, j - 1) + (if t[j - 1] == '\n' then 1 else 0)
  }

  function Max(a: nat, b: int): nat {
    if b <= a then a else b
  }

  /** `_line_number` */
  function LineNumber(t: string, index: nat): nat {
    Newlines(t, 0, Min(index, |t|)) + 1
  }

  /** `_span` with line metadata. */
  function WithLines(t: string, token: Token): Span {
    var last := if token.end <= token.start then token.start else token.end - 1;
    Span(token, LineNumber(t, token.start), LineNumber(t, token.bodyStart), LineNumber(t, last))
  }

  // ----- Long brackets

  function SkipEquals(t: string, i: nat): (k: nat)
    requires i <= |t|
    ensures i <= k <= |t| && (k < |t| ==> t[k] != '=')
    ensures forall j :: i <= j < k ==> t[j] == '='
    decreases |t| - i
  {
    if i < |t| && t[i] == '=' then SkipEquals(t, i + 1) else i
  }

  /** The level of the long-bracket opener `[=*[` at `start`, if there is one. */
  function OpenerLevel(t: string, start: nat): (r: Option<nat>)
    ensures r.Some? ==> start + r.value + 2 <= |t|
  {
    if start >= |t| || t[start] != '[' then None
    else
      var k := SkipEquals(t, start + 1);
      if k >= |t| || t[k] != '[' then None else Some(k - start - 1)
  }

  function Equals(n: nat): (s: string)
    ensures |s| == n && forall i :: 0 <= i < n ==> s[i] == '='
  {
    if n == 0 then "" else Equals(n - 1) + "="
  }

  function Closer(level: nat): (s: string)
    ensures |s| == level + 2
  {
    "]" + Equals(level) + "]"
  }

  /** `text.find(pattern, from)` */
  function Find(t: string, pattern: string, from: nat): (r: Option<nat>)
    ensures r.Some? ==> from <= r.value && OccursAt(t, pattern, r.value)
    ensures r.Some? ==> forall i :: from <= i < r.value ==> !OccursAt(t, pattern, i)
    ensures r.None? ==> forall i :: from <= i ==> !OccursAt(t, pattern, i)
    decreases |t| - from
  {
    if from > |t| then None
    else if OccursAt(t, pattern, from) then Some(from)
    else if from == |t| then None
    else Find(t, pattern, from + 1)
  }

  function LongBracket(t: string, start: nat, kind: Kind): (r: Option<Token>)
    ensures r.Some? ==> r.value.start == start && start + 2 <= r.value.bodyStart <= r.value.bodyEnd <= r.value.end <= |t|
  {
    match OpenerLevel(t, start)
    case None => None
    case Some(level) =>
      var bodyStart := start + level + 2;
      match Find(t, Closer(level), bodyStart)
      case None => Some(Token(kind, start, |t|, bodyStart, |t|, false, Some(level)))
      case Some(close) => Some(Token(kind, start, close + level + 2, bodyStart, close, true, Some(level)))
  }

  // ----- Short strings

  /** Where the scan of a short string that is open at `i` stops, and whether it found the quote. */
  function ScanShort(t: string, quote: char, i: nat): (r: (nat, bool))
    requires i <= |t|
    ensures i <= r.0 <= |t| && (r.1 ==> i < r.0) && (!r.1 ==> r.0 == |t|)
    decreases |t| - i
  {
    if i == |t| then (i, false)
    else if t[i] == '\\' then ScanShort(t, quote, Min(i + 2, |t|))
    else if t[i] == quote then (i + 1, true)
    else ScanShort(t, quote, i + 1)
  }

  predicate IsQuote(c: char) {
    c == '\'' || c == '"'
  }

  function ShortStringAt(t: string, start: nat): (r: Option<Token>)
    ensures r.Some? ==> r.value.start == start && start < r.value.bodyStart <= r.value.bodyEnd <= r.value.end <= |t|
  {
    if start >= |t| || !IsQuote(t[start]) then None
    else
      var (end, terminated) := ScanShort(t, t[start], start + 1);
      Some(Token(ShortString, start, end, start + 1, if terminated then end - 1 else |t|, terminated, None))
  }

  // ----- Comments

  predicate Dashes(t: string, start: nat) {
    start + 1 < |t| && t[start] == '-' && t[start + 1] == '-'
  }

  lemma NoNewlineInDashes(t: string, start: nat)
    requires Dashes(t, start)
    ensures !OccursAt(t, "\n", start) && !OccursAt(t, "\n", start + 1)
  {
    assert t[start..start + 1][0] == t[start] && t[start + 1..start + 2][0] == t[start + 1];
  }

  /** `comment_span_at` */
  function CommentAt(t: string, start: nat, longBrackets: bool): (r: Option<Token>)
    ensures r.Some? <==> Dashes(t, start)
    ensures r.Some? ==> r.value.start == start && start + 2 <= r.value.bodyStart <= r.value.bodyEnd <= r.value.end <= |t|
  {
    if !Dashes(t, start) then None
    else
      var long := if longBrackets then LongBracket(t, start + 2, LongComment) else None;
      match long
      case Some(token) => Some(token.(start := start))
      case None =>
        var end := match Find(t, "\n", start)
                   case None => |t|
                   case Some(newline) => newline;
        assert end >= start + 2 by { NoNewlineInDashes(t, start); }
        Some(Token(LineComment, start, end, start + 2, end, true, None))
  }

  // ----- The scan

  function TokenAt(t: string, cursor: nat, mode: Mode): (r: Option<Token>)
    requires cursor < |t|
    ensures r.Some? ==> r.value.start == cursor && cursor < r.value.bodyStart <= r.value.bodyEnd <= r.value.end <= |t|
  {
    if mode.comments && Dashes(t, cursor) then CommentAt(t, cursor, mode.longBrackets)
    else if IsQuote(t[cursor]) then ShortStringAt(t, cursor)
    else if mode.longBrackets && t[cursor] == '[' then LongBracket(t, cursor, LongString)
    else None
  }

  /** The tokens of the text from `cursor` on. */
  function Tokens(t: string, cursor: nat, mode: Mode): seq<Token>
    decreases |t| - cursor
  {
    if cursor >= |t| then []
    else
      match TokenAt(t, cursor, mode)
      case Some(token) => [token] + Tokens(t, token.end, mode)
      case None => Tokens(t, cursor + 1, mode)
  }

  function Spans(t: string, tokens: seq<Token>): seq<Span> {
    seq(|tokens|, i requires 0 <= i < |tokens| => WithLines(t, tokens[i]))
  }

  /** `lex` with whole-prefix line numbers. */
  function LexSpec(t: string, mode: Mode): seq<Span> {
    Spans(t, Tokens(t, 0, mode))
  }

  // ----- The loops of the source

  lemma {:induction false} NewlinesAdd(t: string, a: nat, b: nat, c: nat)
    requires a <= b <= c <= |t|
    ensures Newlines(t, a, c) == Newlines(t, a, b) + Newlines(t, b, c)
    decreases c
  {
    if b < c {
      NewlinesAdd(t, a, b, c - 1);
    }
  }

  /** The count is the number of newline positions in the range. */
  lemma {:induction false} NewlinesCount(t: string, i: nat, j: nat)
    requires j <= |t|
    ensures Newlines(t, i, j) == |set p | i <= p < j && t[p] == '\n'|
    decreases j
  {
    var all := set p | i <= p < j && t[p] == '\n';
    if j <= i {
      assert all == {};
    } else {
      var init := set p | i <= p < j - 1 && t[p] == '\n';
      NewlinesCount(t, i, j - 1);
      assert all == if t[j - 1] == '\n' then init + {j - 1} else init;
    }
  }

  /** The line of a position is one more than the newlines before it. */
  lemma LineNumberIs(t: string, index: nat)
    requires index <= |t|
    ensures LineNumber(t, index) == 1 + |set p | 0 <= p < index && t[p] == '\n'|
  {
    NewlinesCount(t, 0, index);
  }

  method LongBracketOpener(t: string, start: nat) returns (r: Option<nat>)
    ensures r == OpenerLevel(t, start)
  {
    if start >= |t| || t[start] != '[' {
      return None;
    }
    var cursor := start + 1;
    while cursor < |t| && t[cursor] == '='
      invariant start + 1 <= cursor <= |t|
      invariant SkipEquals(t, start + 1) == SkipEquals(t, cursor)
    {
      cursor := cursor + 1;
    }
    if cursor >= |t| || t[cursor] != '[' {
      return None;
    }
    return Some(cursor - start - 1);
  }

  method ShortStringSpan(t: string, start: nat) returns (r: Option<Token>)
    ensures r == ShortStringAt(t, start)
  {
    if start >= |t| || !IsQuote(t[start]) {
      return None;
    }
    var quote := t[start];
    var cursor := start + 1;
    var terminated := false;
    while cursor < |t|
      invariant start + 1 <= cursor <= |t|
      invariant !terminated && ScanShort(t, quote, start + 1) == ScanShort(t, quote, cursor)
    {
      if t[cursor] == '\\' {
        cursor := Min(cursor + 2, |t|);
        continue;
      }
      if t[cursor] == quote {
        cursor := cursor + 1;
        terminated := true;
        break;
      }
      cursor := cursor + 1;
    }
    return Some(Token(ShortString, start, cursor, start + 1, if terminated then cursor - 1 else |t|, terminated, None));
  }

  method LongBracketSpan(t: string, start: nat, kind: Kind) returns (r: Option<Token>)
    ensures r == LongBracket(t, start, kind)
  {
    var opener := LongBracketOpener(t, start);
    if opener.None? {
      return None;
    }
    var level := opener.value;
    var bodyStart := start + level + 2;
    match Find(t, Closer(level), bodyStart) {
      case None => return Some(Token(kind, start, |t|, bodyStart, |t|, false, Some(level)));
      case Some(close) => return Some(Token(kind, start, close + |Closer(level)|, bodyStart, close, true, Some(level)));
    }
  }

  /** The line metadata that `lex` derives from the current line. */
  lemma IncrementalLines(t: string, token: Token, line: nat)
    requires token.start <= token.bodyStart <= token.end <= |t| && token.start < token.end
    requires line == 1 + Newlines(t, 0, token.start)
    ensures WithLines(t, token) ==
      Span(token, line, line + Newlines(t, token.start, token.bodyStart), line + Newlines(t, token.start, token.end - 1))
    ensures line + Newlines(t, token.start, token.end) == 1 + Newlines(t, 0, token.end)
  {
    NewlinesAdd(t, 0, token.start, token.bodyStart);
    NewlinesAdd(t, 0, token.start, token.end - 1);
    NewlinesAdd(t, 0, token.start, token.end);
  }

  method Lex(t: string, mode: Mode) returns (spans: seq<Span>)
    ensures spans == LexSpec(t, mode)
  {
    hide Newlines, WithLines, ShortStringAt, LongBracket, CommentAt, Tokens, Spans, TokenAt;
    spans := [];
    ghost var tokens: seq<Token> := [];
    var cursor := 0;
    var currentLine := 1;
    LexStart(t, mode);
    while cursor < |t|
      invariant 0 <= cursor <= |t|
      invariant currentLine == 1 + Newlines(t, 0, cursor)
      invariant spans == Spans(t, tokens)
      invariant tokens + Tokens(t, cursor, mode) == Tokens(t, 0, mode)
      decreases |t| - cursor
    {
      var token: Option<Token> := None;
      if mode.comments && t[cursor] == '-' && cursor + 1 < |t| && t[cursor + 1] == '-' {
        token := CommentAt(t, cursor, mode.longBrackets);
      } else if IsQuote(t[cursor]) {
        token := ShortStringSpan(t, cursor);
      } else if mode.longBrackets && t[cursor] == '[' {
        token := LongBracketSpan(t, cursor, LongString);
      }
      TokenCases(t, cursor, mode);
      TokensStep(t, cursor, mode, tokens);
      if token.Some? {
        var k := token.value;
        IncrementalLines(t, k, currentLine);
        var span := Span(
          k,
          currentLine,
          currentLine + Newlines(t, k.start, k.bodyStart),
          currentLine + Newlines(t, k.start, Max(k.start, k.end - 1)));
        spans := spans + [span];
        SpansSnoc(t, tokens, k);
        tokens := tokens + [k];
        currentLine := currentLine + Newlines(t, k.start, k.end);
        cursor := k.end;
      } else {
        NextLine(t, cursor);
        if t[cursor] == '\n' {
          currentLine := currentLine + 1;
        }
        cursor := cursor + 1;
      }
    }
    TokensEnd(t, mode, tokens);
  }

  lemma LexStart(t: string, mode: Mode)
    ensures Newlines(t, 0, 0) == 0 && Spans(t, []) == [] && [] + Tokens(t, 0, mode) == Tokens(t, 0, mode)
  {
  }

  lemma TokensEnd(t: string, mode: Mode, tokens: seq<Token>)
    ensures tokens + Tokens(t, |t|, mode) == tokens
  {
  }

  lemma SpansSnoc(t: string, tokens: seq<Token>, token: Token)
    ensures Spans(t, tokens + [token]) == Spans(t, tokens) + [WithLines(t, token)]
  {
  }

  lemma TokensStep(t: string, cursor: nat, mode: Mode, tokens: seq<Token>)
    requires cursor < |t|
    ensures TokenAt(t, cursor, mode).Some? ==>
              tokens + Tokens(t, cursor, mode)
              == tokens + [TokenAt(t, cursor, mode).value] + Tokens(t, TokenAt(t, cursor, mode).value.end, mode)
    ensures TokenAt(t, cursor, mode).None? ==> Tokens(t, cursor, mode) == Tokens(t, cursor + 1, mode)
  {
  }

  /** The order in which the scan tries its alternatives. */
  lemma TokenCases(t: string, cursor: nat, mode: Mode)
    requires cursor < |t|
    ensures TokenAt(t, cursor, mode) ==
      if mode.comments && Dashes(t, cursor) then CommentAt(t, cursor, mode.longBrackets)
      else if IsQuote(t[cursor]) then ShortStringAt(t, cursor)
      else if mode.longBrackets && t[cursor] == '[' then LongBracket(t, cursor, LongString)
      else None
  {
  }

  lemma NextLine(t: string, cursor: nat)
    requires cursor < |t|
    ensures Newlines(t, 0, cursor + 1) == Newlines(t, 0, cursor) + (if t[cursor] == '\n' then 1 else 0)
  {
  }

  // ----- The spans are ordered, disjoint and complete

  /** In-bounds, non-empty, ordered and disjoint, from `cursor` on. */
  ghost predicate Ordered(ks: seq<Token>, cursor: nat, n: nat) {
    && (forall i :: 0 <= i < |ks| ==> cursor <= ks[i].start < ks[i].end <= n)
    && (forall i, j :: 0 <= i < j < |ks| ==> ks[i].end <= ks[j].start)
  }

  lemma {:induction false} TokensOrdered(t: string, cursor: nat, mode: Mode)
    ensures Ordered(Tokens(t, cursor, mode), cursor, |t|)
    decreases |t| - cursor
  {
    hide TokenAt;
    if cursor < |t| {
      var first := TokenAt(t, cursor, mode);
      if first.Some? {
        TokensOrdered(t, first.value.end, mode);
        assert Tokens(t, cursor, mode) == [first.value] + Tokens(t, first.value.end, mode);
      } else {
        TokensOrdered(t, cursor + 1, mode);
        assert Tokens(t, cursor, mode) == Tokens(t, cursor + 1, mode);
      }
    }
  }

  ghost predicate Inside(ks: seq<Token>, p: nat) {
    exists i :: 0 <= i < |ks| && ks[i].start <= p < ks[i].end
  }

  /** Every token of the list opens where it starts, and no opener is left outside the tokens. */
  lemma {:induction false} TokensComplete(t: string, cursor: nat, mode: Mode)
    ensures forall i :: 0 <= i < |Tokens(t, cursor, mode)| ==>
              var k := Tokens(t, cursor, mode)[i]; k.start < |t| && TokenAt(t, k.start, mode) == Some(k)
    ensures forall p: nat :: cursor <= p < |t| && !Inside(Tokens(t, cursor, mode), p) ==> TokenAt(t, p, mode) == None
    decreases |t| - cursor
  {
    hide TokenAt;
    if cursor < |t| {
      var ks := Tokens(t, cursor, mode);
      match TokenAt(t, cursor, mode)
      case Some(token) =>
        var rest := Tokens(t, token.end, mode);
        TokensComplete(t, token.end, mode);
        assert ks == [token] + rest;
        hide Tokens;
        forall p: nat { InsideCons(token, rest, p); }
      case None =>
        TokensComplete(t, cursor + 1, mode);
    }
  }

  lemma InsideCons(token: Token, rest: seq<Token>, p: nat)
    ensures Inside([token] + rest, p) <==> token.start <= p < token.end || Inside(rest, p)
  {
    var ks := [token] + rest;
    assert ks[0] == token && forall i :: 0 <= i < |rest| ==> ks[i + 1] == rest[i];
  }

  // ----- What the spans delimit

  /** The character at `p` is escaped: an unescaped backslash stands right before it. */
  ghost predicate Escaped(t: string, from: nat, p: nat)
    requires p <= |t|
    decreases p
  {
    p > from && t[p - 1] == '\\' && !Escaped(t, from, p - 1)
  }

  /** A quote that ends a short string opened before `from`. */
  ghost predicate Closes(t: string, quote: char, from: nat, p: nat) {
    p < |t| && t[p] == quote && !Escaped(t, from, p)
  }

  lemma {:induction false} ScanShortStops(t: string, quote: char, from: nat, i: nat)
    requires from <= i <= |t| && !Escaped(t, from, i) && quote != '\\'
    ensures var (end, terminated) := ScanShort(t, quote, i);
            && (terminated ==> Closes(t, quote, from, end - 1))
            && forall p :: i <= p < (if terminated then end - 1 else |t|) ==> !Closes(t, quote, from, p)
    decreases |t| - i
  {
    if i < |t| {
      if t[i] == '\\' {
        if i + 1 < |t| {
          assert Escaped(t, from, i + 1) && !Escaped(t, from, i + 2);
          ScanShortStops(t, quote, from, i + 2);
        }
      } else if t[i] != quote {
        ScanShortStops(t, quote, from, i + 1);
      }
    }
  }

  /** A short string ends at the first unescaped quote of its own kind; without one it runs to the end of the text. */
  lemma ShortStringMeaning(t: string, start: nat)
    requires start < |t| && IsQuote(t[start])
    ensures var k := ShortStringAt(t, start).value;
            && k.kind == ShortString && k.level == None && k.start == start
            && k.bodyStart == start + 1
            && k.end == (if k.terminated then k.bodyEnd + 1 else |t|)
            && (k.terminated ==> Closes(t, t[start], k.bodyStart, k.bodyEnd))
            && (!k.terminated ==> k.bodyEnd == |t|)
            && forall p :: k.bodyStart <= p < k.bodyEnd ==> !Closes(t, t[start], k.bodyStart, p)
  {
    ScanShortStops(t, t[start], start + 1, start + 1);
  }

  function Opener(level: nat): string {
    "[" + Equals(level) + "["
  }

  /** There is a long bracket exactly where an opener stands, and its level is the opener's. */
  lemma OpenerMeaning(t: string, start: nat, level: nat)
    ensures OpenerLevel(t, start) == Some(level) <==> OccursAt(t, Opener(level), start)
  {
    OpenerChars(t, start, level);
    if OccursAt(t, Opener(level), start) {
      SkipsTo(t, start + 1, start + level + 1);
    }
  }

  lemma OpenerChars(t: string, start: nat, level: nat)
    ensures OccursAt(t, Opener(level), start) <==>
            && start + level + 2 <= |t| && t[start] == '[' && t[start + level + 1] == '['
            && forall j :: start < j <= start + level ==> t[j] == '='
  {
    var opener := Opener(level);
    assert opener[0] == '[' && opener[level + 1] == '[';
    assert forall j :: 0 < j <= level ==> opener[j] == '=';
    if start + level + 2 <= |t| {
      var piece := t[start..start + level + 2];
      assert piece[0] == t[start] && piece[level + 1] == t[start + level + 1];
      assert forall j :: 0 < j <= level ==> piece[j] == t[start + j];
      assert forall j :: start < j <= start + level ==> t[j] == piece[j - start];
      if t[start] == '[' && t[start + level + 1] == '[' && forall j :: start < j <= start + level ==> t[j] == '=' {
        assert piece == opener;
      }
    }
  }

  lemma {:induction false} SkipsTo(t: string, i: nat, k: nat)
    requires i <= k < |t| && t[k] != '=' && forall j :: i <= j < k ==> t[j] == '='
    ensures SkipEquals(t, i) == k
    decreases k - i
  {
    if i < k {
      SkipsTo(t, i + 1, k);
    }
  }

  /** A long bracket ends with the first closer of its level after the opener; without one it runs to the end. */
  lemma LongBracketMeaning(t: string, start: nat, kind: Kind, level: nat)
    requires OccursAt(t, Opener(level), start)
    ensures LongBracket(t, start, kind).Some?
    ensures var k := LongBracket(t, start, kind).value;
            && k.kind == kind && k.level == Some(level) && k.start == start
            && k.bodyStart == start + level + 2
            && k.end == (if k.terminated then k.bodyEnd + level + 2 else |t|)
            && (k.terminated ==> OccursAt(t, Closer(level), k.bodyEnd))
            && (!k.terminated ==> k.bodyEnd == |t|)
            && forall p :: k.bodyStart <= p < k.bodyEnd ==> !OccursAt(t, Closer(level), p)
  {
    OpenerMeaning(t, start, level);
  }

  ghost predicate LongOpenerAt(t: string, start: nat) {
    exists level: nat :: OccursAt(t, Opener(level), start)
  }

  lemma NoOpener(t: string, start: nat)
    ensures LongBracket(t, start, LongComment).None? <==> !LongOpenerAt(t, start)
  {
    hide Find, Closer;
    forall level: nat { OpenerMeaning(t, start, level); }
    var found := OpenerLevel(t, start);
    if found.Some? {
      assert OccursAt(t, Opener(found.value), start);
    }
  }

  /**
   A comment is long iff long brackets are recognised and an opener of some level stands right after
   the dashes; it then ends with the first closer of that level, or with the text. Any other comment
   ends before the first newline, or with the text.
   */
  lemma CommentMeaning(t: string, start: nat, longBrackets: bool)
    requires Dashes(t, start)
    ensures CommentAt(t, start, longBrackets).Some?
    ensures var k := CommentAt(t, start, longBrackets).value;
            && k.start == start
            && k.kind == (if longBrackets && LongOpenerAt(t, start + 2) then LongComment else LineComment)
            && (k.kind == LongComment ==>
                  && k.level.Some? && OccursAt(t, Opener(k.level.value), start + 2)
                  && k.bodyStart == start + 2 + k.level.value + 2
                  && k.end == (if k.terminated then k.bodyEnd + k.level.value + 2 else |t|)
                  && (k.terminated ==> OccursAt(t, Closer(k.level.value), k.bodyEnd))
                  && (!k.terminated ==> k.bodyEnd == |t|)
                  && forall p :: k.bodyStart <= p < k.bodyEnd ==> !OccursAt(t, Closer(k.level.value), p))
            && (k.kind == LineComment ==>
                  && k.terminated && k.level == None
                  && k.bodyStart == start + 2 && k.bodyEnd == k.end
                  && (k.end < |t| ==> t[k.end] == '\n')
                  && forall p :: start <= p < k.end ==> t[p] != '\n')
  {
    NoOpener(t, start + 2);
    if longBrackets && LongOpenerAt(t, start + 2) {
      var level: nat :| OccursAt(t, Opener(level), start + 2);
      OpenerMeaning(t, start + 2, level);
      LongBracketMeaning(t, start + 2, LongComment, level);
      hide OccursAt, Opener, Closer, Find;
    } else {
      forall p: nat | p < |t| ensures OccursAt(t, "\n", p) <==> t[p] == '\n' {
        NewlineAt(t, p);
      }
      hide OccursAt, Opener, Closer, Find, LongBracket;
    }
  }

  lemma NewlineAt(t: string, p: nat)
    requires p < |t|
    ensures OccursAt(t, "\n", p) <==> t[p] == '\n'
  {
    assert t[p..p + 1] == [t[p]];
  }

  /** A closer of a level is that many equals signs between two closing brackets. */
  lemma CloserChars(t: string, start: nat, level: nat)
    ensures OccursAt(t, Closer(level), start) <==>
            && start + level + 2 <= |t| && t[start] == ']' && t[start + level + 1] == ']'
            && forall j :: start < j <= start + level ==> t[j] == '='
  {
    var closer := Closer(level);
    assert closer[0] == ']' && closer[level + 1] == ']';
    assert forall j :: 0 < j <= level ==> closer[j] == '=';
    OccursChars(t, closer, start);
    if OccursAt(t, closer, start) {
      forall j | start < j <= start + level ensures t[j] == '=' {
        assert t[start + (j - start)] == closer[j - start];
      }
      assert t[start + (level + 1)] == closer[level + 1] && t[start + 0] == closer[0];
    }
  }

  // ----- Which kind of span starts where

  /** The position is not inside a span that started earlier. */
  ghost predicate Outside(t: string, mode: Mode, p: nat) {
    forall i :: 0 <= i < |Tokens(t, 0, mode)| ==> !(Tokens(t, 0, mode)[i].start < p < Tokens(t, 0, mode)[i].end)
  }

  ghost predicate StartsAt(t: string, mode: Mode, p: nat, kind: Kind) {
    exists i :: 0 <= i < |Tokens(t, 0, mode)| && Tokens(t, 0, mode)[i].start == p && Tokens(t, 0, mode)[i].kind == kind
  }

  /** The token that starts at a position, and no other, decides its kind. */
  lemma KindOfToken(t: string, mode: Mode, p: nat, kind: Kind)
    requires p < |t| && Outside(t, mode, p)
    ensures StartsAt(t, mode, p, kind) <==> TokenAt(t, p, mode).Some? && TokenAt(t, p, mode).value.kind == kind
  {
    hide TokenAt, Tokens;
    TokensComplete(t, 0, mode);
    TokensOrdered(t, 0, mode);
    var ks := Tokens(t, 0, mode);
    if TokenAt(t, p, mode).Some? {
      assert Inside(ks, p);
      var i :| 0 <= i < |ks| && ks[i].start <= p < ks[i].end;
      assert ks[i].start == p;
    }
  }

  /**
   Outside the other spans, a long string starts exactly at a recognised opener, a short string exactly
   at a quote, and a comment exactly at two dashes while comments are recognised: a long one iff an
   opener follows and brackets are recognised.
   */
  lemma SpanKinds(t: string, mode: Mode, p: nat)
    requires p < |t| && Outside(t, mode, p)
    ensures var dashes := mode.comments && p + 1 < |t| && t[p] == '-' && t[p + 1] == '-';
            && (StartsAt(t, mode, p, LongString) <==> mode.longBrackets && exists level: nat :: OccursAt(t, Opener(level), p))
            && (StartsAt(t, mode, p, ShortString) <==> t[p] == '"' || t[p] == '\'')
            && (StartsAt(t, mode, p, LongComment) <==> dashes && mode.longBrackets && exists level: nat :: OccursAt(t, Opener(level), p + 2))
            && (StartsAt(t, mode, p, LineComment) <==> dashes && !(mode.longBrackets && exists level: nat :: OccursAt(t, Opener(level), p + 2)))
  {
    KindOfToken(t, mode, p, LongString);
    KindOfToken(t, mode, p, ShortString);
    KindOfToken(t, mode, p, LongComment);
    KindOfToken(t, mode, p, LineComment);
    BracketOpens(t, p);
    TokenKind(t, mode, p);
    hide Tokens, TokenAt, StartsAt, Opener;
  }

  lemma BracketOpens(t: string, p: nat)
    ensures LongBracket(t, p, LongString).Some? <==> LongOpenerAt(t, p)
    ensures LongOpenerAt(t, p) ==> p < |t| && t[p] == '['
  {
    hide Find, Closer;
    forall level: nat { OpenerMeaning(t, p, level); }
    forall level: nat { OpenerChars(t, p, level); }
    var found := OpenerLevel(t, p);
    if found.Some? {
      assert OccursAt(t, Opener(found.value), p);
    }
  }

  lemma TokenKind(t: string, mode: Mode, p: nat)
    requires p < |t|
    ensures var token := TokenAt(t, p, mode);
            var dashes := mode.comments && p + 1 < |t| && t[p] == '-' && t[p + 1] == '-';
            if dashes then token.Some? && token.value.kind == (if mode.longBrackets && LongOpenerAt(t, p + 2) then LongComment else LineComment)
            else if t[p] == '"' || t[p] == '\'' then token.Some? && token.value.kind == ShortString
            else if mode.longBrackets && LongOpenerAt(t, p) then token.Some? && token.value.kind == LongString
            else token == None
  {
    BracketOpens(t, p);
    if Dashes(t, p) {
      CommentMeaning(t, p, mode.longBrackets);
    } else if IsQuote(t[p]) {
      ShortStringMeaning(t, p);
    } else if LongOpenerAt(t, p) {
      var level: nat :| OccursAt(t, Opener(level), p);
      LongBracketMeaning(t, p, LongString, level);
    }
    hide CommentAt, ShortStringAt, LongBracket, LongOpenerAt;
  }
}

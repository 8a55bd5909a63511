/**
 `code_mask` of packages/github-ratchet-migration-slicer/tools/check_repo_lua.py. Blanking any
 selection of spans and lexing again gives exactly the spans that were not selected.
 */
module CodeMask {
  import opened Collections
  import opened LuaLexer
  import opened Results
  import opened Strings

  /** Position `p` lies in a selected span. */
  predicate Covered(spans: seq<Span>, sel: Span -> bool, p: nat) {
    exists i :: 0 <= i < |spans| && sel(spans[i]) && spans[i].token.start <= p < spans[i].token.end
  }

  function Blank(c: char): char {
    if c == '\n' then '\n' else ' '
  }

  function MaskSpans(t: string, spans: seq<Span>, sel: Span -> bool): (m: string)
    ensures |m| == |t|
  {
    seq(|t|, i requires 0 <= i < |t| => if Covered(spans, sel, i) then Blank(t[i]) else t[i])
  }

  /** The masked text for a selection of spans. */
  function Mask(t: string, mode: Mode, sel: Span -> bool): string {
    MaskSpans(t, LexSpec(t, mode), sel)
  }

  /** `span.kind in kinds and not preserve(span)` */
  function Selection(kinds: set<Kind>, preserve: Option<Span -> bool>): Span -> bool {
    (s: Span) => s.token.kind in kinds && !(preserve.Some? && preserve.value(s))
  }

  method CodeMask(t: string, kinds: set<Kind>, preserve: Option<Span -> bool>, mode: Mode) returns (m: string)
    ensures m == Mask(t, mode, Selection(kinds, preserve))
  {
    hide Covered, LexSpec;
    var sel := Selection(kinds, preserve);
    var spans := Lex(t, mode);
    SpansInBounds(t, mode);
    var chars := new char[|t|](i requires 0 <= i < |t| => t[i]);
    NothingCovered(spans, sel);
    for k := 0 to |spans|
      invariant chars.Length == |t|
      invariant forall p :: 0 <= p < |t| ==> chars[p] == if Covered(spans[..k], sel, p) then Blank(t[p]) else t[p]
    {
      CoveredSnoc(spans, sel, k);
      var span := spans[k];
      if span.token.kind !in kinds || (preserve.Some? && preserve.value(span)) {
        continue;
      }
      BlankRange(chars, span.token.start, span.token.end);
    }
    assert spans[..|spans|] == spans;
    m := chars[..];
    assert forall p :: 0 <= p < |t| ==> m[p] == MaskSpans(t, spans, sel)[p];
  }

  /** The inner loop: blanks a range of the buffer and nothing else. */
  method BlankRange(chars: array<char>, start: nat, end: nat)
    requires start <= end <= chars.Length
    modifies chars
    ensures forall p :: 0 <= p < chars.Length ==>
              chars[p] == if start <= p < end then Blank(old(chars[p])) else old(chars[p])
  {
    for index := start to end
      invariant forall p :: 0 <= p < chars.Length ==>
                  chars[p] == if start <= p < index then Blank(old(chars[p])) else old(chars[p])
    {
      if chars[index] != '\n' {
        chars[index] := ' ';
      }
    }
  }

  lemma NothingCovered(spans: seq<Span>, sel: Span -> bool)
    ensures forall p: nat :: !Covered(spans[..0], sel, p)
  {
  }

  lemma SpansInBounds(t: string, mode: Mode)
    ensures forall k :: 0 <= k < |LexSpec(t, mode)| ==>
              LexSpec(t, mode)[k].token.start <= LexSpec(t, mode)[k].token.end <= |t|
  {
    TokensOrdered(t, 0, mode);
  }

  lemma CoveredSnoc(spans: seq<Span>, sel: Span -> bool, k: nat)
    requires k < |spans|
    ensures forall p: nat ::
              Covered(spans[..k + 1], sel, p)
              <==> Covered(spans[..k], sel, p) || (sel(spans[k]) && spans[k].token.start <= p < spans[k].token.end)
  {
    var a, b := spans[..k], spans[..k + 1];
    assert b == a + [spans[k]];
    forall p: nat | Covered(a, sel, p) ensures Covered(b, sel, p) {
      var i :| 0 <= i < |a| && sel(a[i]) && a[i].token.start <= p < a[i].token.end;
      assert b[i] == a[i];
    }
    forall p: nat | sel(spans[k]) && spans[k].token.start <= p < spans[k].token.end ensures Covered(b, sel, p) {
      assert b[k] == spans[k];
    }
  }

  // ----- A blanked text opens nothing new

  /** `m` is `t` with some characters blanked. */
  ghost predicate Blanked(t: string, m: string) {
    |m| == |t| && forall p :: 0 <= p < |t| ==> m[p] == t[p] || m[p] == Blank(t[p])
  }

  ghost predicate AgreeOn(t: string, m: string, lo: nat, hi: nat) {
    forall p :: lo <= p < hi && p < |t| && p < |m| ==> m[p] == t[p]
  }

  lemma {:induction false} SkipEqualsBlanked(t: string, m: string, i: nat)
    requires Blanked(t, m) && i <= |t|
    requires SkipEquals(m, i) < |m| && m[SkipEquals(m, i)] == '['
    ensures SkipEquals(t, i) == SkipEquals(m, i)
    decreases |t| - i
  {
    if i < |t| && m[i] == '=' {
      SkipEqualsBlanked(t, m, i + 1);
    }
  }

  lemma OpenerBlanked(t: string, m: string, start: nat)
    requires Blanked(t, m) && OpenerLevel(m, start).Some?
    ensures OpenerLevel(t, start) == OpenerLevel(m, start)
  {
    SkipEqualsBlanked(t, m, start + 1);
  }

  lemma NoNewOpener(t: string, m: string, mode: Mode, cursor: nat)
    requires Blanked(t, m) && cursor < |t| && TokenAt(t, cursor, mode) == None
    ensures TokenAt(m, cursor, mode) == None
  {
    if OpenerLevel(m, cursor).Some? {
      OpenerBlanked(t, m, cursor);
    }
  }

  // ----- A span that is kept is read again unchanged

  lemma {:induction false} SkipEqualsLocal(t: string, m: string, i: nat)
    requires |m| == |t| && i <= |t| && AgreeOn(t, m, i, SkipEquals(t, i) + 1)
    ensures SkipEquals(m, i) == SkipEquals(t, i)
    decreases |t| - i
  {
    if i < |t| && t[i] == '=' {
      SkipEqualsLocal(t, m, i + 1);
    }
  }

  lemma OccursLocal(t: string, m: string, pattern: string, i: nat)
    requires |m| == |t| && AgreeOn(t, m, i, i + |pattern|)
    ensures OccursAt(m, pattern, i) <==> OccursAt(t, pattern, i)
  {
    if i + |pattern| <= |t| {
      assert t[i..i + |pattern|] == m[i..i + |pattern|];
    }
  }

  lemma LongBracketLocal(t: string, m: string, start: nat, kind: Kind)
    requires |m| == |t| && LongBracket(t, start, kind).Some? && AgreeOn(t, m, start, LongBracket(t, start, kind).value.end)
    ensures LongBracket(m, start, kind) == LongBracket(t, start, kind)
  {
    hide Find, Closer, OpenerLevel, OccursAt;
    var token := LongBracket(t, start, kind).value;
    var level := OpenerLevel(t, start).value;
    OpenerLocal(t, m, start);
    FindLocal(t, m, Closer(level), token.bodyStart);
  }

  lemma OpenerLocal(t: string, m: string, start: nat)
    requires |m| == |t| && OpenerLevel(t, start).Some?
    requires AgreeOn(t, m, start, start + OpenerLevel(t, start).value + 2)
    ensures OpenerLevel(m, start) == OpenerLevel(t, start)
  {
    SkipEqualsLocal(t, m, start + 1);
  }

  lemma {:induction false} FindLocal(t: string, m: string, pattern: string, from: nat)
    requires |m| == |t|
    requires match Find(t, pattern, from)
             case Some(k) => AgreeOn(t, m, from, k + |pattern|)
             case None => AgreeOn(t, m, from, |t|)
    ensures Find(m, pattern, from) == Find(t, pattern, from)
    decreases |t| - from
  {
    if from <= |t| {
      OccursLocal(t, m, pattern, from);
      if !OccursAt(t, pattern, from) && from < |t| {
        FindLocal(t, m, pattern, from + 1);
      }
    }
  }

  lemma {:induction false} ScanShortLocal(t: string, m: string, quote: char, i: nat)
    requires |m| == |t| && i <= |t| && AgreeOn(t, m, i, ScanShort(t, quote, i).0)
    ensures ScanShort(m, quote, i) == ScanShort(t, quote, i)
    decreases |t| - i
  {
    if i < |t| {
      if t[i] == '\\' {
        ScanShortLocal(t, m, quote, Min(i + 2, |t|));
      } else if t[i] != quote {
        ScanShortLocal(t, m, quote, i + 1);
      }
    }
  }

  lemma {:induction false} NewlineLocal(t: string, m: string, start: nat)
    requires Blanked(t, m)
    ensures Find(m, "\n", start) == Find(t, "\n", start)
    decreases |t| - start
  {
    if start < |t| {
      assert t[start..start + 1] == [t[start]] && m[start..start + 1] == [m[start]];
      NewlineLocal(t, m, start + 1);
    }
  }

  lemma CommentLocal(t: string, m: string, start: nat, long: bool)
    requires Blanked(t, m) && CommentAt(t, start, long).Some? && AgreeOn(t, m, start, CommentAt(t, start, long).value.end)
    ensures CommentAt(m, start, long) == CommentAt(t, start, long)
  {
    NewlineLocal(t, m, start);
    if long && LongBracket(t, start + 2, LongComment).Some? {
      LongBracketLocal(t, m, start + 2, LongComment);
    } else if OpenerLevel(m, start + 2).Some? {
      OpenerBlanked(t, m, start + 2);
    }
  }

  lemma KeptTokenLocal(t: string, m: string, mode: Mode, cursor: nat)
    requires Blanked(t, m) && cursor < |t| && TokenAt(t, cursor, mode).Some?
    requires AgreeOn(t, m, cursor, TokenAt(t, cursor, mode).value.end)
    ensures TokenAt(m, cursor, mode) == TokenAt(t, cursor, mode)
  {
    var token := TokenAt(t, cursor, mode).value;
    if mode.comments && Dashes(t, cursor) {
      CommentLocal(t, m, cursor, mode.longBrackets);
    } else if IsQuote(t[cursor]) {
      ScanShortLocal(t, m, t[cursor], cursor + 1);
    } else {
      LongBracketLocal(t, m, cursor, LongString);
    }
  }

  // ----- Lexing the masked text

  function KeepTokens(t: string, ks: seq<Token>, sel: Span -> bool): seq<Token> {
    if ks == [] then []
    else (if sel(WithLines(t, ks[0])) then [] else [ks[0]]) + KeepTokens(t, ks[1..], sel)
  }

  function Unselected(spans: seq<Span>, sel: Span -> bool): seq<Span> {
    if spans == [] then []
    else (if sel(spans[0]) then [] else [spans[0]]) + Unselected(spans[1..], sel)
  }

  /** From `cursor` on, `m` is `t` with the selected tokens of `ks` blanked. */
  ghost predicate MaskedFrom(t: string, m: string, ks: seq<Token>, sel: Span -> bool, cursor: nat) {
    Blanked(t, m) && forall p: nat :: cursor <= p < |t| ==> m[p] == if Hidden(t, ks, sel, p) then Blank(t[p]) else t[p]
  }

  ghost predicate Hidden(t: string, ks: seq<Token>, sel: Span -> bool, p: nat) {
    exists i :: 0 <= i < |ks| && sel(WithLines(t, ks[i])) && ks[i].start <= p < ks[i].end
  }

  lemma HiddenCons(t: string, k: Token, rest: seq<Token>, sel: Span -> bool, p: nat)
    ensures Hidden(t, [k] + rest, sel, p) <==> (sel(WithLines(t, k)) && k.start <= p < k.end) || Hidden(t, rest, sel, p)
  {
    hide WithLines;
    var ks := [k] + rest;
    if Hidden(t, rest, sel, p) {
      var i :| 0 <= i < |rest| && sel(WithLines(t, rest[i])) && rest[i].start <= p < rest[i].end;
      assert ks[i + 1] == rest[i];
    }
    if sel(WithLines(t, k)) && k.start <= p < k.end {
      assert ks[0] == k;
    }
  }

  lemma {:induction false} BlanksSkipped(m: string, mode: Mode, i: nat, j: nat)
    requires i <= j <= |m| && forall p :: i <= p < j ==> m[p] == ' ' || m[p] == '\n'
    ensures Tokens(m, i, mode) == Tokens(m, j, mode)
    decreases j - i
  {
    if i < j {
      assert TokenAt(m, i, mode) == None;
      BlanksSkipped(m, mode, i + 1, j);
    }
  }

  /** The three cases of the scan: a selected token, a kept token, no token. */
  lemma {:induction false} MaskedTokens(t: string, m: string, mode: Mode, sel: Span -> bool, cursor: nat)
    requires MaskedFrom(t, m, Tokens(t, cursor, mode), sel, cursor)
    ensures Tokens(m, cursor, mode) == KeepTokens(t, Tokens(t, cursor, mode), sel)
    decreases |t| - cursor
  {
    hide TokenAt, WithLines, Hidden;
    if cursor < |t| {
      var first := TokenAt(t, cursor, mode);
      var ks := Tokens(t, cursor, mode);
      if first.None? {
        NoNewOpener(t, m, mode, cursor);
        MaskedTokens(t, m, mode, sel, cursor + 1);
      } else {
        var k, rest := first.value, Tokens(t, first.value.end, mode);
        assert ks == [k] + rest && ks[1..] == rest;
        MaskedRest(t, m, mode, sel, k, rest);
        MaskedTokens(t, m, mode, sel, k.end);
        if sel(WithLines(t, k)) {
          BlanksSkipped(m, mode, cursor, k.end);
        } else {
          KeptTokenLocal(t, m, mode, cursor);
        }
      }
    }
  }

  lemma MaskedRest(t: string, m: string, mode: Mode, sel: Span -> bool, k: Token, rest: seq<Token>)
    requires MaskedFrom(t, m, [k] + rest, sel, k.start) && k.start < k.end <= |t| && rest == Tokens(t, k.end, mode)
    ensures MaskedFrom(t, m, rest, sel, k.end)
    ensures sel(WithLines(t, k)) ==> forall p :: k.start <= p < k.end ==> m[p] == ' ' || m[p] == '\n'
    ensures !sel(WithLines(t, k)) ==> AgreeOn(t, m, k.start, k.end)
  {
    hide WithLines;
    TokensOrdered(t, k.end, mode);
    hide Tokens;
    forall p: nat { HiddenCons(t, k, rest, sel, p); }
  }

  lemma {:induction false} SameNewlines(t: string, m: string, i: nat, j: nat)
    requires Blanked(t, m) && j <= |t|
    ensures Newlines(m, i, j) == Newlines(t, i, j)
    decreases j - i
  {
    if i < j {
      SameNewlines(t, m, i, j - 1);
    }
  }

  lemma SameLines(t: string, m: string, k: Token)
    requires Blanked(t, m)
    ensures WithLines(m, k) == WithLines(t, k)
  {
    var last := if k.end <= k.start then k.start else k.end - 1;
    SameNewlines(t, m, 0, Min(k.start, |t|));
    SameNewlines(t, m, 0, Min(k.bodyStart, |t|));
    SameNewlines(t, m, 0, Min(last, |t|));
  }

  lemma {:induction false} KeepThenSpans(t: string, m: string, ks: seq<Token>, sel: Span -> bool)
    requires Blanked(t, m)
    ensures Spans(m, KeepTokens(t, ks, sel)) == Unselected(Spans(t, ks), sel)
  {
    hide WithLines;
    if ks != [] {
      KeepThenSpans(t, m, ks[1..], sel);
      SameLines(t, m, ks[0]);
      assert Spans(t, ks)[1..] == Spans(t, ks[1..]);
      var head := if sel(WithLines(t, ks[0])) then [] else [ks[0]];
      assert Spans(m, head + KeepTokens(t, ks[1..], sel)) == Spans(m, head) + Spans(m, KeepTokens(t, ks[1..], sel));
    }
  }

  lemma CoveredIsHidden(t: string, ks: seq<Token>, sel: Span -> bool, p: nat)
    ensures Covered(Spans(t, ks), sel, p) <==> Hidden(t, ks, sel, p)
  {
    hide WithLines;
    if Hidden(t, ks, sel, p) {
      var i :| 0 <= i < |ks| && sel(WithLines(t, ks[i])) && ks[i].start <= p < ks[i].end;
      assert Spans(t, ks)[i] == WithLines(t, ks[i]);
      SpanToken(t, ks[i]);
    }
    if Covered(Spans(t, ks), sel, p) {
      var i :| 0 <= i < |ks| && sel(Spans(t, ks)[i]) && Spans(t, ks)[i].token.start <= p < Spans(t, ks)[i].token.end;
      SpanToken(t, ks[i]);
    }
  }

  lemma SpanToken(t: string, k: Token)
    ensures WithLines(t, k).token == k
  {
  }

  /** Masking keeps the length and every newline, and changes nothing outside the selected spans. */
  lemma MaskKeepsShape(t: string, mode: Mode, sel: Span -> bool)
    ensures var m := Mask(t, mode, sel);
            && |m| == |t|
            && (forall p :: 0 <= p < |t| ==> (m[p] == '\n' <==> t[p] == '\n'))
            && (forall p :: 0 <= p < |t| && !Covered(LexSpec(t, mode), sel, p) ==> m[p] == t[p])
            && (forall p :: 0 <= p < |t| && Covered(LexSpec(t, mode), sel, p) && t[p] != '\n' ==> m[p] == ' ')
  {
  }

  /** The span is one that a mask of these kinds blanks: the kind is selected and the callback, if any, does not preserve it. */
  ghost predicate Blanks(s: Span, kinds: set<Kind>, preserve: Option<Span -> bool>, p: nat) {
    s.token.kind in kinds && (preserve.None? || !preserve.value(s)) && s.token.start <= p < s.token.end
  }

  /** A character becomes a space exactly if it is no newline and lies in a span of a selected kind that is not preserved. */
  lemma MaskIs(t: string, kinds: set<Kind>, preserve: Option<Span -> bool>, mode: Mode, p: nat)
    requires p < |t|
    ensures Mask(t, mode, Selection(kinds, preserve))[p] ==
            if t[p] != '\n' && exists i :: 0 <= i < |LexSpec(t, mode)| && Blanks(LexSpec(t, mode)[i], kinds, preserve, p) then ' ' else t[p]
  {
    hide LexSpec;
    var spans, sel := LexSpec(t, mode), Selection(kinds, preserve);
    if i :| 0 <= i < |spans| && Blanks(spans[i], kinds, preserve, p) {
      assert sel(spans[i]);
    }
    if Covered(spans, sel, p) {
      var i :| 0 <= i < |spans| && sel(spans[i]) && spans[i].token.start <= p < spans[i].token.end;
      assert Blanks(spans[i], kinds, preserve, p);
    }
  }

  /** Blank any selection of spans, lex again: exactly the other spans, with the same metadata. */
  lemma LexAfterMask(t: string, mode: Mode, sel: Span -> bool)
    ensures LexSpec(Mask(t, mode, sel), mode) == Unselected(LexSpec(t, mode), sel)
  {
    hide Tokens, WithLines, Covered;
    var ks := Tokens(t, 0, mode);
    var m := Mask(t, mode, sel);
    forall p: nat { CoveredIsHidden(t, ks, sel, p); }
    MaskedTokens(t, m, mode, sel, 0);
    KeepThenSpans(t, m, ks, sel);
  }

  // ----- Consequences

  lemma {:induction false} UnselectedCovered(spans: seq<Span>, sel: Span -> bool, sel2: Span -> bool, p: nat)
    ensures Covered(Unselected(spans, sel), sel2, p) <==> Covered(spans, s => !sel(s) && sel2(s), p)
  {
    var both := (s: Span) => !sel(s) && sel2(s);
    if spans != [] {
      UnselectedCovered(spans[1..], sel, sel2, p);
      CoveredCons(spans[0], spans[1..], both, p);
      assert spans == [spans[0]] + spans[1..];
      if !sel(spans[0]) {
        CoveredCons(spans[0], Unselected(spans[1..], sel), sel2, p);
      } else {
        assert [] + Unselected(spans[1..], sel) == Unselected(spans[1..], sel);
      }
    }
  }

  lemma CoveredCons(s: Span, rest: seq<Span>, sel: Span -> bool, p: nat)
    ensures Covered([s] + rest, sel, p) <==> (sel(s) && s.token.start <= p < s.token.end) || Covered(rest, sel, p)
  {
    var all := [s] + rest;
    if Covered(rest, sel, p) {
      var i :| 0 <= i < |rest| && sel(rest[i]) && rest[i].token.start <= p < rest[i].token.end;
      assert all[i + 1] == rest[i];
    }
    if sel(s) && s.token.start <= p < s.token.end {
      assert all[0] == s;
    }
  }

  /** Masking twice is masking once with both selections. */
  lemma MaskCompose(t: string, mode: Mode, sel: Span -> bool, sel2: Span -> bool)
    ensures Mask(Mask(t, mode, sel), mode, sel2) == Mask(t, mode, s => sel(s) || sel2(s))
  {
    var spans := LexSpec(t, mode);
    LexAfterMask(t, mode, sel);
    hide LexSpec;
    var either := (s: Span) => sel(s) || sel2(s);
    forall p: nat ensures Covered(spans, either, p) <==> Covered(spans, sel, p) || Covered(Unselected(spans, sel), sel2, p) {
      UnselectedCovered(spans, sel, sel2, p);
      CoveredEither(spans, sel, sel2, p);
    }
    hide Covered;
    assert forall p :: 0 <= p < |t| ==> Mask(Mask(t, mode, sel), mode, sel2)[p] == Mask(t, mode, either)[p];
  }

  lemma CoveredEither(spans: seq<Span>, sel: Span -> bool, sel2: Span -> bool, p: nat)
    ensures Covered(spans, s => sel(s) || sel2(s), p) <==>
      Covered(spans, sel, p) || Covered(spans, s => !sel(s) && sel2(s), p)
  {
    var either := (s: Span) => sel(s) || sel2(s);
    var both := (s: Span) => !sel(s) && sel2(s);
    if Covered(spans, either, p) {
      var i :| 0 <= i < |spans| && either(spans[i]) && spans[i].token.start <= p < spans[i].token.end;
      assert sel(spans[i]) || both(spans[i]);
    }
    if Covered(spans, sel, p) {
      var i :| 0 <= i < |spans| && sel(spans[i]) && spans[i].token.start <= p < spans[i].token.end;
      assert either(spans[i]);
    }
    if Covered(spans, both, p) {
      var i :| 0 <= i < |spans| && both(spans[i]) && spans[i].token.start <= p < spans[i].token.end;
      assert either(spans[i]);
    }
  }

  const AllKinds: set<Kind> := {ShortString, LongString, LineComment, LongComment}
  const CommentKinds: set<Kind> := {LineComment, LongComment}

  lemma {:induction false} AllSelected(spans: seq<Span>)
    ensures Unselected(spans, Selection(AllKinds, None)) == []
  {
    if spans != [] {
      AllSelected(spans[1..]);
      var kind := spans[0].token.kind;
      assert kind == ShortString || kind == LongString || kind == LineComment || kind == LongComment;
      assert Selection(AllKinds, None)(spans[0]);
    }
  }

  /** The fully masked text has no string and no comment left, so masking it again changes nothing. */
  lemma FullMaskIsCode(t: string, mode: Mode)
    ensures var all := Selection(AllKinds, None);
            && LexSpec(Mask(t, mode, all), mode) == []
            && Mask(Mask(t, mode, all), mode, all) == Mask(t, mode, all)
  {
    var all := Selection(AllKinds, None);
    LexAfterMask(t, mode, all);
    AllSelected(LexSpec(t, mode));
    hide LexSpec;
    assert forall p :: 0 <= p < |t| ==> Mask(Mask(t, mode, all), mode, all)[p] == Mask(t, mode, all)[p];
  }

  lemma {:induction false} LiteralsLeft(spans: seq<Span>)
    ensures forall s :: s in Unselected(spans, Selection(CommentKinds, None)) <==>
              s in spans && (s.token.kind == ShortString || s.token.kind == LongString)
  {
    if spans != [] {
      LiteralsLeft(spans[1..]);
      assert spans == [spans[0]] + spans[1..];
    }
  }

  /**
   Masking only the comments leaves every literal span as it was, and a full mask of that text is
   the full mask of the original.
   */
  lemma CommentMaskThenFullMask(t: string, mode: Mode)
    ensures var comments, all := Selection(CommentKinds, None), Selection(AllKinds, None);
            && LexSpec(Mask(t, mode, comments), mode) == Unselected(LexSpec(t, mode), comments)
            && (forall s :: s in LexSpec(Mask(t, mode, comments), mode) <==>
                  s in LexSpec(t, mode) && (s.token.kind == ShortString || s.token.kind == LongString))
            && Mask(Mask(t, mode, comments), mode, all) == Mask(t, mode, all)
  {
    var comments, all := Selection(CommentKinds, None), Selection(AllKinds, None);
    LexAfterMask(t, mode, comments);
    LiteralsLeft(LexSpec(t, mode));
    MaskCompose(t, mode, comments, all);
    var either := (s: Span) => comments(s) || all(s);
    var spans := LexSpec(t, mode);
    hide LexSpec;
    forall p: nat ensures Covered(spans, either, p) <==> Covered(spans, all, p) {
      forall s: Span ensures either(s) <==> all(s) { }
    }
    assert forall p :: 0 <= p < |t| ==> Mask(t, mode, either)[p] == Mask(t, mode, all)[p];
  }
}

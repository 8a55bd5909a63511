/**
 HTML-comment markers of packages/github-ratchet-migration-slicer/tools/ratchet_migration_slicer.py:
 how they are written, how the regular expressions find them in issue bodies, and how their
 attributes are read back.
 */
module Markers {
  import opened GitBatch
  import opened Results
  import opened Strings

  /** A one-line pattern does not start where a newline interrupts it. */
  lemma StartsOneLine(t: string, pattern: string, i: nat, n: nat)
    requires Lacks(pattern, '\n') && i <= n < i + |pattern| && n < |t| && t[n] == '\n'
    ensures !OccursAt(t, pattern, i)
  {
    OccursChars(t, pattern, i);
    assert t[i + (n - i)] == '\n' && pattern[n - i] != '\n';
  }

  // ----- Finding markers: `open .*?-->`

  /** The end of the first `-->` at or after `i` on the same line. */
  function MarkerEnd(t: string, i: nat): (r: Option<nat>)
    ensures r.Some? ==> i + 3 <= r.value <= |t|
    decreases |t| - i
  {
    if i >= |t| then None
    else if OccursAt(t, "-->", i) then Some(i + 3)
    else if t[i] == '\n' then None
    else MarkerEnd(t, i + 1)
  }

  /** `re.findall(open + ".*?-->", t)` from position `i`. */
  function FindMarkers(open: string, t: string, i: nat): seq<string>
    decreases |t| - i
  {
    if i >= |t| then []
    else if OccursAt(t, open, i) && MarkerEnd(t, i + |open|).Some? then
      var end := MarkerEnd(t, i + |open|).value;
      [t[i..end]] + FindMarkers(open, t, end)
    else FindMarkers(open, t, i + 1)
  }

  /** A marker that is found is a piece of the text and starts with the opening. */
  lemma {:induction false} FoundMarkerIsPart(open: string, t: string, i: nat, m: string)
    requires m in FindMarkers(open, t, i)
    ensures Contains(t, m) && Contains(m, open)
    decreases |t| - i
  {
    hide OccursAt, MarkerEnd, Contains;
    if OccursAt(t, open, i) && MarkerEnd(t, i + |open|).Some? {
      var end := MarkerEnd(t, i + |open|).value;
      if m == t[i..end] {
        PieceContains(open, t, i, end);
      } else {
        FoundMarkerIsPart(open, t, end, m);
      }
    } else {
      FoundMarkerIsPart(open, t, i + 1, m);
    }
  }

  lemma PieceContains(open: string, t: string, i: nat, end: nat)
    requires OccursAt(t, open, i) && i + |open| <= end <= |t|
    ensures Contains(t, t[i..end]) && Contains(t[i..end], open)
  {
    var m := t[i..end];
    assert t[i..i + |m|] == m;
    assert OccursAt(t, m, i);
    assert m[0..0 + |open|] == t[i..i + |open|];
    assert OccursAt(m, open, 0);
  }

  /** An attribute that is read stands in the marker. */
  lemma {:induction false} ReadAttributeIsPart(m: string, name: string, i: nat)
    requires AttributeFrom(m, name, i).Some?
    ensures Contains(m, name + "=\"" + AttributeFrom(m, name, i).value + "\"")
    decreases |m| - i
  {
    hide OccursAt, Contains;
    var v0 := i + |name| + 2;
    if (i == 0 || !IsWord(m[i - 1])) && OccursAt(m, name + "=\"", i) && IndexOf(m, '"', v0).Some? {
      QuotedContains(m, name + "=\"", i, IndexOf(m, '"', v0).value);
    } else {
      ReadAttributeIsPart(m, name, i + 1);
    }
  }

  lemma QuotedContains(m: string, pattern: string, i: nat, q: nat)
    requires OccursAt(m, pattern, i) && i + |pattern| <= q < |m| && m[q] == '"'
    ensures Contains(m, pattern + m[i + |pattern|..q] + "\"")
  {
    var whole := pattern + m[i + |pattern|..q] + "\"";
    assert m[i..i + |whole|] == m[i..i + |pattern|] + m[i + |pattern|..q] + [m[q]];
    assert OccursAt(m, whole, i);
  }

  ghost predicate OneLine(s: string) {
    Lacks(s, '\n')
  }

  /** A marker: opens with `open`, closes at its only `-->`, and stays on one line. */
  ghost predicate IsMarker(open: string, m: string) {
    OneLine(m) && |open| < |m| && m[..|open|] == open && MarkerEnd(m, |open|) == Some(|m|)
  }

  lemma {:induction false} MarkerEndAppend(m: string, rest: string, i: nat)
    requires MarkerEnd(m, i).Some?
    ensures MarkerEnd(m + rest, i) == MarkerEnd(m, i)
    decreases |m| - i
  {
    hide OccursAt;
    var t := m + rest;
    if !OccursAt(m, "-->", i) {
      MarkerEndAppend(m, rest, i + 1);
    } else {
      OccursChars(m, "-->", i);
    }
    assert i + 3 <= |m|;
    PrefixStarts(m, rest, "-->", i);
  }

  /** Before a newline the search for the end does not see what follows the newline. */
  lemma {:induction false} MarkerEndStops(a: string, rest: string, i: nat)
    requires a != "" && a[|a| - 1] == '\n' && i < |a|
    ensures MarkerEnd(a + rest, i) == MarkerEnd(a, i)
    decreases |a| - i
  {
    hide OccursAt;
    StartsAppend(a, rest, "-->", i);
    if !OccursAt(a, "-->", i) && a[i] != '\n' {
      MarkerEndStops(a, rest, i + 1);
    }
  }

  lemma StartsAppend(a: string, rest: string, pattern: string, i: nat)
    requires Lacks(pattern, '\n') && a != "" && a[|a| - 1] == '\n' && i < |a|
    ensures OccursAt(a + rest, pattern, i) <==> OccursAt(a, pattern, i)
    ensures OccursAt(a, pattern, i) ==> i + |pattern| < |a|
  {
    hide OccursAt;
    var t := a + rest;
    if i + |pattern| < |a| {
      PrefixStarts(a, rest, pattern, i);
    } else if i + |pattern| >= |a| && pattern != "" {
      if i + |pattern| == |a| {
        StartsOneLine(a, pattern, i, |a| - 1);
      } else {
        OccursChars(a, pattern, i);
      }
      StartsOneLine(t, pattern, i, |a| - 1);
    }
  }

  /** Lines are searched independently: what follows the last newline is found after all others. */
  lemma {:induction false} FindMarkersAfter(open: string, a: string, rest: string, i: nat)
    requires OneLine(open) && a != "" && a[|a| - 1] == '\n' && i <= |a|
    ensures FindMarkers(open, a + rest, i) == FindMarkers(open, a, i) + FindMarkers(open, a + rest, |a|)
    decreases |a| - i
  {
    hide OccursAt, MarkerEnd;
    var t := a + rest;
    if i < |a| {
      StartsAppend(a, rest, open, i);
      if OccursAt(a, open, i) {
        MarkerEndStops(a, rest, i + |open|);
      }
      if OccursAt(a, open, i) && MarkerEnd(a, i + |open|).Some? {
        var end := MarkerEnd(a, i + |open|).value;
        assert t[i..end] == a[i..end];
        FindMarkersAfter(open, a, rest, end);
        assert [a[i..end]] + (FindMarkers(open, a, end) + FindMarkers(open, t, |a|))
            == [a[i..end]] + FindMarkers(open, a, end) + FindMarkers(open, t, |a|);
      } else {
        FindMarkersAfter(open, a, rest, i + 1);
      }
    }
  }

  /** A body ending in a marker line: the markers of the text before it, then this one. */
  lemma FoundInBody(open: string, a: string, m: string)
    requires OneLine(open) && open != "" && a != "" && a[|a| - 1] == '\n' && IsMarker(open, m)
    ensures FindMarkers(open, a + (m + "\n"), 0) == FindMarkers(open, a, 0) + [m]
  {
    hide FindMarkers, IsMarker;
    FindMarkersAfter(open, a, m + "\n", 0);
    FoundAt(open, a, m);
  }

  lemma FoundAt(open: string, a: string, m: string)
    requires IsMarker(open, m) && OneLine(open) && open != ""
    ensures FindMarkers(open, a + (m + "\n"), |a|) == [m]
  {
    hide OccursAt, MarkerEnd, FindMarkers;
    var t := a + (m + "\n");
    PrefixOccurs(m, "\n", open);
    ShiftStarts(a, m + "\n", open, 0);
    MarkerEndAppend(m, "\n", |open|);
    MarkerEndShift(a, m + "\n", |open|);
    FindStep(open, t, |a|, |a| + |m|);
    assert t[|a|..|a| + |m|] == m;
    NoMarkerInNewline(open, t);
  }

  /** Nothing is found where the opening does not occur. */
  lemma {:induction false} NothingFound(open: string, t: string, i: nat)
    requires forall j: nat :: i <= j < |t| ==> !OccursAt(t, open, j)
    ensures FindMarkers(open, t, i) == []
    decreases |t| - i
  {
    hide OccursAt, MarkerEnd;
    if i < |t| {
      NothingFound(open, t, i + 1);
    }
  }

  /** What precedes the first occurrence of the opening is passed over. */
  lemma {:induction false} SkipsText(open: string, t: string, i: nat, n: nat)
    requires i <= n <= |t| && forall j: nat :: i <= j < n ==> !OccursAt(t, open, j)
    ensures FindMarkers(open, t, i) == FindMarkers(open, t, n)
    decreases n - i
  {
    hide OccursAt, MarkerEnd;
    if i < n {
      SkipsText(open, t, i + 1, n);
    }
  }

  /** An opening whose first character does not come back cannot start shortly before a marker. */
  lemma NotBeforeMarker(open: string, line: string, m: string, rest: string, j: nat)
    requires open != "" && (forall k :: 0 < k < |open| ==> open[k] != open[0]) && !Contains(line, open)
    requires m != "" && m[0] == open[0] && j < |line|
    ensures !OccursAt(line + (m + rest), open, j)
  {
    var t := line + (m + rest);
    OccursChars(t, open, j);
    OccursChars(line, open, j);
    assert !OccursAt(line, open, j);
    assert t[j + (|line| - j)] == open[0];
    assert forall k :: j <= k < |line| ==> t[k] == line[k];
  }

  /** A marker is found behind text on its line that does not contain the opening, whatever follows it. */
  lemma FoundInLine(open: string, line: string, m: string, rest: string)
    requires IsMarker(open, m) && open != "" && (forall k :: 0 < k < |open| ==> open[k] != open[0]) && !Contains(line, open)
    ensures m in FindMarkers(open, line + (m + rest), 0)
  {
    hide OccursAt, MarkerEnd, FindMarkers, Contains;
    var t := line + (m + rest);
    assert m[0] == m[..|open|][0];
    forall j: nat | j < |line| ensures !OccursAt(t, open, j) {
      NotBeforeMarker(open, line, m, rest, j);
    }
    SkipsText(open, t, 0, |line|);
    PrefixOccurs(m, rest, open);
    ShiftStarts(line, m + rest, open, 0);
    MarkerEndAppend(m, rest, |open|);
    MarkerEndShift(line, m + rest, |open|);
    FindStep(open, t, |line|, |line| + |m|);
    assert t[|line|..|line| + |m|] == m;
  }

  lemma PrefixOccurs(m: string, rest: string, open: string)
    requires |open| <= |m| && m[..|open|] == open
    ensures OccursAt(m + rest, open, 0)
  {
    assert (m + rest)[0..0 + |open|] == m[..|open|];
  }

  /** A marker inside a text whose earlier lines are complete. */
  lemma FoundInText(open: string, above: string, line: string, m: string, rest: string)
    requires OneLine(open) && (above == "" || above[|above| - 1] == '\n')
    requires IsMarker(open, m) && open != "" && (forall k :: 0 < k < |open| ==> open[k] != open[0]) && !Contains(line, open)
    ensures m in FindMarkers(open, above + (line + (m + rest)), 0)
  {
    hide IsMarker, FindMarkers, Contains;
    var tail := line + (m + rest);
    FoundInLine(open, line, m, rest);
    if above == "" {
      assert above + tail == tail;
    } else {
      FindMarkersAfter(open, above, tail, 0);
      FindMarkersShift(open, above, tail, 0);
    }
  }

  lemma {:induction false} FindMarkersShift(open: string, a: string, t: string, i: nat)
    ensures FindMarkers(open, a + t, |a| + i) == FindMarkers(open, t, i)
    decreases |t| - i
  {
    hide OccursAt, MarkerEnd;
    if i < |t| {
      ShiftStarts(a, t, open, i);
      MarkerEndShift(a, t, i + |open|);
      if OccursAt(t, open, i) && MarkerEnd(t, i + |open|).Some? {
        var end := MarkerEnd(t, i + |open|).value;
        assert (a + t)[|a| + i..|a| + end] == t[i..end];
        FindMarkersShift(open, a, t, end);
      } else {
        FindMarkersShift(open, a, t, i + 1);
      }
    }
  }

  lemma FindStep(open: string, t: string, i: nat, end: nat)
    requires i < |t| && OccursAt(t, open, i) && MarkerEnd(t, i + |open|) == Some(end)
    ensures FindMarkers(open, t, i) == [t[i..end]] + FindMarkers(open, t, end)
  {
  }

  lemma NoMarkerInNewline(open: string, t: string)
    requires OneLine(open) && open != "" && t != "" && t[|t| - 1] == '\n'
    ensures FindMarkers(open, t, |t| - 1) == []
  {
    hide OccursAt;
    StartsOneLine(t, open, |t| - 1, |t| - 1);
    assert FindMarkers(open, t, |t|) == [];
  }

  lemma {:induction false} MarkerEndShift(a: string, m: string, i: nat)
    ensures MarkerEnd(a + m, |a| + i) ==
            match MarkerEnd(m, i)
            case None => None
            case Some(e) => Some(|a| + e)
    decreases |m| - i
  {
    hide OccursAt;
    var t := a + m;
    if i < |m| {
      assert t[|a| + i] == m[i];
      ShiftStarts(a, m, "-->", i);
      MarkerEndShift(a, m, i + 1);
    }
  }

  lemma ShiftStarts(a: string, m: string, pattern: string, i: nat)
    ensures OccursAt(a + m, pattern, |a| + i) <==> OccursAt(m, pattern, i)
  {
    if i + |pattern| <= |m| {
      assert (a + m)[|a| + i..|a| + i + |pattern|] == m[i..i + |pattern|];
    }
  }

  lemma PrefixStarts(m: string, rest: string, pattern: string, i: nat)
    requires i + |pattern| <= |m|
    ensures OccursAt(m + rest, pattern, i) <==> OccursAt(m, pattern, i)
  {
    assert (m + rest)[i..i + |pattern|] == m[i..i + |pattern|];
  }

  // ----- Reading attributes: `\bname="([^"]*)"`

  predicate IsWord(c: char) {
    'a' <= c <= 'z' || 'A' <= c <= 'Z' || '0' <= c <= '9' || c == '_'
  }

  /** The value of the first attribute `name` at or after position `i`. */
  function AttributeFrom(m: string, name: string, i: nat): Option<string>
    decreases |m| - i
  {
    if i >= |m| then None
    else if (i == 0 || !IsWord(m[i - 1])) && OccursAt(m, name + "=\"", i) && IndexOf(m, '"', i + |name| + 2).Some? then
      Some(m[i + |name| + 2..IndexOf(m, '"', i + |name| + 2).value])
    else AttributeFrom(m, name, i + 1)
  }

  function MarkerAttribute(m: string, name: string): Option<string> {
    AttributeFrom(m, name, 0)
  }

  /** At position `i` the attribute stands with the quoted value `v`, and no letter, digit or underscore before it. */
  ghost predicate StandsAt(m: string, name: string, i: nat, v: string) {
    var k := i + |name| + 2;
    && k + |v| < |m| && m[i..k - 2] == name && m[k - 2] == '=' && m[k - 1] == '"'
    && m[k..k + |v|] == v && m[k + |v|] == '"' && Lacks(v, '"')
    && (i > 0 ==> var c := m[i - 1] as int; !(48 <= c <= 57 || 65 <= c <= 90 || 97 <= c <= 122 || c == 95))
  }

  lemma OpensIff(m: string, name: string, i: nat)
    ensures var k := i + |name| + 2;
            OccursAt(m, name + "=\"", i) <==> k <= |m| && m[i..k - 2] == name && m[k - 2] == '=' && m[k - 1] == '"'
  {
    var open, k := name + "=\"", i + |name| + 2;
    assert |open| == |name| + 2;
    if k <= |m| {
      var t := m[i..k];
      assert t[..|name|] == m[i..k - 2] && t[|name|] == m[k - 2] && t[|name| + 1] == m[k - 1];
      assert open[..|name|] == name && open[|name|] == '=' && open[|name| + 1] == '"';
      assert t == t[..|name|] + [t[|name|], t[|name| + 1]];
    }
  }

  lemma StandsChars(m: string, name: string, i: nat, v: string)
    requires StandsAt(m, name, i, v)
    ensures IndexOf(m, '"', i + |name| + 2) == Some(i + |name| + 2 + |v|)
  {
    var k := i + |name| + 2;
    assert forall j :: k <= j < k + |v| ==> m[j] == v[j - k];
  }

  lemma StandsWhen(m: string, name: string, i: nat)
    requires OccursAt(m, name + "=\"", i) && (i == 0 || !IsWord(m[i - 1])) && IndexOf(m, '"', i + |name| + 2).Some?
    ensures StandsAt(m, name, i, m[i + |name| + 2..IndexOf(m, '"', i + |name| + 2).value])
  {
    OpensIff(m, name, i);
    if i > 0 {
      WordCodes(m[i - 1]);
    }
    hide IsWord, OccursAt;
  }

  lemma StandsIff(m: string, name: string, i: nat)
    requires i < |m|
    ensures var opens := (i == 0 || !IsWord(m[i - 1])) && OccursAt(m, name + "=\"", i);
            var close := IndexOf(m, '"', i + |name| + 2);
            forall v :: StandsAt(m, name, i, v) <==> opens && close.Some? && v == m[i + |name| + 2..close.value]
  {
    var k := i + |name| + 2;
    var close := IndexOf(m, '"', k);
    var opens := (i == 0 || !IsWord(m[i - 1])) && OccursAt(m, name + "=\"", i);
    if opens && close.Some? {
      StandsWhen(m, name, i);
    }
    forall v | StandsAt(m, name, i, v) ensures opens && close.Some? && v == m[k..close.value] {
      OpensIff(m, name, i);
      StandsChars(m, name, i, v);
      StandsBoundary(m, name, i, v);
    }
  }

  lemma StandsBoundary(m: string, name: string, i: nat, v: string)
    requires StandsAt(m, name, i, v)
    ensures i == 0 || !IsWord(m[i - 1])
  {
    if i > 0 {
      WordCodes(m[i - 1]);
    }
  }

  /** The codes of the digits, the two alphabets and the underscore. */
  lemma WordCodes(c: char)
    ensures IsWord(c) <==> 48 <= c as int <= 57 || 65 <= c as int <= 90 || 97 <= c as int <= 122 || c as int == 95
  {
  }

  /** `i` is the first place of the attribute at or after `from`, and its value there is `v`. */
  ghost predicate FirstStands(m: string, name: string, from: nat, i: nat, v: string) {
    from <= i < |m| && StandsAt(m, name, i, v) && forall j: nat, w :: from <= j < i ==> !StandsAt(m, name, j, w)
  }

  /** An attribute is read exactly if it stands somewhere, and then with the value of its first place. */
  lemma AttributeIff(m: string, name: string, v: string)
    ensures MarkerAttribute(m, name) == Some(v) <==> exists i: nat :: FirstStands(m, name, 0, i, v)
  {
    AttributeFromIff(m, name, 0, v);
  }

  lemma FirstLater(m: string, name: string, from: nat, next: nat, v: string)
    requires next == from + 1 && forall w :: !StandsAt(m, name, from, w)
    ensures forall i: nat :: FirstStands(m, name, from, i, v) <==> FirstStands(m, name, next, i, v)
  {
    hide StandsAt;
  }

  lemma AttributeLater(m: string, name: string, from: nat)
    requires from < |m| && forall w :: !StandsAt(m, name, from, w)
    ensures AttributeFrom(m, name, from) == AttributeFrom(m, name, from + 1)
  {
    StandsIff(m, name, from);
    hide StandsAt, IsWord, OccursAt;
    var close := IndexOf(m, '"', from + |name| + 2);
    if close.Some? {
      assert !StandsAt(m, name, from, m[from + |name| + 2..close.value]);
    }
  }

  lemma {:induction false} AttributeFromIff(m: string, name: string, from: nat, v: string)
    ensures AttributeFrom(m, name, from) == Some(v) <==> exists i: nat :: FirstStands(m, name, from, i, v)
    decreases |m| - from
  {
    if from < |m| {
      var next := from + 1;
      AttributeFromIff(m, name, next, v);
      StandsIff(m, name, from);
      hide StandsAt, IsWord, OccursAt, IndexOf;
      if u :| StandsAt(m, name, from, u) {
        assert FirstStands(m, name, from, from, u);
        forall i: nat | FirstStands(m, name, from, i, v) ensures v == u { }
      } else {
        hide AttributeFrom, FirstStands;
        AttributeLater(m, name, from);
        FirstLater(m, name, from, next, v);
      }
    }
  }

  // ----- Writing markers

  datatype Attr = Attr(name: string, value: string)

  /** The alphabet of `SAFE_MARKER_VALUE_RE`. */
  predicate IsSafe(c: char) {
    'a' <= c <= 'z' || 'A' <= c <= 'Z' || '0' <= c <= '9' || c == '.' || c == '_' || c == '/' || c == ',' || c == '-'
  }

  predicate SafeValue(s: string) {
    forall i :: 0 <= i < |s| ==> IsSafe(s[i])
  }

  ghost predicate CleanAttr(a: Attr) {
    a.name != "" && (forall i :: 0 <= i < |a.name| ==> IsWord(a.name[i])) && SafeValue(a.value)
  }

  function RenderAttr(a: Attr): string {
    " " + a.name + "=\"" + a.value + "\""
  }

  function RenderAttrs(attrs: seq<Attr>): string {
    if attrs == [] then "" else RenderAttr(attrs[0]) + RenderAttrs(attrs[1..])
  }

  function MarkerText(head: string, attrs: seq<Attr>): string {
    head + (RenderAttrs(attrs) + " -->")
  }

  // ----- Reading back what was written

  /** A name followed by `="` cannot start before a non-word character that precedes every `=`. */
  lemma NoAttributeStart(m: string, name: string, p: nat, q: nat)
    requires name != "" && (forall i :: 0 <= i < |name| ==> IsWord(name[i]))
    requires p <= q < |m| && !IsWord(m[q]) && (m[q] != '=' || p == q) && forall r :: p <= r < q ==> m[r] != '='
    ensures !OccursAt(m, name + "=\"", p)
  {
    hide OccursAt;
    var pattern := name + "=\"";
    OccursChars(m, pattern, p);
    assert pattern[|name|] == '=' && pattern[0] == name[0];
    if p + |name| > q {
      assert pattern[q - p] == name[q - p];
    }
  }

  lemma {:induction false} SkipTo(m: string, name: string, p: nat, q: nat)
    requires name != "" && (forall i :: 0 <= i < |name| ==> IsWord(name[i]))
    requires p <= q < |m| && !IsWord(m[q]) && (m[q] != '=' || p == q) && forall r :: p <= r < q ==> m[r] != '='
    ensures AttributeFrom(m, name, p) == AttributeFrom(m, name, q + 1)
    decreases q - p
  {
    hide OccursAt;
    NoAttributeStart(m, name, p, q);
    if p < q {
      SkipTo(m, name, p + 1, q);
    }
  }

  lemma {:induction false} SkipWord(m: string, name: string, p: nat, q: nat)
    requires 0 < p <= q <= |m| && forall r :: p - 1 <= r < q - 1 ==> IsWord(m[r])
    ensures AttributeFrom(m, name, p) == AttributeFrom(m, name, q)
    decreases q - p
  {
    hide OccursAt;
    if p < q {
      SkipWord(m, name, p + 1, q);
    }
  }

  lemma StepNoStart(m: string, name: string, p: nat)
    requires p < |m| && !OccursAt(m, name + "=\"", p)
    ensures AttributeFrom(m, name, p) == AttributeFrom(m, name, p + 1)
  {
  }

  /** Where the parts of a rendered attribute lie. */
  ghost predicate Layout(m: string, p: nat, a: Attr) {
    var eq := p + 1 + |a.name|;
    var close := eq + 2 + |a.value|;
    && close < |m|
    && m[p] == ' ' && m[eq] == '=' && m[eq + 1] == '"' && m[close] == '"'
    && m[p + 1..eq] == a.name && m[eq + 2..close] == a.value
  }

  lemma AttrLayout(x: string, a: Attr, rest: string)
    ensures Layout(x + (RenderAttr(a) + rest), |x|, a) && |RenderAttr(a)| == |a.name| + |a.value| + 4
  {
    var m := x + (RenderAttr(a) + rest);
    var eq := |x| + 1 + |a.name|;
    assert m == (x + " ") + a.name + ("=\"" + a.value + "\"" + rest);
    assert m[|x| + 1..eq] == a.name;
    assert m == (x + " " + a.name + "=\"") + a.value + ("\"" + rest);
    assert m[eq + 2..eq + 2 + |a.value|] == a.value;
  }

  lemma LayoutChars(m: string, p: nat, a: Attr)
    requires Layout(m, p, a) && CleanAttr(a)
    ensures var eq := p + 1 + |a.name|;
            && (forall r :: p + 1 <= r < eq ==> m[r] == a.name[r - (p + 1)] && IsWord(m[r]))
            && (forall r :: eq + 2 <= r < eq + 2 + |a.value| ==> m[r] != '=' && m[r] != '"')
  {
    var eq := p + 1 + |a.name|;
    assert forall r :: p + 1 <= r < eq ==> m[r] == m[p + 1..eq][r - (p + 1)];
    assert forall r :: eq + 2 <= r < eq + 2 + |a.value| ==> m[r] == m[eq + 2..eq + 2 + |a.value|][r - (eq + 2)];
  }

  /** One attribute of another name is passed over. */
  lemma SkipAttr(m: string, p: nat, a: Attr, name: string)
    requires Layout(m, p, a) && CleanAttr(a) && CleanAttr(Attr(name, "")) && a.name != name
    ensures AttributeFrom(m, name, p) == AttributeFrom(m, name, p + |a.name| + |a.value| + 4)
  {
    hide Layout, AttributeFrom, CleanAttr;
    SkipAttrName(m, p, a, name);
    SkipAttrValue(m, p, a, name);
  }

  lemma SkipAttrName(m: string, p: nat, a: Attr, name: string)
    requires Layout(m, p, a) && CleanAttr(a) && CleanAttr(Attr(name, "")) && a.name != name
    ensures AttributeFrom(m, name, p) == AttributeFrom(m, name, p + 1 + |a.name|)
  {
    hide OccursAt, AttributeFrom, SafeValue;
    LayoutChars(m, p, a);
    SkipTo(m, name, p, p);
    OtherName(m, name, a.name, p + 1);
    StepNoStart(m, name, p + 1);
    SkipWord(m, name, p + 2, p + 1 + |a.name|);
  }

  lemma SkipAttrValue(m: string, p: nat, a: Attr, name: string)
    requires Layout(m, p, a) && CleanAttr(a) && CleanAttr(Attr(name, ""))
    ensures AttributeFrom(m, name, p + 1 + |a.name|) == AttributeFrom(m, name, p + |a.name| + |a.value| + 4)
  {
    hide OccursAt, AttributeFrom, SafeValue;
    LayoutChars(m, p, a);
    var eq := p + 1 + |a.name|;
    SkipTo(m, name, eq, eq);
    SkipTo(m, name, eq + 1, eq + 1);
    SkipTo(m, name, eq + 2, eq + 2 + |a.value|);
  }

  lemma OtherName(m: string, name: string, other: string, p: nat)
    requires name != other && (forall i :: 0 <= i < |name| ==> IsWord(name[i])) && (forall i :: 0 <= i < |other| ==> IsWord(other[i]))
    requires p + |other| < |m| && m[p + |other|] == '=' && forall r :: p <= r < p + |other| ==> m[r] == other[r - p]
    ensures !OccursAt(m, name + "=\"", p)
  {
    hide OccursAt;
    var pattern := name + "=\"";
    OccursChars(m, pattern, p);
    assert pattern[|name|] == '=' && forall k :: 0 <= k < |name| ==> pattern[k] == name[k];
    if |name| < |other| {
      assert m[p + |name|] == other[|name|];
    } else if |other| < |name| {
      assert pattern[|other|] == name[|other|];
    } else {
      var k :| 0 <= k < |name| && name[k] != other[k];
      assert m[p + k] == other[k];
    }
  }

  /** An attribute is read where it starts. */
  lemma ReadAttr(m: string, p: nat, a: Attr)
    requires Layout(m, p, a) && CleanAttr(a)
    ensures AttributeFrom(m, a.name, p) == Some(a.value)
  {
    LayoutChars(m, p, a);
    hide OccursAt, SafeValue;
    var v0 := p + 1 + |a.name| + 2;
    var pattern := a.name + "=\"";
    SkipTo(m, a.name, p, p);
    assert forall k :: 0 <= k < |pattern| ==> m[p + 1 + k] == pattern[k];
    OccursChars(m, pattern, p + 1);
    assert IndexOf(m, '"', v0) == Some(v0 + |a.value|);
  }

  lemma {:induction false} ScanAttrs(x: string, attrs: seq<Attr>, tail: string, k: nat)
    requires k < |attrs| && (forall i :: 0 <= i < |attrs| ==> CleanAttr(attrs[i]))
    requires forall j :: 0 <= j < k ==> attrs[j].name != attrs[k].name
    ensures AttributeFrom(x + (RenderAttrs(attrs) + tail), attrs[k].name, |x|) == Some(attrs[k].value)
    decreases k
  {
    hide AttributeFrom, RenderAttr;
    var a, rest := attrs[0], RenderAttrs(attrs[1..]);
    var m := x + (RenderAttrs(attrs) + tail);
    assert RenderAttrs(attrs) + tail == RenderAttr(a) + (rest + tail);
    AttrLayout(x, a, rest + tail);
    hide Layout;
    if k == 0 {
      ReadAttr(m, |x|, a);
    } else {
      assert CleanAttr(attrs[k]);
      SkipAttr(m, |x|, a, attrs[k].name);
      assert m == (x + RenderAttr(a)) + (rest + tail);
      ScanAttrs(x + RenderAttr(a), attrs[1..], tail, k - 1);
    }
  }

  /** Every attribute whose name is not repeated earlier is read back exactly. */
  lemma AttributeReads(head: string, attrs: seq<Attr>, k: nat)
    requires Lacks(head, '=') && k < |attrs| && (forall i :: 0 <= i < |attrs| ==> CleanAttr(attrs[i]))
    requires forall j :: 0 <= j < k ==> attrs[j].name != attrs[k].name
    ensures MarkerAttribute(MarkerText(head, attrs), attrs[k].name) == Some(attrs[k].value)
  {
    hide AttributeFrom, CleanAttr;
    BodyStartsWithSpace(attrs);
    HeadSkipped(head, RenderAttrs(attrs) + " -->", attrs[k]);
    ScanAttrs(head, attrs, " -->", k);
  }

  lemma HeadSkipped(head: string, body: string, a: Attr)
    requires Lacks(head, '=') && CleanAttr(a) && body != "" && body[0] == ' '
    ensures AttributeFrom(head + body, a.name, 0) == AttributeFrom(head + body, a.name, |head|)
  {
    hide AttributeFrom, SafeValue;
    var m := head + body;
    assert m[|head|] == ' ' && forall r :: 0 <= r < |head| ==> m[r] == head[r];
    SkipTo(m, a.name, 0, |head|);
    SkipTo(m, a.name, |head|, |head|);
  }

  lemma BodyStartsWithSpace(attrs: seq<Attr>)
    ensures (RenderAttrs(attrs) + " -->")[0] == ' '
  {
    if attrs != [] {
      assert RenderAttr(attrs[0])[0] == ' ';
    }
  }

  // ----- A rendered marker is a marker

  lemma {:induction false} EndsAtOnlyClose(m: string, i: nat)
    requires i + 3 <= |m| && m[|m| - 3..] == "-->" && (forall p :: i <= p < |m| ==> m[p] != '\n')
    requires forall p :: i <= p < |m| - 1 ==> m[p] != '>'
    ensures MarkerEnd(m, i) == Some(|m|)
    decreases |m| - i
  {
    hide OccursAt;
    if i + 3 == |m| {
      StartsWhole(m, "-->", i);
    } else {
      OccursChars(m, "-->", i);
      assert "-->"[2] == '>' && m[i + 2] != '>';
      EndsAtOnlyClose(m, i + 1);
    }
  }

  lemma StartsWhole(m: string, pattern: string, i: nat)
    requires i + |pattern| == |m| && m[i..] == pattern
    ensures OccursAt(m, pattern, i)
  {
    assert m[i..i + |pattern|] == m[i..];
  }

  lemma {:induction false} AttrsChars(attrs: seq<Attr>)
    requires forall i :: 0 <= i < |attrs| ==> CleanAttr(attrs[i])
    ensures Lacks(RenderAttrs(attrs), '>') && Lacks(RenderAttrs(attrs), '<') && OneLine(RenderAttrs(attrs))
  {
    if attrs != [] {
      AttrsChars(attrs[1..]);
      AttrChars(attrs[0]);
      hide RenderAttr;
    }
  }

  lemma AttrChars(a: Attr)
    requires CleanAttr(a)
    ensures Lacks(RenderAttr(a), '>') && Lacks(RenderAttr(a), '<') && OneLine(RenderAttr(a))
  {
    var s := RenderAttr(a);
    forall p | 0 <= p < |s| ensures s[p] != '>' && s[p] != '<' && s[p] != '\n' {
      if 1 <= p < 1 + |a.name| {
        assert s[p] == a.name[p - 1];
      } else if 3 + |a.name| <= p < 3 + |a.name| + |a.value| {
        assert s[p] == a.value[p - 3 - |a.name|];
      }
    }
  }

  lemma MarkerIsMarker(head: string, attrs: seq<Attr>)
    requires attrs != [] && (forall i :: 0 <= i < |attrs| ==> CleanAttr(attrs[i]))
    requires Lacks(head, '>') && OneLine(head)
    ensures IsMarker(head + " ", MarkerText(head, attrs))
  {
    var m := MarkerText(head, attrs);
    var body := RenderAttrs(attrs);
    AttrsChars(attrs);
    assert body[0] == ' ' by { assert RenderAttr(attrs[0])[0] == ' '; }
    assert |RenderAttr(attrs[0])| >= 4 && |body| >= 4;
    hide RenderAttrs, MarkerEnd;
    assert m == head + body + " -->";
    assert m[..|head| + 1] == head + " ";
    assert m[|m| - 3..] == "-->";
    EndsAtOnlyClose(m, |head| + 1);
  }
}

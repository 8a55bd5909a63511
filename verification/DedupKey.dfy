/**
 `sanitize_key`, `decimal_checksum` and `dedup_key` of
 packages/github-devloop-workflow/tools/workflow_board_fact.py.
 */
module DedupKey {
  import opened Digits
  import opened GitBatch
  import opened Results
  import opened Strings

  const MAX_BYTES := 512

  // ----- Splitting at slashes, letter by letter

  lemma {:induction false} IndexShift(s: string, c: char, i: nat)
    requires s != "" && i < |s|
    ensures IndexOf(s, c, i + 1) == match IndexOf(s[1..], c, i) case None => None case Some(k) => Some(k + 1)
    decreases |s| - i
  {
    if i + 1 < |s| && s[i + 1] != c {
      IndexShift(s, c, i + 1);
    }
  }

  lemma SplitCons(s: string, c: char)
    requires s != ""
    ensures var rest := Split(s[1..], c);
            Split(s, c) == if s[0] == c then [""] + rest else [[s[0]] + rest[0]] + rest[1..]
  {
    var t := s[1..];
    if s[0] == c {
      assert s[..0] == "" && s[0 + 1..] == t;
    } else {
      IndexShift(s, c, 0);
      match IndexOf(t, c, 0)
      case None => assert s == [s[0]] + t;
      case Some(k) =>
        assert s[..k + 1] == [s[0]] + t[..k] && s[k + 1 + 1..] == t[k + 1..];
    }
  }

  lemma SplitEmpty(c: char)
    ensures Split("", c) == [""]
  {
  }

  lemma {:induction false} SplitParts(s: string, c: char)
    ensures forall i :: 0 <= i < |Split(s, c)| ==> Lacks(Split(s, c)[i], c) && forall x :: x in Split(s, c)[i] ==> x in s
  {
    hide Split;
    if s == "" {
      SplitEmpty(c);
    } else {
      SplitCons(s, c);
      SplitParts(s[1..], c);
    }
  }

  lemma {:induction false} JoinSplit(s: string)
    ensures Join("/", Split(s, '/')) == s
  {
    hide Split;
    if s == "" {
      SplitEmpty('/');
    } else {
      SplitCons(s, '/');
      JoinSplit(s[1..]);
      var rest := Split(s[1..], '/');
      assert s == [s[0]] + s[1..];
      if s[0] == '/' {
        assert ([""] + rest)[1..] == rest;
        assert "" + "/" + Join("/", rest) == ['/'] + Join("/", rest);
      } else {
        var head := [s[0]] + rest[0];
        assert ([head] + rest[1..])[1..] == rest[1..];
        JoinHead(s[0], rest);
      }
    }
  }

  lemma JoinHead(c: char, parts: seq<string>)
    requires parts != []
    ensures Join("/", [[c] + parts[0]] + parts[1..]) == [c] + Join("/", parts)
  {
    var r := [[c] + parts[0]] + parts[1..];
    if |parts| > 1 {
      assert r[0] == [c] + parts[0] && r[1..] == parts[1..];
      var rest := Join("/", parts[1..]);
      assert Join("/", r) == r[0] + "/" + rest && Join("/", parts) == parts[0] + "/" + rest;
      hide Join;
      PrependChar(c, parts[0], "/", rest);
    }
  }

  lemma PrependChar(c: char, a: string, b: string, d: string)
    ensures [c] + a + b + d == [c] + (a + b + d)
  {
  }

  // ----- sanitize_key

  predicate IsSafe(c: char) {
    'A' <= c <= 'Z' || 'a' <= c <= 'z' || '0' <= c <= '9' || c in {'.', '_', '-', '/', '#'}
  }

  function Replaced(s: string): (r: string)
    ensures |r| == |s| && forall c :: c in r ==> IsSafe(c)
  {
    seq(|s|, i requires 0 <= i < |s| => if IsSafe(s[i]) then s[i] else '-')
  }

  /** Runs of slashes become one slash. */
  function Collapsed(s: string): string {
    if s == "" then ""
    else if s[0] == '/' && |s| > 1 && s[1] == '/' then Collapsed(s[1..])
    else [s[0]] + Collapsed(s[1..])
  }

  function StripLeft(s: string): string {
    if s != "" && s[0] == '/' then StripLeft(s[1..]) else s
  }

  /** `s.rstrip(chars)` */
  function StripRight(s: string, chars: set<char>): (r: string)
    ensures r <= s && (r != "" ==> r[|r| - 1] !in chars)
  {
    if s != "" && s[|s| - 1] in chars then StripRight(s[..|s| - 1], chars) else s
  }

  function WithoutDots(segment: string): string {
    if segment in {".", ".."} then "-" else segment
  }

  function AllWithoutDots(segments: seq<string>): (r: seq<string>)
    ensures |r| == |segments|
  {
    seq(|segments|, i requires 0 <= i < |segments| => WithoutDots(segments[i]))
  }

  function Trimmed(s: string): string {
    StripRight(StripLeft(Collapsed(Replaced(s))), {'/'})
  }

  function SanitizeKey(value: string): string {
    var s := Trimmed(value);
    if s == "" then "empty"
    else
      var joined := Join("/", AllWithoutDots(Split(s, '/')));
      if joined == "" then "empty" else joined
  }

  // ----- Clean keys

  predicate GoodSegment(segment: string) {
    segment != "" && segment != "." && segment != ".."
  }

  /** Non-empty, in the safe alphabet, without empty, "." or ".." segments. */
  ghost predicate Clean(key: string) {
    && key != ""
    && (forall c :: c in key ==> IsSafe(c))
    && forall i :: 0 <= i < |Split(key, '/')| ==> GoodSegment(Split(key, '/')[i])
  }

  /** No empty segment: a slash neither starts, ends nor doubles. */
  ghost predicate Spaced(s: string) {
    && (s != "" ==> s[0] != '/' && s[|s| - 1] != '/')
    && forall i :: 0 < i < |s| ==> !(s[i - 1] == '/' && s[i] == '/')
  }

  lemma {:induction false} CollapsedSpaces(s: string)
    ensures var r := Collapsed(s);
            && (forall c :: c in r ==> c in s)
            && (forall i :: 0 < i < |r| ==> !(r[i - 1] == '/' && r[i] == '/'))
            && (s != "" ==> r != "" && r[0] == s[0])
  {
    if s != "" {
      CollapsedSpaces(s[1..]);
    }
  }

  lemma {:induction false} StripLeftSuffix(s: string)
    ensures |StripLeft(s)| <= |s| && StripLeft(s) == s[|s| - |StripLeft(s)|..]
    ensures StripLeft(s) != "" ==> StripLeft(s)[0] != '/'
  {
    if s != "" && s[0] == '/' {
      StripLeftSuffix(s[1..]);
    }
  }

  lemma TrimmedSpaced(s: string)
    ensures Spaced(Trimmed(s)) && forall c :: c in Trimmed(s) ==> IsSafe(c)
  {
    hide Collapsed, StripLeft, StripRight, IsSafe;
    var a := Collapsed(Replaced(s));
    CollapsedSpaces(Replaced(s));
    var b := StripLeft(a);
    StripLeftSuffix(a);
    var d := |a| - |b|;
    assert forall i :: 0 <= i < |b| ==> b[i] == a[d + i];
    var r := StripRight(b, {'/'});
    assert forall i :: 0 <= i < |r| ==> r[i] == b[i];
    forall i | 0 < i < |r| ensures !(r[i - 1] == '/' && r[i] == '/') {
      assert r[i - 1] == a[d + i - 1] && r[i] == a[d + i];
    }
  }

  /** Segments of spaced text are non-empty, up to a slash before or after the text. */
  lemma {:induction false} SpacedSegments(s: string)
    requires forall i :: 0 < i < |s| ==> !(s[i - 1] == '/' && s[i] == '/')
    requires s != "" ==> s[|s| - 1] != '/'
    ensures var parts := Split(s, '/');
            && (forall i :: 0 < i < |parts| ==> parts[i] != "")
            && (parts[0] == "" <==> s == "" || s[0] == '/')
  {
    hide Split;
    if s == "" {
      SplitEmpty('/');
    } else {
      SplitCons(s, '/');
      SpacedSegments(s[1..]);
      var rest := Split(s[1..], '/');
      if s[0] == '/' {
        assert s[1..] != "" && s[1..][0] == s[1];
      }
    }
  }

  lemma AllWithoutDotsClean(parts: seq<string>)
    requires forall i :: 0 <= i < |parts| ==> parts[i] != "" && Lacks(parts[i], '/') && forall c :: c in parts[i] ==> IsSafe(c)
    ensures forall i :: 0 <= i < |parts| ==>
              var p := AllWithoutDots(parts)[i]; GoodSegment(p) && Lacks(p, '/') && forall c :: c in p ==> IsSafe(c)
  {
  }

  lemma {:induction false} JoinChars(parts: seq<string>)
    requires forall i :: 0 <= i < |parts| ==> forall c :: c in parts[i] ==> IsSafe(c)
    ensures forall c :: c in Join("/", parts) ==> IsSafe(c)
  {
    if |parts| > 1 {
      JoinChars(parts[1..]);
    }
  }

  lemma {:induction false} JoinNonEmpty(parts: seq<string>)
    requires parts != [] && parts[0] != ""
    ensures Join("/", parts) != ""
  {
  }

  lemma EmptyIsClean()
    ensures Clean("empty")
  {
    SplitNone("empty", '/');
  }

  lemma SanitizedIsClean(value: string)
    ensures Clean(SanitizeKey(value))
  {
    hide Split, Trimmed, IsSafe;
    var s := Trimmed(value);
    TrimmedSpaced(value);
    EmptyIsClean();
    if s != "" {
      var parts := Split(s, '/');
      SpacedSegments(s);
      SplitParts(s, '/');
      var fixed := AllWithoutDots(parts);
      AllWithoutDotsClean(parts);
      JoinNonEmpty(fixed);
      SplitJoin(fixed, '/');
      JoinChars(fixed);
    }
  }

  // ----- Clean keys are fixed points

  lemma SafeReplaced(s: string)
    requires forall c :: c in s ==> IsSafe(c)
    ensures Replaced(s) == s
  {
  }

  lemma {:induction false} SpacedCollapsed(s: string)
    requires forall i :: 0 < i < |s| ==> !(s[i - 1] == '/' && s[i] == '/')
    ensures Collapsed(s) == s
  {
    if s != "" {
      SpacedCollapsed(s[1..]);
    }
  }

  lemma {:induction false} SegmentsSpace(s: string)
    requires s != "" && forall i :: 0 < i < |Split(s, '/')| ==> Split(s, '/')[i] != ""
    ensures s[|s| - 1] != '/'
    ensures forall i :: 0 < i < |s| ==> !(s[i - 1] == '/' && s[i] == '/')
    ensures Split(s, '/')[0] == "" <==> s[0] == '/'
  {
    hide Split;
    SplitCons(s, '/');
    var parts, rest := Split(s, '/'), Split(s[1..], '/');
    forall i | 0 < i < |rest| ensures rest[i] != "" {
      assert rest[i] == parts[if s[0] == '/' then i + 1 else i];
    }
    assert forall k :: 0 <= k < |rest| && s[0] == '/' ==> parts[k + 1] == rest[k];
    if |s| == 1 {
      SplitEmpty('/');
      assert rest[0] == "";
    } else {
      SegmentsSpace(s[1..]);
    }
  }

  lemma CleanIsFixed(key: string)
    requires Clean(key)
    ensures SanitizeKey(key) == key
  {
    hide Split, IsSafe, Collapsed, Replaced;
    SafeReplaced(key);
    SegmentsSpace(key);
    SpacedCollapsed(key);
    assert key[|key| - 1] != '/' && key[0] != '/';
    assert Trimmed(key) == key;
    var parts := Split(key, '/');
    assert AllWithoutDots(parts) == parts;
    JoinSplit(key);
  }

  /** Sanitizing twice is sanitizing once. */
  lemma SanitizeIdempotent(value: string)
    ensures SanitizeKey(SanitizeKey(value)) == SanitizeKey(value)
  {
    SanitizedIsClean(value);
    CleanIsFixed(SanitizeKey(value));
  }

  // ----- Sanitizing keeps the non-empty segments

  function NonEmpty(parts: seq<string>): seq<string> {
    if parts == [] then []
    else (if parts[0] == "" then [] else [parts[0]]) + NonEmpty(parts[1..])
  }

  lemma NonEmptyCons(a: string, rest: seq<string>)
    ensures NonEmpty([a] + rest) == (if a == "" then [] else [a]) + NonEmpty(rest)
  {
    assert ([a] + rest)[1..] == rest;
  }

  lemma {:induction false} NonEmptySnoc(parts: seq<string>)
    ensures NonEmpty(parts + [""]) == NonEmpty(parts)
  {
    if parts == [] {
      NonEmptyCons("", []);
      assert parts + [""] == [""] + [];
    } else {
      assert (parts + [""])[1..] == parts[1..] + [""];
      NonEmptySnoc(parts[1..]);
    }
  }

  lemma {:induction false} AllNonEmpty(parts: seq<string>)
    requires forall i :: 0 <= i < |parts| ==> parts[i] != ""
    ensures NonEmpty(parts) == parts
  {
    if parts != [] {
      AllNonEmpty(parts[1..]);
      assert parts == [parts[0]] + parts[1..];
    }
  }

  ghost function Segments(s: string): seq<string> {
    NonEmpty(Split(s, '/'))
  }

  ghost predicate SameSegments(a: seq<string>, b: seq<string>) {
    a != [] && b != [] && a[0] == b[0] && NonEmpty(a[1..]) == NonEmpty(b[1..])
  }

  lemma SameSegmentsCons(c: char, a: seq<string>, b: seq<string>)
    requires SameSegments(a, b)
    ensures SameSegments(Consed(c, a), Consed(c, b)) && NonEmpty(a) == NonEmpty(b)
  {
    assert a == [a[0]] + a[1..] && b == [b[0]] + b[1..];
    NonEmptyCons(a[0], a[1..]);
    NonEmptyCons(b[0], b[1..]);
    var x, y := Consed(c, a), Consed(c, b);
    assert c == '/' ==> x[1..] == a && y[1..] == b;
    assert c != '/' ==> x[1..] == a[1..] && y[1..] == b[1..];
  }

  /** Two slashes delimit the segments that one does. */
  lemma DoubledSlash(a: seq<string>, b: seq<string>)
    requires SameSegments(a, b) && b[0] == ""
    ensures SameSegments(a, [""] + b)
  {
    assert b == [""] + b[1..];
    NonEmptyCons("", b[1..]);
    assert ([""] + b)[1..] == b;
  }

  lemma {:induction false} CollapsedSegments(s: string)
    ensures SameSegments(Split(Collapsed(s), '/'), Split(s, '/'))
  {
    hide Split, SameSegments;
    if s == "" {
      SplitEmpty('/');
      assert SameSegments([""], [""]) by { SingleSame(); }
    } else {
      CollapsedSegments(s[1..]);
      SplitCons(s, '/');
      var rest := Split(s[1..], '/');
      if s[0] == '/' && |s| > 1 && s[1] == '/' {
        SplitCons(s[1..], '/');
        DoubledSlash(Split(Collapsed(s[1..]), '/'), rest);
      } else {
        var t := [s[0]] + Collapsed(s[1..]);
        assert t[1..] == Collapsed(s[1..]);
        SplitCons(t, '/');
        SameSegmentsCons(s[0], Split(Collapsed(s[1..]), '/'), rest);
      }
    }
  }

  lemma SingleSame()
    ensures SameSegments([""], [""])
  {
  }

  lemma {:induction false} StripLeftSegments(s: string)
    ensures Segments(StripLeft(s)) == Segments(s)
  {
    hide Split;
    if s != "" && s[0] == '/' {
      StripLeftSegments(s[1..]);
      SplitCons(s, '/');
      NonEmptyCons("", Split(s[1..], '/'));
    }
  }

  lemma {:induction false} SplitTrailing(s: string)
    ensures Split(s + "/", '/') == Split(s, '/') + [""]
  {
    hide Split;
    SplitCons("/", '/');
    SplitEmpty('/');
    if s == "" {
      assert s + "/" == "/" && "/"[1..] == "";
    } else {
      assert (s + "/")[1..] == s[1..] + "/";
      SplitTrailing(s[1..]);
      SplitCons(s, '/');
      SplitCons(s + "/", '/');
    }
  }

  lemma {:induction false} StripRightSegments(s: string)
    ensures Segments(StripRight(s, {'/'})) == Segments(s)
  {
    hide Split;
    if s != "" && s[|s| - 1] == '/' {
      var init := s[..|s| - 1];
      StripRightSegments(init);
      assert s == init + "/";
      SplitTrailing(init);
      NonEmptySnoc(Split(init, '/'));
    }
  }

  /** Unsafe characters become dashes; the non-empty segments are kept in order, dot segments become dashes. */
  lemma SanitizeMeaning(value: string)
    ensures var segments := NonEmpty(Split(Replaced(value), '/'));
            SanitizeKey(value) == if segments == [] then "empty" else Join("/", AllWithoutDots(segments))
  {
    hide Split, Collapsed, StripLeft, StripRight, Replaced, IsSafe, AllWithoutDots, SameSegments;
    var r, s := Replaced(value), Trimmed(value);
    CollapsedSegments(r);
    SameSegmentsCons('/', Split(Collapsed(r), '/'), Split(r, '/'));
    StripLeftSegments(Collapsed(r));
    StripRightSegments(StripLeft(Collapsed(r)));
    assert NonEmpty(Split(r, '/')) == NonEmpty(Split(s, '/'));
    TrimmedSpaced(value);
    if s == "" {
      SplitEmpty('/');
      NonEmptyCons("", []);
      assert [""] + [] == [""];
    } else {
      SpacedSegments(s);
      AllNonEmpty(Split(s, '/'));
      FirstKept(Split(s, '/'));
      JoinNonEmpty(AllWithoutDots(Split(s, '/')));
    }
  }

  lemma FirstKept(parts: seq<string>)
    requires parts != [] && parts[0] != ""
    ensures AllWithoutDots(parts)[0] != ""
  {
  }

  // ----- The checksum

  const MODULUS := 4294967291

  function ChecksumOf(value: string): (r: nat)
    ensures r < MODULUS
  {
    if value == "" then 2166136261
    else
      var n := |value| - 1;
      (ChecksumOf(value[..n]) * 16777619 + value[n] as nat) % MODULUS
  }

  lemma {:induction false} DigitsBound(n: nat, k: nat)
    requires 0 < k && n < Pow10(k)
    ensures |NatText(n)| <= k
    decreases k
  {
    if n >= 10 {
      DigitsBound(n / 10, k - 1);
    }
  }

  /** `f"{n:010d}"` */
  function Padded(n: nat): (r: string)
    requires n < MODULUS
    ensures |r| == 10 && AllDigits(r) && Value(r) == n
  {
    var text := NatText(n);
    assert |text| <= 10 by {
      assert Pow10(10) == 10000000000;
      DigitsBound(n, 10);
    }
    PaddingKeepsValue(10 - |text|, text);
    NatTextValue(n);
    Zeros(10 - |text|) + text
  }

  lemma PaddingKeepsValue(k: nat, text: string)
    requires AllDigits(text)
    ensures Value(Zeros(k) + text) == Value(text)
  {
    hide Value, Pow10, Zeros;
    ZerosValue(k);
    ValueAppend(Zeros(k), text);
    assert 0 * Pow10(|text|) == 0;
  }

  /** The running remainder; `value` is ASCII, so its bytes are its characters. */
  method DecimalChecksum(value: string) returns (r: string)
    ensures |r| == 10 && r == Padded(ChecksumOf(value))
  {
    var result := 2166136261;
    for i := 0 to |value|
      invariant result == ChecksumOf(value[..i])
    {
      assert value[..i + 1][..i] == value[..i];
      result := (result * 16777619 + value[i] as nat) % MODULUS;
    }
    assert value[..|value|] == value;
    r := Padded(result);
  }

  // ----- dedup_key

  function Shortened(key: string): string
    requires |key| > MAX_BYTES
  {
    var suffix := "-" + Padded(ChecksumOf(key));
    StripRight(key[..MAX_BYTES - |suffix|], {'/', '-'}) + suffix
  }

  function Deduplicated(parts: seq<string>): string {
    var key := SanitizeKey(Join("/", parts));
    if |key| > MAX_BYTES then Shortened(key) else key
  }

  lemma {:induction false} SplitAppend(p: string, t: string)
    requires Lacks(t, '/')
    ensures var a, m := Split(p, '/'), |Split(p, '/')| - 1; Split(p + t, '/') == a[..m] + [a[m] + t]
  {
    hide Split;
    if p == "" {
      assert p + t == t;
      SplitEmpty('/');
      SplitNone(t, '/');
    } else {
      assert (p + t)[0] == p[0] && (p + t)[1..] == p[1..] + t;
      SplitCons(p, '/');
      SplitCons(p + t, '/');
      SplitAppend(p[1..], t);
      LastSegment(p[0], Split(p[1..], '/'), t);
    }
  }

  ghost function Consed(c: char, rest: seq<string>): seq<string>
    requires rest != []
  {
    if c == '/' then [""] + rest else [[c] + rest[0]] + rest[1..]
  }

  /** Extending the last segment and prepending a character commute. */
  lemma LastSegment(c: char, a: seq<string>, t: string)
    requires a != []
    ensures var m, b := |a| - 1, Consed(c, a);
            Consed(c, a[..m] + [a[m] + t]) == b[..|b| - 1] + [b[|b| - 1] + t]
  {
    var m, b := |a| - 1, Consed(c, a);
    if m == 0 && c != '/' {
      assert [c] + (a[0] + t) == [c] + a[0] + t;
    }
  }

  /** All segments of a prefix but its last are segments of the whole. */
  lemma {:induction false} SplitPrefix(p: string, t: string)
    ensures |Split(p, '/')| <= |Split(p + t, '/')|
    ensures forall i :: 0 <= i < |Split(p, '/')| - 1 ==> Split(p, '/')[i] == Split(p + t, '/')[i]
  {
    hide Split;
    if p == "" {
      SplitEmpty('/');
    } else {
      assert (p + t)[0] == p[0] && (p + t)[1..] == p[1..] + t;
      SplitCons(p, '/');
      SplitCons(p + t, '/');
      SplitPrefix(p[1..], t);
    }
  }

  lemma ShortenedIsClean(key: string)
    requires Clean(key) && |key| > MAX_BYTES
    ensures Clean(Shortened(key)) && |Shortened(key)| <= MAX_BYTES
  {
    hide Split, IsSafe, GoodSegment, StripRight;
    var digits := Padded(ChecksumOf(key));
    var suffix := "-" + digits;
    var p := StripRight(key[..MAX_BYTES - |suffix|], {'/', '-'});
    assert p <= key && key == p + key[|p|..];
    SuffixIsPlain(digits);
    SplitPrefix(p, key[|p|..]);
    SplitAppend(p, suffix);
    var segments, m := Split(p, '/'), |Split(p, '/')| - 1;
    LongIsGood(segments[m], suffix);
    forall c | c in p + suffix ensures IsSafe(c) {
    }
  }

  lemma SuffixIsPlain(digits: string)
    requires AllDigits(digits)
    ensures Lacks("-" + digits, '/') && forall c :: c in "-" + digits ==> IsSafe(c)
  {
  }

  lemma LongIsGood(a: string, suffix: string)
    requires |suffix| > 2
    ensures GoodSegment(a + suffix)
  {
    assert |a + suffix| > 2;
  }

  /** A dedup key is non-empty, at most 512 bytes, in the safe alphabet and without empty or dot segments. */
  lemma DedupKeyIsClean(parts: seq<string>)
    ensures Clean(Deduplicated(parts)) && |Deduplicated(parts)| <= MAX_BYTES
  {
    hide Clean, Shortened, SanitizeKey;
    var key := SanitizeKey(Join("/", parts));
    SanitizedIsClean(Join("/", parts));
    if |key| > MAX_BYTES {
      ShortenedIsClean(key);
    }
  }

  /** Deduplicating a dedup key changes nothing. */
  lemma DedupKeyIsFixed(parts: seq<string>)
    ensures Deduplicated([Deduplicated(parts)]) == Deduplicated(parts)
  {
    hide Clean, Shortened, SanitizeKey;
    var key := Deduplicated(parts);
    DedupKeyIsClean(parts);
    CleanIsFixed(key);
    assert Join("/", [key]) == key;
  }

  // ----- What a dedup key is

  /** The checksum before reduction: a polynomial in the bytes. */
  ghost function Polynomial(value: string): nat {
    if value == "" then 2166136261
    else
      var n := |value| - 1;
      Polynomial(value[..n]) * 16777619 + value[n] as nat
  }

  lemma RemainderStep(a: nat, c: nat)
    ensures (a % 4294967291 * 16777619 + c) % 4294967291 == (a * 16777619 + c) % 4294967291
  {
    var q := a / 4294967291;
    assert a * 16777619 + c == (a % 4294967291 * 16777619 + c) + (q * 16777619) * 4294967291;
    MultipleVanishes(a % 4294967291 * 16777619 + c, q * 16777619);
  }

  lemma MultipleVanishes(x: nat, n: nat)
    ensures (x + n * 4294967291) % 4294967291 == x % 4294967291
  {
    var q, r := x / 4294967291, x % 4294967291;
    assert x + n * 4294967291 == (q + n) * 4294967291 + r;
  }

  /** The running remainder is the remainder of the polynomial. */
  lemma {:induction false} ChecksumIsRemainder(value: string)
    ensures ChecksumOf(value) == Polynomial(value) % 4294967291
  {
    if value != "" {
      var n := |value| - 1;
      ChecksumIsRemainder(value[..n]);
      RemainderStep(Polynomial(value[..n]), value[n] as nat);
    }
  }

  lemma {:induction false} StripRightDrops(s: string, chars: set<char>)
    ensures forall i :: |StripRight(s, chars)| <= i < |s| ==> s[i] in chars
  {
    if s != "" && s[|s| - 1] in chars {
      StripRightDrops(s[..|s| - 1], chars);
    }
  }

  /**
   A dedup key of at most 512 bytes is the sanitized join. A longer one keeps the first 501 bytes without
   their trailing slashes and dashes, and ends in a dash and the ten digits of the checksum of the whole.
   */
  lemma DedupKeyIs(parts: seq<string>) returns (p: string, digits: string)
    ensures var key := SanitizeKey(Join("/", parts));
            if |key| <= 512 then Deduplicated(parts) == key
            else
              && Deduplicated(parts) == p + "-" + digits
              && |digits| == 10 && AllDigits(digits) && Value(digits) == Polynomial(key) % 4294967291
              && p <= key[..501] && (p != "" ==> p[|p| - 1] != '/' && p[|p| - 1] != '-')
              && forall i :: |p| <= i < 501 ==> key[i] == '/' || key[i] == '-'
  {
    hide SanitizeKey, ChecksumOf, Padded, Value, Polynomial;
    var key := SanitizeKey(Join("/", parts));
    p, digits := "", "";
    if |key| > 512 {
      digits := Padded(ChecksumOf(key));
      ChecksumIsRemainder(key);
      p := StripRight(key[..501], {'/', '-'});
      StripRightDrops(key[..501], {'/', '-'});
      assert forall i :: 0 <= i < 501 ==> key[..501][i] == key[i];
      assert p + ("-" + digits) == p + "-" + digits;
    }
  }

  /** Characters outside the safe alphabet become dashes, and so do the segments of one or two dots. */
  lemma ReplacedIs(s: string, parts: seq<string>)
    ensures |Replaced(s)| == |s| && forall i :: 0 <= i < |s| ==>
              Replaced(s)[i] == if 'A' <= s[i] <= 'Z' || 'a' <= s[i] <= 'z' || '0' <= s[i] <= '9' || s[i] in "._-/#" then s[i] else '-'
    ensures |AllWithoutDots(parts)| == |parts| && forall i :: 0 <= i < |parts| ==>
              AllWithoutDots(parts)[i] == if parts[i] == "." || parts[i] == ".." then "-" else parts[i]
  {
    forall c: char ensures c in {'.', '_', '-', '/', '#'} <==> c in "._-/#" {
      SafePunctuation(c);
    }
  }

  lemma SafePunctuation(c: char)
    ensures c in {'.', '_', '-', '/', '#'} <==> c in "._-/#"
  {
    var s := "._-/#";
    assert s[0] == '.' && s[1] == '_' && s[2] == '-' && s[3] == '/' && s[4] == '#';
  }
}

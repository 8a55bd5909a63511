/**
 `_read_blobs` of scripts/intent_bounded_replay/semantic_tree.py: reading the output of
 `git cat-file --batch`, with Python's slicing, splitting and `int` conversion.
 */
module GitBatch {
  import opened Digits
  import opened Ordering
  import opened Results
  import opened Strings

  // ----- Python on bytes

  /** A slice bound: negative bounds count from the end, and every bound is clamped. */
  function Bound(i: int, n: nat): (b: nat)
    ensures b <= n
  {
    if i < 0 then (if i + n < 0 then 0 else i + n) else if i > n then n else i
  }

  /** `s[i:j]` */
  function Slice(s: string, i: int, j: int): string {
    var a := Bound(i, |s|);
    var b := Bound(j, |s|);
    if a < b then s[a..b] else ""
  }

  /** A negative bound counts from the end; a bound outside the text is the nearest end. */
  lemma SliceBounds(s: string, i: int, j: int)
    ensures 0 <= i <= j <= |s| ==> Slice(s, i, j) == s[i..j]
    ensures 0 <= j <= i ==> Slice(s, i, j) == ""
    ensures i < 0 ==> Slice(s, i, j) == if i + |s| < 0 then Slice(s, 0, j) else Slice(s, i + |s|, j)
    ensures j < 0 ==> Slice(s, i, j) == if j + |s| < 0 then Slice(s, i, 0) else Slice(s, i, j + |s|)
    ensures i > |s| ==> Slice(s, i, j) == ""
    ensures j > |s| ==> Slice(s, i, j) == Slice(s, i, |s|)
  {
  }

  function IndexOf(s: string, c: char, from: nat): (r: Option<nat>)
    ensures r.Some? ==> from <= r.value < |s| && s[r.value] == c && forall i :: from <= i < r.value ==> s[i] != c
    ensures r.None? ==> forall i :: from <= i < |s| ==> s[i] != c
    decreases |s| - from
  {
    if from >= |s| then None
    else if s[from] == c then Some(from)
    else IndexOf(s, c, from + 1)
  }

  /** `s.find(c, start)`: a start beyond the end finds nothing. */
  function FindChar(s: string, c: char, start: int): Option<nat> {
    if start > |s| then None else IndexOf(s, c, Bound(start, |s|))
  }

  /** `s.split(c)` */
  function Split(s: string, c: char): (parts: seq<string>)
    ensures parts != []
    decreases |s|
  {
    match IndexOf(s, c, 0)
    case None => [s]
    case Some(i) => [s[..i]] + Split(s[i + 1..], c)
  }

  function LowerChar(c: char): char {
    if 'A' <= c <= 'Z' then c + 32 as char else c
  }

  /** `s.lower()` on bytes. */
  function Lower(s: string): string {
    seq(|s|, i requires 0 <= i < |s| => LowerChar(s[i]))
  }

  predicate IsSpace(c: char) {
    c == ' ' || '\t' <= c <= '\r'
  }

  function StripLeft(s: string): string {
    if s != "" && IsSpace(s[0]) then StripLeft(s[1..]) else s
  }

  function StripRight(s: string): string {
    if s != "" && IsSpace(s[|s| - 1]) then StripRight(s[..|s| - 1]) else s
  }

  function DropUnderscores(s: string): (r: string)
    ensures (forall i :: 0 <= i < |s| ==> IsDigit(s[i]) || s[i] == '_') ==> AllDigits(r)
  {
    if s == "" then ""
    else
      var rest := DropUnderscores(s[1..]);
      if s[0] == '_' then rest else [s[0]] + rest
  }

  /** Digits, with single underscores allowed between two of them. */
  predicate DigitGroups(s: string) {
    && s != "" && IsDigit(s[0]) && IsDigit(s[|s| - 1])
    && (forall i :: 0 <= i < |s| ==> IsDigit(s[i]) || s[i] == '_')
    && (forall i :: 0 <= i < |s| - 1 ==> !(s[i] == '_' && s[i + 1] == '_'))
  }

  /** `int(s)` on bytes: surrounding whitespace, a sign, and grouped digits. */
  function PyInt(s: string): Option<int> {
    var t := StripRight(StripLeft(s));
    var signed := t != "" && (t[0] == '+' || t[0] == '-');
    var body := if signed then t[1..] else t;
    if !DigitGroups(body) then None
    else
      var n := Value(DropUnderscores(body));
      Some(if signed && t[0] == '-' then 0 - n else n)
  }

  // ----- Reading the batch

  /** One object: its bytes and the position after it. */
  function ReadObject(output: string, cursor: int, expected: string): Result<(string, int)> {
    match FindChar(output, '\n', cursor)
    case None => Failure
    case Some(headerEnd) =>
      var parts := Split(Slice(output, cursor, headerEnd), ' ');
      if |parts| != 3 || Lower(parts[0]) != expected || parts[1] != "blob" then Failure
      else
        match PyInt(parts[2])
        case None => Failure
        case Some(size) =>
          var end := headerEnd + 1 + size;
          if end >= |output| || Slice(output, end, end + 1) != "\n" then Failure
          else Success((Slice(output, headerEnd + 1, end), end + 1))
  }

  /** The objects from `cursor` on, added to `blobs`; nothing may be left over. */
  function ReadFrom(output: string, requested: seq<string>, cursor: int, blobs: map<string, string>): Result<map<string, string>> {
    if requested == [] then (if cursor == |output| then Success(blobs) else Failure)
    else
      var (blob, next) :- ReadObject(output, cursor, requested[0]);
      ReadFrom(output, requested[1..], next, blobs[requested[0] := blob])
  }

  /** What `_read_blobs` makes of the output that Git gives for the sorted ids. */
  function BlobsOf(ids: set<string>, output: string): Result<map<string, string>> {
    if ids == {} then Success(map[]) else ReadFrom(output, Sorted(ids), 0, map[])
  }

  method ReadBlobs(ids: set<string>, output: string) returns (r: Result<map<string, string>>)
    ensures r == BlobsOf(ids, output)
  {
    hide ReadObject, Increasing;
    var requested := Sorted(ids);
    if requested == [] {
      assert ids == {};
      return Success(map[]);
    }
    assert ids != {};
    var cursor: int := 0;
    var blobs: map<string, string> := map[];
    assert requested[0..] == requested;
    for i := 0 to |requested|
      invariant ReadFrom(output, requested, 0, map[]) == ReadFrom(output, requested[i..], cursor, blobs)
    {
      assert requested[i..][0] == requested[i] && requested[i..][1..] == requested[i + 1..];
      var found := ReadObject(output, cursor, requested[i]);
      if found.Failure? {
        return Failure;
      }
      blobs := blobs[requested[i] := found.value.0];
      cursor := found.value.1;
    }
    if cursor != |output| {
      return Failure;
    }
    return Success(blobs);
  }

  // ----- What Git writes

  /** An object id as the caller passes it: lower case, without separators. */
  ghost predicate IsOid(id: string) {
    forall i :: 0 <= i < |id| ==> id[i] != ' ' && id[i] != '\n' && LowerChar(id[i]) == id[i]
  }

  ghost function Header(id: string, blob: string): string {
    id + " blob " + NatText(|blob|)
  }

  ghost function RenderObject(id: string, blob: string): string {
    Header(id, blob) + "\n" + blob + "\n"
  }

  ghost function RenderBatch(ids: seq<string>, blobs: map<string, string>): string
    requires forall i :: 0 <= i < |ids| ==> ids[i] in blobs
  {
    if ids == [] then "" else RenderObject(ids[0], blobs[ids[0]]) + RenderBatch(ids[1..], blobs)
  }

  // ----- Reading back what Git writes

  lemma {:induction false} DropNothing(s: string)
    requires AllDigits(s)
    ensures DropUnderscores(s) == s
  {
    if s != "" {
      DropNothing(s[1..]);
      assert s == [s[0]] + s[1..];
    }
  }

  lemma PyIntOfText(n: nat)
    ensures PyInt(NatText(n)) == Some(n)
  {
    var s := NatText(n);
    NatTextValue(n);
    hide NatText, Value;
    assert IsDigit(s[0]) && IsDigit(s[|s| - 1]);
    assert StripLeft(s) == s && StripRight(s) == s;
    DropNothing(s);
  }

  ghost predicate Lacks(s: string, c: char) {
    forall i :: 0 <= i < |s| ==> s[i] != c
  }

  lemma SplitNone(s: string, c: char)
    requires Lacks(s, c)
    ensures Split(s, c) == [s]
  {
    assert IndexOf(s, c, 0) == None;
  }

  lemma SplitFirst(a: string, c: char, rest: string)
    requires Lacks(a, c)
    ensures Split(a + [c] + rest, c) == [a] + Split(rest, c)
  {
    var s := a + [c] + rest;
    assert s[|a|] == c && forall i :: 0 <= i < |a| ==> s[i] == a[i];
    assert IndexOf(s, c, 0) == Some(|a|);
    assert s[..|a|] == a && s[|a| + 1..] == rest;
  }

  lemma SplitTail(s: string, c: char) returns (rest: string)
    requires |Split(s, c)| > 1
    ensures s == Split(s, c)[0] + [c] + rest && Split(rest, c) == Split(s, c)[1..]
  {
    var i := IndexOf(s, c, 0).value;
    rest := s[i + 1..];
    assert s == s[..i] + [c] + rest;
  }

  lemma SplitWhole(s: string, c: char)
    requires |Split(s, c)| == 1
    ensures Split(s, c) == [s]
  {
  }

  /** The parts hold the characters of the text and no separator. */
  lemma {:induction false} PartsLack(s: string, c: char, d: char)
    ensures forall i :: 0 <= i < |Split(s, c)| ==> Lacks(Split(s, c)[i], c) && (Lacks(s, d) ==> Lacks(Split(s, c)[i], d))
    decreases |s|
  {
    match IndexOf(s, c, 0)
    case None =>
    case Some(i) =>
      PartsLack(s[i + 1..], c, d);
  }

  /** Splitting loses nothing. */
  lemma {:induction false} SplitInjective(s: string, t: string, c: char)
    requires Split(s, c) == Split(t, c)
    ensures s == t
    decreases |s|
  {
    hide Split;
    if |Split(s, c)| > 1 {
      var a := SplitTail(s, c);
      var b := SplitTail(t, c);
      SplitInjective(a, b, c);
    } else {
      SplitWhole(s, c);
      SplitWhole(t, c);
    }
  }

  lemma {:induction false} SplitEnd(s: string, c: char)
    ensures Split(s + [c], c) == Split(s, c) + [""]
    decreases |s|
  {
    hide Split;
    match IndexOf(s, c, 0)
    case None =>
      SplitNone(s, c);
      assert s + [c] == s + [c] + "";
      SplitFirst(s, c, "");
      SplitNone("", c);
    case Some(i) =>
      var rest := s[i + 1..];
      SplitEnd(rest, c);
      assert s == s[..i] + [c] + rest && s + [c] == s[..i] + [c] + (rest + [c]);
      SplitFirst(s[..i], c, rest);
      SplitFirst(s[..i], c, rest + [c]);
  }

  lemma {:induction false} SplitJoin(parts: seq<string>, c: char)
    requires parts != [] && forall i :: 0 <= i < |parts| ==> Lacks(parts[i], c)
    ensures Split(Join([c], parts), c) == parts
  {
    hide Split;
    if |parts| == 1 {
      SplitNone(parts[0], c);
    } else {
      SplitJoin(parts[1..], c);
      SplitFirst(parts[0], c, Join([c], parts[1..]));
      assert parts == [parts[0]] + parts[1..];
    }
  }

  /** The header parses to its three fields, and has no newline. */
  ghost predicate HeaderReads(header: string, id: string, n: int) {
    && Lacks(header, '\n')
    && |Split(header, ' ')| == 3
    && Lower(Split(header, ' ')[0]) == id
    && Split(header, ' ')[1] == "blob"
    && PyInt(Split(header, ' ')[2]) == Some(n)
  }

  lemma HeaderParts(id: string, blob: string)
    requires IsOid(id)
    ensures HeaderReads(Header(id, blob), id, |blob|)
  {
    hide PyInt, NatText, Split, Lower;
    var size := NatText(|blob|);
    PyIntOfText(|blob|);
    assert Lacks(id, ' ') && Lacks(size, ' ');
    SplitThree(id, "blob", size);
    assert " " + "blob" + " " == " blob ";
    LowerOid(id);
    HeaderOneLine(id, size);
  }

  lemma HeaderOneLine(id: string, size: string)
    requires IsOid(id) && AllDigits(size)
    ensures Lacks(id + " blob " + size, '\n')
  {
  }

  lemma LowerOid(id: string)
    requires IsOid(id)
    ensures Lower(id) == id
  {
  }

  lemma SplitThree(a: string, b: string, c: string)
    requires Lacks(a, ' ') && Lacks(b, ' ') && Lacks(c, ' ')
    ensures Split(a + (" " + b + " ") + c, ' ') == [a, b, c]
  {
    hide Split;
    assert a + (" " + b + " ") + c == a + [' '] + (b + [' '] + c);
    SplitFirst(a, ' ', b + [' '] + c);
    SplitFirst(b, ' ', c);
    SplitNone(c, ' ');
  }

  lemma SliceInside(a: string, b: string, c: string)
    ensures Slice(a + b + c, |a|, |a| + |b|) == b
  {
    var s := a + b + c;
    if b != "" {
      assert s[|a|..|a| + |b|] == b;
    }
  }

  /** After a good header, the object is read iff its bytes and the newline after them are there. */
  lemma AfterHeader(s: string, cursor: nat, header: string, id: string, n: nat)
    requires HeaderReads(header, id, n)
    requires FindChar(s, '\n', cursor) == Some(cursor + |header|) && Slice(s, cursor, cursor + |header|) == header
    ensures var end := cursor + |header| + 1 + n;
            ReadObject(s, cursor, id) ==
              if end >= |s| || Slice(s, end, end + 1) != "\n" then Failure
              else Success((Slice(s, cursor + |header| + 1, end), end + 1))
  {
    hide Split, PyInt, FindChar, Slice, Lower;
  }

  /** Whatever precedes and follows it, an object is read back exactly, bytes included. */
  lemma ReadObjectInverts(before: string, id: string, blob: string, after: string)
    requires IsOid(id)
    ensures ReadObject(before + RenderObject(id, blob) + after, |before|, id)
         == Success((blob, |before + RenderObject(id, blob)|))
  {
    HeaderParts(id, blob);
    hide Header, HeaderReads, ReadObject;
    ObjectReads(before, Header(id, blob), id, blob, after);
  }

  lemma ObjectReads(before: string, header: string, id: string, blob: string, after: string)
    requires HeaderReads(header, id, |blob|)
    ensures var whole := header + "\n" + blob + "\n";
            ReadObject(before + whole + after, |before|, id) == Success((blob, |before + whole|))
  {
    hide HeaderReads, FindChar, ReadObject, Slice;
    var s := before + (header + "\n" + blob + "\n") + after;
    assert s == before + header + ("\n" + (blob + "\n" + after));
    FirstNewline(before, header, blob + "\n" + after, id, |blob|);
    SliceInside(before, header, "\n" + (blob + "\n" + after));
    assert s == (before + header + "\n") + blob + ("\n" + after);
    SliceInside(before + header + "\n", blob, "\n" + after);
    assert s == (before + header + "\n" + blob) + "\n" + after;
    SliceInside(before + header + "\n" + blob, "\n", after);
    AfterHeader(s, |before|, header, id, |blob|);
  }

  lemma FirstNewline(before: string, header: string, rest: string, id: string, n: nat)
    requires HeaderReads(header, id, n)
    ensures FindChar(before + header + ("\n" + rest), '\n', |before|) == Some(|before| + |header|)
  {
    hide Split, PyInt, Lower;
    var s := before + header + ("\n" + rest);
    var k := |before| + |header|;
    assert s[k] == '\n' && forall i :: |before| <= i < k ==> s[i] == header[i - |before|];
    assert IndexOf(s, '\n', |before|) == Some(k);
  }

  ghost predicate AllKnown(ids: seq<string>, blobs: map<string, string>) {
    forall i :: 0 <= i < |ids| ==> ids[i] in blobs && IsOid(ids[i])
  }

  ghost function Restrict(ids: seq<string>, blobs: map<string, string>, known: map<string, string>): map<string, string>
    requires AllKnown(ids, blobs)
  {
    if ids == [] then known else Restrict(ids[1..], blobs, known[ids[0] := blobs[ids[0]]])
  }

  lemma {:induction false} ReadFromInverts(before: string, ids: seq<string>, blobs: map<string, string>, known: map<string, string>, after: string)
    requires AllKnown(ids, blobs)
    ensures ReadFrom(before + RenderBatch(ids, blobs) + after, ids, |before|, known)
         == if after == "" then Success(Restrict(ids, blobs, known)) else Failure
    decreases |ids|
  {
    hide ReadObject, RenderObject, IsOid;
    if ids == [] {
      assert before + "" + after == before + after;
    } else {
      var id, blob := ids[0], blobs[ids[0]];
      var rest := RenderBatch(ids[1..], blobs);
      ReadObjectInverts(before, id, blob, rest + after);
      Reassociate(before, RenderObject(id, blob), rest, after);
      ReadFromInverts(before + RenderObject(id, blob), ids[1..], blobs, known[id := blob], after);
    }
  }

  lemma Reassociate(a: string, b: string, c: string, d: string)
    ensures a + (b + c) + d == a + b + (c + d) && a + (b + c) + d == (a + b) + c + d
  {
  }

  lemma {:induction false} RestrictIs(ids: seq<string>, blobs: map<string, string>, known: map<string, string>)
    requires AllKnown(ids, blobs)
    ensures forall k :: k in Restrict(ids, blobs, known) <==> k in ids || k in known
    ensures forall k :: k in ids ==> Restrict(ids, blobs, known)[k] == blobs[k]
    ensures forall k :: k in known && k !in ids ==> Restrict(ids, blobs, known)[k] == known[k]
  {
    if ids != [] {
      RestrictIs(ids[1..], blobs, known[ids[0] := blobs[ids[0]]]);
      assert forall k :: k in ids <==> k == ids[0] || k in ids[1..];
    }
  }

  ghost predicate Objects(blobs: map<string, string>) {
    forall id :: id in blobs ==> IsOid(id)
  }

  /** The batch that Git writes for a map of objects. */
  ghost function Batch(blobs: map<string, string>): string {
    RenderBatch(Sorted(blobs.Keys), blobs)
  }

  /** For every map from ids to arbitrary bytes, reading Git's batch gives back the map. */
  lemma ReadBlobsInverts(blobs: map<string, string>)
    requires Objects(blobs)
    ensures BlobsOf(blobs.Keys, Batch(blobs)) == Success(blobs)
  {
    hide ReadFrom, RenderBatch, Restrict, Increasing;
    var ids := Sorted(blobs.Keys);
    if blobs.Keys != {} {
      ReadFromInverts("", ids, blobs, map[], "");
      assert "" + Batch(blobs) + "" == Batch(blobs);
      RestrictIs(ids, blobs, map[]);
      assert Restrict(ids, blobs, map[]) == blobs;
    } else {
      assert blobs == map[];
    }
  }

  /** Bytes after the last object are rejected. */
  lemma TrailingBytesRejected(blobs: map<string, string>, extra: string)
    requires Objects(blobs) && blobs != map[] && extra != ""
    ensures BlobsOf(blobs.Keys, Batch(blobs) + extra) == Failure
  {
    hide ReadFrom, RenderBatch, Restrict, Increasing, IsOid;
    ReadFromInverts("", Sorted(blobs.Keys), blobs, map[], extra);
    assert "" + Batch(blobs) + extra == Batch(blobs) + extra;
    assert blobs.Keys != {};
  }

  // ----- Truncated output

  lemma TruncatedObjectRejected(before: string, id: string, blob: string, cut: string)
    requires IsOid(id) && cut < RenderObject(id, blob)
    ensures ReadObject(before + cut, |before|, id) == Failure
  {
    hide Header, HeaderReads, FindChar, ReadObject, Slice;
    var header := Header(id, blob);
    HeaderParts(id, blob);
    var whole := RenderObject(id, blob);
    assert whole == header + "\n" + (blob + "\n");
    assert cut == whole[..|cut|];
    if |cut| <= |header| {
      assert cut == header[..|cut|];
      NoHeader(before, header, cut, id, |blob|);
    } else {
      var rest := cut[|header| + 1..];
      assert cut == header + ("\n" + rest);
      assert before + cut == before + header + ("\n" + rest);
      FirstNewline(before, header, rest, id, |blob|);
      SliceInside(before, header, "\n" + rest);
      AfterHeader(before + cut, |before|, header, id, |blob|);
    }
  }

  lemma NoHeader(before: string, header: string, cut: string, id: string, n: nat)
    requires HeaderReads(header, id, n) && cut <= header
    ensures ReadObject(before + cut, |before|, id) == Failure
  {
    hide Split, PyInt, Lower, Slice;
    var s := before + cut;
    assert forall i :: |before| <= i < |s| ==> s[i] == header[i - |before|];
    assert IndexOf(s, '\n', |before|) == None;
  }

  lemma {:induction false} TruncatedFromRejected(before: string, ids: seq<string>, blobs: map<string, string>, known: map<string, string>, cut: string)
    requires AllKnown(ids, blobs) && cut < RenderBatch(ids, blobs)
    ensures ReadFrom(before + cut, ids, |before|, known) == Failure
    decreases |ids|
  {
    hide ReadObject, RenderObject, IsOid;
    if ids != [] {
      var id, blob := ids[0], blobs[ids[0]];
      var first, rest := RenderObject(id, blob), RenderBatch(ids[1..], blobs);
      if |cut| < |first| {
        assert cut < first by {
          assert cut == RenderBatch(ids, blobs)[..|cut|] == first[..|cut|];
        }
        TruncatedObjectRejected(before, id, blob, cut);
      } else {
        var tail := cut[|first|..];
        assert cut == first + tail by {
          assert cut == RenderBatch(ids, blobs)[..|cut|];
        }
        assert tail < rest by {
          assert rest == RenderBatch(ids, blobs)[|first|..];
        }
        ReadObjectInverts(before, id, blob, tail);
        assert before + cut == before + first + tail;
        TruncatedFromRejected(before + first, ids[1..], blobs, known[id := blob], tail);
      }
    }
  }

  /** Every proper prefix of Git's batch is rejected. */
  lemma TruncatedBatchRejected(blobs: map<string, string>, cut: string)
    requires Objects(blobs) && cut < Batch(blobs)
    ensures BlobsOf(blobs.Keys, cut) == Failure
  {
    hide ReadFrom, Increasing, IsOid;
    TruncatedFromRejected("", Sorted(blobs.Keys), blobs, map[], cut);
    assert "" + cut == cut;
  }

  // ----- Exactly what is accepted

  /** A header line: an id in any case, the type, and a size. */
  ghost predicate IsHeader(header: string, id: string, size: int) {
    exists name: string, digits: string ::
      && header == name + (" " + "blob" + " ") + digits
      && Lacks(name, ' ') && Lacks(digits, ' ') && Lacks(header, '\n')
      && Lower(name) == id && PyInt(digits) == Some(size)
  }

  /** An object as Git writes it: the header, its bytes and a newline. */
  ghost predicate IsObject(s: string, id: string, blob: string) {
    exists header: string :: IsHeader(header, id, |blob|) && s == header + "\n" + blob + "\n"
  }

  /** One object for every id, in order, and nothing else. */
  ghost predicate IsBatch(s: string, ids: seq<string>, blobs: map<string, string>) {
    if ids == [] then s == ""
    else
      && ids[0] in blobs
      && exists k: nat :: k <= |s| && IsObject(s[..k], ids[0], blobs[ids[0]]) && IsBatch(s[k..], ids[1..], blobs)
  }

  /** After some complete objects, the header of the next one gives a negative size. */
  ghost predicate NegativeSize(s: string, ids: seq<string>) {
    && ids != []
    && ((exists header: string, size: int :: IsHeader(header, ids[0], size) && size < 0 && header + "\n" <= s)
        || (exists k: nat, blob: string :: k <= |s| && IsObject(s[..k], ids[0], blob) && NegativeSize(s[k..], ids[1..])))
  }

  lemma SplitInThree(s: string)
    requires |Split(s, ' ')| == 3
    ensures var p := Split(s, ' '); s == p[0] + (" " + p[1] + " ") + p[2]
  {
    hide Split;
    var t := SplitTail(s, ' ');
    var u := SplitTail(t, ' ');
    SplitWhole(u, ' ');
    assert s == Split(s, ' ')[0] + [' '] + (Split(s, ' ')[1] + [' '] + Split(s, ' ')[2]);
  }

  lemma HeaderIff(header: string, id: string, n: int)
    ensures HeaderReads(header, id, n) <==> IsHeader(header, id, n)
  {
    hide Split, PyInt, Lower;
    if HeaderReads(header, id, n) {
      SplitInThree(header);
      PartsLack(header, ' ', '\n');
    }
    if IsHeader(header, id, n) {
      var name: string, digits: string :|
        && header == name + (" " + "blob" + " ") + digits
        && Lacks(name, ' ') && Lacks(digits, ' ') && Lacks(header, '\n')
        && Lower(name) == id && PyInt(digits) == Some(n);
      SplitThree(name, "blob", digits);
    }
  }

  /** The header that a successful read has seen. */
  lemma HeaderSeen(before: string, s: string, id: string)
    requires ReadObject(before + s, |before|, id).Success?
    ensures exists header: string, n: int :: HeaderReads(header, id, n) && header + "\n" <= s
  {
    hide Split, PyInt, Lower;
    var output := before + s;
    var headerEnd := FindChar(output, '\n', |before|).value;
    var header := s[..headerEnd - |before|];
    assert Slice(output, |before|, headerEnd) == header;
    assert Lacks(header, '\n') by {
      assert forall i :: 0 <= i < |header| ==> header[i] == output[|before| + i];
    }
    assert header + "\n" == s[..|header| + 1] by {
      assert s[|header|] == output[headerEnd];
    }
    var n := PyInt(Split(header, ' ')[2]).value;
    assert HeaderReads(header, id, n);
  }

  lemma SliceWithin(before: string, s: string, i: nat, j: nat)
    requires i <= j <= |s|
    ensures Slice(before + s, |before| + i, |before| + j) == s[i..j]
  {
    assert i < j ==> (before + s)[|before| + i..|before| + j] == s[i..j];
  }

  lemma ThreeParts(s: string, i: nat, j: nat, k: nat)
    requires i <= j <= k <= |s|
    ensures s[..k] == s[..i] + s[i..j] + s[j..k]
  {
  }

  lemma ObjectAt(before: string, s: string, header: string, id: string, n: nat)
    requires HeaderReads(header, id, n) && header + "\n" <= s && ReadObject(before + s, |before|, id).Success?
    ensures var (blob, next) := ReadObject(before + s, |before|, id).value;
            && |blob| == n && next == |before| + |header| + n + 2 <= |before + s|
            && s[..next - |before|] == header + "\n" + blob + "\n"
  {
    hide HeaderReads, FindChar, ReadObject, Slice;
    HeaderThere(before, s, header, id, n);
    AfterHeader(before + s, |before|, header, id, n);
    var h := |header| + 1;
    SliceWithin(before, s, h, h + n);
    SliceWithin(before, s, h + n, h + n + 1);
    ThreeParts(s, h, h + n, h + n + 1);
    assert s[..h] == header + "\n";
  }

  lemma HeaderThere(before: string, s: string, header: string, id: string, n: nat)
    requires HeaderReads(header, id, n) && header + "\n" <= s
    ensures FindChar(before + s, '\n', |before|) == Some(|before| + |header|)
    ensures Slice(before + s, |before|, |before| + |header|) == header
  {
    hide HeaderReads, FindChar, Slice;
    var rest := s[|header| + 1..];
    assert before + s == before + header + ("\n" + rest);
    FirstNewline(before, header, rest, id, n);
    SliceInside(before, header, "\n" + rest);
  }

  lemma ObjectIff(before: string, s: string, id: string)
    requires !NegativeSize(s, [id])
    ensures forall k: nat, blob :: k <= |s| ==>
              (ReadObject(before + s, |before|, id) == Success((blob, |before| + k)) <==> IsObject(s[..k], id, blob))
    ensures var r := ReadObject(before + s, |before|, id);
            r.Success? ==> |before| <= r.value.1 <= |before + s|
  {
    hide HeaderReads, ReadObject, IsHeader;
    var r := ReadObject(before + s, |before|, id);
    if r.Success? {
      HeaderSeen(before, s, id);
      var header, n :| HeaderReads(header, id, n) && header + "\n" <= s;
      HeaderIff(header, id, n);
      assert [id][0] == id;
      ObjectAt(before, s, header, id, n);
      assert IsObject(s[..r.value.1 - |before|], id, r.value.0);
    }
    forall k: nat, blob | k <= |s| && IsObject(s[..k], id, blob)
      ensures r == Success((blob, |before| + k))
    {
      var header :| IsHeader(header, id, |blob|) && s[..k] == header + "\n" + blob + "\n";
      HeaderIff(header, id, |blob|);
      ObjectReads(before, header, id, blob, s[k..]);
      assert before + s == before + s[..k] + s[k..];
    }
  }

  ghost predicate Distinct(ids: seq<string>) {
    forall i, j :: 0 <= i < j < |ids| ==> ids[i] != ids[j]
  }

  /** `m` holds what was known and one object for every id. */
  ghost predicate Extends(m: map<string, string>, known: map<string, string>, ids: seq<string>) {
    && (forall x :: x in m <==> x in known || x in ids)
    && (forall x :: x in known && x !in ids ==> m[x] == known[x])
  }

  lemma {:induction false} AcceptedFrom(before: string, s: string, ids: seq<string>, known: map<string, string>, m: map<string, string>)
    requires !NegativeSize(s, ids) && Distinct(ids)
    ensures ReadFrom(before + s, ids, |before|, known) == Success(m) <==> IsBatch(s, ids, m) && Extends(m, known, ids)
    decreases |ids|
  {
    hide IsObject, ReadObject, IsHeader;
    if ids == [] {
      if Extends(m, known, ids) {
        assert m == known;
      }
    } else {
      var id := ids[0];
      assert !NegativeSize(s, [id]);
      ObjectIff(before, s, id);
      var r := ReadObject(before + s, |before|, id);
      if r.Success? {
        var (blob, next) := r.value;
        var k := next - |before|;
        assert IsObject(s[..k], id, blob);
        assert before + s == (before + s[..k]) + s[k..];
        AcceptedFrom(before + s[..k], s[k..], ids[1..], known[id := blob], m);
      }
    }
  }

  /** Unless a header gives a negative size, the output is accepted exactly if it is a batch of the sorted ids, and with its objects. */
  lemma AcceptedIff(ids: set<string>, output: string, m: map<string, string>)
    requires ids != {} && !NegativeSize(output, Sorted(ids))
    ensures BlobsOf(ids, output) == Success(m) <==> m.Keys == ids && IsBatch(output, Sorted(ids), m)
  {
    hide ReadFrom, IsBatch, NegativeSize;
    var sorted := Sorted(ids);
    forall i, j | 0 <= i < j < |sorted| ensures sorted[i] != sorted[j] {
      if sorted[i] == sorted[j] {
        IncreasingDistinct(sorted, i, j);
      }
    }
    assert "" + output == output;
    AcceptedFrom("", output, sorted, map[], m);
    assert forall x :: x in sorted <==> x in ids;
    assert Extends(m, map[], sorted) <==> m.Keys == ids;
  }

  /** A size of minus one is not refused: the newline of the header passes for the one after the bytes. */
  lemma MinusOneAccepted(id: string, header: string)
    requires IsHeader(header, id, -1)
    ensures BlobsOf({id}, header + "\n") == Success(map[id := ""])
    ensures forall m :: !IsBatch(header + "\n", [id], m)
  {
    HeaderIff(header, id, -1);
    assert Lacks(header, '\n');
    hide HeaderReads, IsHeader, ReadObject, IsObject, Increasing;
    var s := header + "\n";
    MinusOneReads(header, id);
    SortedOne(id);
    assert ReadFrom(s, [id], 0, map[]) == ReadFrom(s, [], |s|, map[id := ""]) by {
      assert [id][0] == id && [id][1..] == [];
    }
    forall m ensures !IsBatch(s, [id], m) {
      if IsBatch(s, [id], m) {
        var k: nat :| k <= |s| && IsObject(s[..k], id, m[id]);
        OneNewline(header, k, id, m[id]);
      }
    }
  }

  lemma SortedOne(id: string)
    ensures Sorted({id}) == [id]
  {
    var sorted := Sorted({id});
    assert forall x :: x in sorted <==> x in {id};
    IncreasingUnique(sorted, [id]);
  }

  lemma OneNewline(header: string, k: nat, id: string, blob: string)
    requires Lacks(header, '\n') && k <= |header| + 1
    ensures !IsObject((header + "\n")[..k], id, blob)
  {
    hide IsHeader;
    var s := (header + "\n")[..k];
    forall other: string ensures s != other + "\n" + blob + "\n" {
      var t := other + "\n" + blob + "\n";
      assert t[|other|] == '\n';
      assert |other| < |header| ==> (header + "\n")[|other|] == header[|other|];
    }
  }

  lemma MinusOneReads(header: string, id: string)
    requires HeaderReads(header, id, -1)
    ensures ReadObject(header + "\n", 0, id) == Success(("", |header| + 1))
  {
    hide Split, PyInt, Lower;
    var s := header + "\n";
    assert IndexOf(s, '\n', 0) == Some(|header|) by {
      assert s[|header|] == '\n' && forall i :: 0 <= i < |header| ==> s[i] == header[i];
    }
    assert s[0..|header|] == header && s[|header|..|header| + 1] == "\n";
    assert Slice(s, 0, |header|) == header;
  }

  lemma MinusOneHeader()
    ensures IsHeader("ab blob -1", "ab", -1)
  {
    MinusOneRead();
    hide PyInt, Lower;
    assert "ab blob -1" == "ab" + (" " + "blob" + " ") + "-1";
  }

  lemma MinusOneRead()
    ensures PyInt("-1") == Some(-1) && Lower("ab") == "ab"
  {
    var groups := ["1"];
    assert Value("1") == 1 && Join("_", groups) == "1" && Join("", groups) == "1";
    assert "" + ("-" + "1") + "" == "-1";
    hide PyInt;
    IntReads("-1", "", "-", groups, "");
  }

  // ----- Exactly which sizes are read

  ghost predicate Blank(s: string) {
    forall i :: 0 <= i < |s| ==> s[i] in [' ', '\t', '\n', 11 as char, 12 as char, '\r']
  }

  ghost predicate Digital(groups: seq<string>) {
    groups != [] && forall i :: 0 <= i < |groups| ==> groups[i] != "" && AllDigits(groups[i])
  }

  lemma {:induction false} JoinedDigits(groups: seq<string>)
    requires Digital(groups)
    ensures AllDigits(Join("", groups))
  {
    if |groups| > 1 {
      JoinedDigits(groups[1..]);
      assert groups[0] + "" == groups[0];
    }
  }

  /** The number that sign and groups denote. */
  ghost function SignedValue(sign: string, groups: seq<string>): int
    requires Digital(groups)
  {
    JoinedDigits(groups);
    if sign == "-" then 0 - Value(Join("", groups)) else Value(Join("", groups))
  }

  ghost predicate IsSign(sign: string) {
    sign == "" || sign == "+" || sign == "-"
  }

  /** Blanks, a sign or none, groups of digits between single underscores, blanks. */
  ghost predicate IntParts(s: string, before: string, sign: string, groups: seq<string>, after: string) {
    && Blank(before) && IsSign(sign) && Digital(groups) && Blank(after)
    && s == before + (sign + Join("_", groups)) + after
  }

  ghost predicate IntText(s: string, n: int) {
    exists before: string, sign: string, groups, after: string :: IntParts(s, before, sign, groups, after) && n == SignedValue(sign, groups)
  }

  lemma {:induction false} LeftStripped(before: string, t: string)
    requires Blank(before) && (t == "" || !IsSpace(t[0]))
    ensures StripLeft(before + t) == t
  {
    if before == "" {
      assert before + t == t;
    } else {
      LeftStripped(before[1..], t);
      assert (before + t)[1..] == before[1..] + t;
    }
  }

  lemma {:induction false} RightStripped(t: string, after: string)
    requires Blank(after) && (t == "" || !IsSpace(t[|t| - 1]))
    ensures StripRight(t + after) == t
  {
    if after == "" {
      assert t + after == t;
    } else {
      var n := |after| - 1;
      RightStripped(t, after[..n]);
      assert (t + after)[..|t| + n] == t + after[..n];
    }
  }

  lemma {:induction false} LeftParts(s: string) returns (before: string)
    ensures s == before + StripLeft(s) && Blank(before)
    ensures StripLeft(s) == "" || !IsSpace(StripLeft(s)[0])
  {
    before := "";
    if s != "" && IsSpace(s[0]) {
      before := LeftParts(s[1..]);
      before := [s[0]] + before;
    }
  }

  lemma {:induction false} RightParts(s: string) returns (after: string)
    ensures s == StripRight(s) + after && Blank(after)
  {
    after := "";
    if s != "" && IsSpace(s[|s| - 1]) {
      after := RightParts(s[..|s| - 1]);
      after := after + [s[|s| - 1]];
    }
  }

  lemma {:induction false} DropJoined(a: string, b: string)
    requires AllDigits(a)
    ensures DropUnderscores(a + b) == a + DropUnderscores(b)
  {
    if a == "" {
      assert a + b == b;
    } else {
      DropJoined(a[1..], b);
      assert (a + b)[1..] == a[1..] + b && a == [a[0]] + a[1..];
    }
  }

  lemma {:induction false} GroupsRead(groups: seq<string>)
    requires Digital(groups)
    ensures DigitGroups(Join("_", groups)) && DropUnderscores(Join("_", groups)) == Join("", groups)
  {
    var a := groups[0];
    if |groups| == 1 {
      DropNothing(a);
    } else {
      GroupsRead(groups[1..]);
      var rest := Join("_", groups[1..]);
      assert a + "_" + rest == a + ("_" + rest) && ("_" + rest)[1..] == rest;
      DropJoined(a, "_" + rest);
      assert a + "" + Join("", groups[1..]) == a + Join("", groups[1..]);
      GroupBefore(a, rest);
    }
  }

  lemma GroupBefore(a: string, rest: string)
    requires a != "" && AllDigits(a) && DigitGroups(rest)
    ensures DigitGroups(a + "_" + rest)
  {
    var s := a + "_" + rest;
    assert forall i :: 0 <= i < |a| ==> s[i] == a[i];
    assert s[|a|] == '_' && forall i :: 0 <= i < |rest| ==> s[|a| + 1 + i] == rest[i];
  }

  lemma {:induction false} GroupsFound(body: string) returns (groups: seq<string>)
    requires DigitGroups(body)
    ensures Digital(groups) && body == Join("_", groups)
    decreases |body|
  {
    match IndexOf(body, '_', 0)
    case None =>
      groups := [body];
    case Some(i) =>
      var rest := body[i + 1..];
      assert i > 0 && i < |body| - 1 && body[i + 1] != '_';
      var more := GroupsFound(rest);
      groups := [body[..i]] + more;
      assert groups[1..] == more && body == body[..i] + "_" + rest;
  }

  /** A size is read exactly from the text of an integer, with its value. */
  lemma PyIntIff(s: string, n: int)
    ensures PyInt(s) == Some(n) <==> IntText(s, n)
  {
    hide PyInt, SignedValue, Join;
    if PyInt(s).Some? {
      var before, sign, groups, after := IntFound(s);
    }
    if IntText(s, n) {
      var before: string, sign: string, groups, after: string :| IntParts(s, before, sign, groups, after) && n == SignedValue(sign, groups);
      IntReads(s, before, sign, groups, after);
    }
  }

  lemma SignOf(t: string) returns (sign: string, body: string)
    ensures IsSign(sign) && t == sign + body && (sign == "-" <==> t != "" && t[0] == '-')
    ensures var signed := t != "" && (t[0] == '+' || t[0] == '-'); body == if signed then t[1..] else t
  {
    sign := if t != "" && (t[0] == '+' || t[0] == '-') then [t[0]] else "";
    body := t[|sign|..];
  }

  lemma BodyFound(s: string) returns (sign: string, body: string)
    requires PyInt(s).Some?
    ensures IsSign(sign) && StripRight(StripLeft(s)) == sign + body && DigitGroups(body)
    ensures PyInt(s) == Some(if sign == "-" then 0 - Value(DropUnderscores(body)) else Value(DropUnderscores(body)))
  {
    hide StripLeft, StripRight, DigitGroups, DropUnderscores, Value;
    sign, body := SignOf(StripRight(StripLeft(s)));
  }

  lemma IntFound(s: string) returns (before: string, sign: string, groups: seq<string>, after: string)
    requires PyInt(s).Some?
    ensures IntParts(s, before, sign, groups, after) && PyInt(s) == Some(SignedValue(sign, groups))
  {
    hide PyInt, StripLeft, StripRight, DigitGroups, DropUnderscores, Value, Join, Blank;
    before := LeftParts(s);
    after := RightParts(StripLeft(s));
    var body;
    sign, body := BodyFound(s);
    groups := GroupsFound(body);
    GroupsRead(groups);
    Assemble(s, before, StripLeft(s), sign + body, after);
  }

  lemma Assemble(s: string, a: string, t: string, u: string, b: string)
    requires s == a + t && t == u + b
    ensures s == a + u + b
  {
  }

  lemma SignedEnds(sign: string, body: string)
    requires IsSign(sign) && DigitGroups(body)
    ensures Trim(sign + body, sign == "-", body)
  {
    var t := sign + body;
    assert t[|t| - 1] == body[|body| - 1];
    assert t[0] == if sign == "" then body[0] else sign[0];
    assert sign == "" ==> t == body;
  }

  lemma Stripped(before: string, t: string, after: string)
    requires Blank(before) && Blank(after) && t != "" && !IsSpace(t[0]) && !IsSpace(t[|t| - 1])
    ensures StripRight(StripLeft(before + t + after)) == t
  {
    assert before + t + after == before + (t + after) && (t + after)[0] == t[0];
    LeftStripped(before, t + after);
    RightStripped(t, after);
  }

  /** Text that starts with a sign or a digit and ends with a digit. */
  ghost predicate Trim(t: string, negative: bool, body: string) {
    && t != "" && !IsSpace(t[0]) && !IsSpace(t[|t| - 1])
    && (t[0] == '-' <==> negative)
    && body == if t[0] == '+' || t[0] == '-' then t[1..] else t
  }

  lemma StrippedReads(s: string, t: string, negative: bool, body: string)
    requires StripRight(StripLeft(s)) == t && DigitGroups(body) && Trim(t, negative, body)
    ensures PyInt(s) == Some(if negative then 0 - Value(DropUnderscores(body)) else Value(DropUnderscores(body)))
  {
    hide StripLeft, StripRight, DigitGroups, DropUnderscores, Value;
  }

  lemma TrimReads(before: string, t: string, after: string, negative: bool, body: string)
    requires Blank(before) && DigitGroups(body) && Trim(t, negative, body) && Blank(after)
    ensures PyInt(before + t + after) == Some(if negative then 0 - Value(DropUnderscores(body)) else Value(DropUnderscores(body)))
  {
    Stripped(before, t, after);
    hide *;
    StrippedReads(before + t + after, t, negative, body);
  }

  lemma IntReads(s: string, before: string, sign: string, groups: seq<string>, after: string)
    requires IntParts(s, before, sign, groups, after)
    ensures PyInt(s) == Some(SignedValue(sign, groups))
  {
    var body := Join("_", groups);
    var negative := sign == "-";
    GroupsRead(groups);
    SignedEnds(sign, body);
    hide PyInt, DigitGroups, DropUnderscores, Value, Join, Blank, Digital, Trim, IsSign;
    TrimReads(before, sign + body, after, negative, body);
  }
}

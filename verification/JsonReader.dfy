/**
 A reader of JSON text by the grammar of RFC 8259 (sections 3 to 7, without insignificant white space),
 and what it makes of canonical bytes: the value that was encoded, with its keys in byte order.
 */
module JsonReader {
  import opened CanonicalJson
  import opened CanonicalNumber
  import opened Digits
  import opened JsonStrings
  import opened Ordering
  import opened Results
  import opened Strings

  // ----- Numbers (section 6)

  function DigitCount(b: string): (n: nat)
    ensures n <= |b| && AllDigits(b[..n]) && (n < |b| ==> !IsDigit(b[n]))
  {
    if b != "" && IsDigit(b[0]) then
      var n := DigitCount(b[1..]);
      assert b[..n + 1] == [b[0]] + b[1..][..n];
      n + 1
    else 0
  }

  /** A zero, or digits that do not start with one. */
  function ReadWhole(b: string): (r: Option<(string, string)>)
    ensures r.Some? ==> AllDigits(r.value.0) && |r.value.1| < |b|
  {
    var n := DigitCount(b);
    if n == 0 then None
    else if b[0] == '0' then Some(("0", b[1..]))
    else Some((b[..n], b[n..]))
  }

  /** A point and at least one digit, or nothing. */
  function ReadFraction(b: string): (r: Option<(string, string)>)
    ensures r.Some? ==> AllDigits(r.value.0) && |r.value.1| <= |b|
  {
    if b == "" || b[0] != '.' then Some(("", b))
    else
      var n := DigitCount(b[1..]);
      if n == 0 then None else Some((b[1..][..n], b[1..][n..]))
  }

  /** An `e`, a sign and at least one digit, or nothing. */
  function ReadExponent(b: string): (r: Option<(int, string)>)
    ensures r.Some? ==> |r.value.1| <= |b|
  {
    if b == "" || (b[0] != 'e' && b[0] != 'E') then Some((0, b))
    else
      var signed := |b| > 1 && (b[1] == '+' || b[1] == '-');
      var body := if signed then b[2..] else b[1..];
      var n := DigitCount(body);
      if n == 0 then None
      else Some((if signed && b[1] == '-' then 0 - Value(body[..n]) else Value(body[..n]), body[n..]))
  }

  function ReadNumber(b: string): (r: Option<(Number, string)>)
    ensures r.Some? ==> |r.value.1| < |b|
  {
    var negative := b != "" && b[0] == '-';
    match ReadWhole(if negative then b[1..] else b)
    case None => None
    case Some((whole, afterWhole)) =>
      match ReadFraction(afterWhole)
      case None => None
      case Some((frac, afterFraction)) =>
        match ReadExponent(afterFraction)
        case None => None
        case Some((exponent, rest)) => Some((Decimal(negative, Value(whole + frac), exponent - |frac|), rest))
  }

  // ----- Values (sections 3 to 5 and 7)

  function ReadValue(b: string): (r: Option<(Json, string)>)
    ensures r.Some? ==> |r.value.1| < |b|
    decreases |b|, 1
  {
    if b == "" then None
    else if b[0] == '"' then
      match ReadChars(b[1..])
      case None => None
      case Some((s, rest)) => Some((Str(s), rest))
    else if b[0] == '[' then
      if |b| > 1 && b[1] == ']' then Some((Arr([]), b[2..]))
      else
        match ReadItems(b[1..])
        case None => None
        case Some((items, rest)) => Some((Arr(items), rest))
    else if b[0] == '{' then
      if |b| > 1 && b[1] == '}' then Some((Obj([]), b[2..]))
      else
        match ReadMembers(b[1..])
        case None => None
        case Some((members, rest)) => Some((Obj(members), rest))
    else if "null" <= b then Some((Null, b[4..]))
    else if "true" <= b then Some((Bool(true), b[4..]))
    else if "false" <= b then Some((Bool(false), b[5..]))
    else
      match ReadNumber(b)
      case None => None
      case Some((x, rest)) => Some((Num(x), rest))
  }

  /** Values separated by commas, and the closing bracket. */
  function ReadItems(b: string): (r: Option<(seq<Json>, string)>)
    ensures r.Some? ==> |r.value.1| < |b|
    decreases |b|, 2
  {
    match ReadValue(b)
    case None => None
    case Some((item, rest)) =>
      if rest == "" then None
      else if rest[0] == ']' then Some(([item], rest[1..]))
      else if rest[0] != ',' then None
      else
        match ReadItems(rest[1..])
        case None => None
        case Some((items, end)) => Some(([item] + items, end))
  }

  /** Members separated by commas, and the closing brace. */
  function ReadMembers(b: string): (r: Option<(seq<Member>, string)>)
    ensures r.Some? ==> |r.value.1| < |b|
    decreases |b|, 2
  {
    if b == "" || b[0] != '"' then None
    else
      match ReadChars(b[1..])
      case None => None
      case Some((key, afterKey)) =>
        if afterKey == "" || afterKey[0] != ':' then None
        else
          match ReadValue(afterKey[1..])
          case None => None
          case Some((child, rest)) =>
            if rest == "" then None
            else if rest[0] == '}' then Some(([Member(key, child)], rest[1..]))
            else if rest[0] != ',' then None
            else
              match ReadMembers(rest[1..])
              case None => None
              case Some((members, end)) => Some(([Member(key, child)] + members, end))
  }

  // ----- Canonical numbers read back

  lemma {:induction false} DigitSpan(s: string, u: string)
    requires AllDigits(s) && (u == "" || !IsDigit(u[0]))
    ensures DigitCount(s + u) == |s|
  {
    if s == "" {
      assert s + u == u;
    } else {
      assert (s + u)[1..] == s[1..] + u;
      DigitSpan(s[1..], u);
    }
  }

  lemma WholeReads(s: string, u: string)
    requires AllDigits(s) && Minimal(s) && (u == "" || !IsDigit(u[0]))
    ensures ReadWhole(s + u) == Some((s, u))
  {
    DigitSpan(s, u);
    var b := s + u;
    assert b[0] == s[0] && b[..|s|] == s && b[|s|..] == u;
    if s[0] == '0' {
      assert s == "0";
    }
  }

  lemma FractionReads(frac: string, u: string)
    requires AllDigits(frac) && Stops(u)
    ensures ReadFraction(PointTail(frac) + u) == Some((frac, u))
  {
    if frac == "" {
      assert "" + u == u;
    } else {
      PointReads(frac, u);
    }
  }

  lemma PointReads(frac: string, u: string)
    requires AllDigits(frac) && frac != "" && (u == "" || !IsDigit(u[0]))
    ensures ReadFraction("." + frac + u) == Some((frac, u))
  {
    var b := "." + frac + u;
    DigitSpan(frac, u);
    hide AllDigits, DigitCount;
    assert b[0] == '.' && b[1..] == frac + u;
    assert (frac + u)[..|frac|] == frac && (frac + u)[|frac|..] == u;
  }

  /** The reader of a sign and what follows it. */
  lemma SignReads(negative: bool, unsigned: string)
    requires unsigned != "" && unsigned[0] != '-'
    ensures var b := Sign(negative) + unsigned;
            b != "" && (b[0] == '-' <==> negative) && (if negative then b[1..] else b) == unsigned
  {
    assert !negative ==> "" + unsigned == unsigned;
    assert negative ==> ("-" + unsigned)[1..] == unsigned;
  }

  lemma NoExponent(u: string)
    requires Stops(u)
    ensures ReadExponent(u) == Some((0, u))
  {
  }

  /** A whole part that is followed by a point, a delimiter or nothing. */
  lemma WholeThenFraction(p: Plain, u: string)
    requires CanonicalNumber.Canonical(p) && Stops(u)
    ensures p.whole != "" && p.whole[0] != '-'
    ensures ReadWhole(p.whole + (PointTail(p.frac) + u)) == Some((p.whole, PointTail(p.frac) + u))
  {
    hide Value;
    WholeReads(p.whole, PointTail(p.frac) + u);
  }

  lemma NumberSteps(b: string, negative: bool, unsigned: string, whole: string, tail: string, frac: string, rest: string)
    requires b != "" && (b[0] == '-' <==> negative) && unsigned == if negative then b[1..] else b
    requires ReadWhole(unsigned) == Some((whole, tail)) && ReadFraction(tail) == Some((frac, rest)) && ReadExponent(rest) == Some((0, rest))
    ensures ReadNumber(b) == Some((Decimal(negative, Value(whole + frac), 0 - |frac|), rest))
  {
    hide Value, ReadWhole, ReadFraction, ReadExponent;
  }

  lemma Regroup(a: string, b: string, c: string, d: string)
    ensures a + (b + c) + d == a + (b + (c + d))
  {
  }

  lemma PlainReads(p: Plain, u: string)
    requires CanonicalNumber.Canonical(p) && Stops(u)
    ensures ReadNumber(Show(p) + u) == Some((Decimal(p.negative, Value(p.whole + p.frac), 0 - |p.frac|), u))
  {
    hide Value, Stops, ReadWhole, ReadFraction, ReadExponent, ReadNumber, AllDigits, Minimal, Sign, PointTail;
    var tail := PointTail(p.frac) + u;
    WholeThenFraction(p, u);
    FractionReads(p.frac, u);
    NoExponent(u);
    SignReads(p.negative, p.whole + tail);
    Regroup(Sign(p.negative), p.whole, PointTail(p.frac), u);
    NumberSteps(Show(p) + u, p.negative, p.whole + tail, p.whole, tail, p.frac, u);
  }

  lemma NumberReads(x: Number, u: string)
    requires CanonicalText(x).Success? && Stops(u)
    ensures var r := ReadNumber(CanonicalText(x).value + u);
            r.Some? && r.value.1 == u && SameNumber(x, r.value.0)
  {
    CanonicalTextIffSame(x, x);
    hide CanonicalText, Value, FractionOf, Equal, ReadNumber, Show, Read, Stops;
    var p := CanonicalTextReadsBack(x);
    PlainReads(p, u);
    PlainValue(p);
    EqualSym(Read(p), FractionOf(x));
  }

  /** The number that is read denotes what the notation denotes. */
  lemma PlainValue(p: Plain)
    requires AllDigits(p.whole) && AllDigits(p.frac)
    ensures FractionOf(Decimal(p.negative, Value(p.whole + p.frac), 0 - |p.frac|)) == Read(p)
  {
    assert Pow10(0) == 1;
  }

  // ----- Canonical values read back

  /** In every object the bytes of the keys increase. */
  ghost predicate KeysSorted(w: Json) {
    match w
    case Arr(items) => forall i :: 0 <= i < |items| ==> KeysSorted(items[i])
    case Obj(ms) =>
      && (forall i :: 0 <= i < |ms| ==> EncodeUtf8(ms[i].key).Success? && KeysSorted(ms[i].child))
      && (forall i, j :: 0 <= i < j < |ms| ==> Lt(EncodeUtf8(ms[i].key).value, EncodeUtf8(ms[j].key).value))
    case _ => true
  }

  ghost predicate ReadsAs(r: Option<(Json, string)>, v: Json, u: string) {
    r.Some? && r.value.1 == u && Same(v, r.value.0) && KeysSorted(r.value.0)
  }

  /**
   Whatever delimiter follows, reading the canonical bytes of a value gives back the same JSON value,
   with the keys of every object in increasing order of their bytes.
   */
  lemma {:induction false} CanonicalReadsBack(v: Json, u: string)
    requires CanonicalJson.Canonical(v).Success? && Stops(u)
    ensures ReadsAs(ReadValue(CanonicalJson.Canonical(v).value + u), v, u)
    decreases v, 1
  {
    hide CanonicalJson.Canonical, ReadValue, ReadsAs;
    match v
    case Arr(items) => ArrayReads(v, u);
    case Obj(members) => ObjectReads(v, u);
    case Num(x) => NumReads(v, u);
    case Str(_) => StrReads(v, u);
    case _ => WordReads(v, u);
  }

  lemma NumReads(v: Json, u: string)
    requires v.Num? && CanonicalJson.Canonical(v).Success? && Stops(u)
    ensures ReadsAs(ReadValue(CanonicalJson.Canonical(v).value + u), v, u)
  {
    var t := CanonicalText(v.x).value;
    CanonicalTextChars(v.x);
    NumberReads(v.x, u);
    assert (t + u)[0] == t[0];
    hide ReadNumber, ReadValue, SameNumber, CanonicalText, NumberChar;
    NumberValue(t + u);
  }

  lemma NumberValue(b: string)
    requires b != "" && NumberChar(b[0]) && ReadNumber(b).Some?
    ensures ReadValue(b) == Some((Num(ReadNumber(b).value.0), ReadNumber(b).value.1))
  {
    NoLiteral(b);
    hide ReadNumber, ReadChars, ReadItems, ReadMembers;
  }

  lemma StrReads(v: Json, u: string)
    requires v.Str? && CanonicalJson.Canonical(v).Success?
    ensures ReadsAs(ReadValue(CanonicalJson.Canonical(v).value + u), v, u)
  {
    var body := EncodeChars(v.s).value;
    assert CanonicalJson.Canonical(v).value == "\"" + body + "\"";
    hide CanonicalJson.Canonical, ReadValue, ReadsAs, EncodeChars, ReadChars;
    var b := "\"" + body + "\"" + u;
    Bracketed('"', body, '"', u);
    assert body + (['"'] + u) == body + "\"" + u;
    CharsReadBack(v.s, u);
    StringValue(v.s, b, u);
  }

  lemma StringValue(s: Text, b: string, u: string)
    requires b != "" && b[0] == '"' && ReadChars(b[1..]) == Some((s, u))
    ensures ReadsAs(ReadValue(b), Str(s), u)
  {
    hide ReadNumber, ReadChars, ReadItems, ReadMembers;
  }

  lemma WordReads(v: Json, u: string)
    requires (v.Null? || v.Bool? || v.Foreign?) && CanonicalJson.Canonical(v).Success?
    ensures ReadsAs(ReadValue(CanonicalJson.Canonical(v).value + u), v, u)
  {
    var word := if v.Null? then "null" else if v.b then "true" else "false";
    assert CanonicalJson.Canonical(v).value == word;
    LiteralReads(word, u);
    hide CanonicalJson.Canonical, ReadValue;
    LiteralValue(v, word + u, u);
  }

  lemma LiteralValue(v: Json, b: string, u: string)
    requires b != "" && (b[0] == 'n' || b[0] == 't' || b[0] == 'f')
    requires v.Null? || v.Bool?
    requires "null" <= b <==> v.Null?
    requires "true" <= b <==> v.Bool? && v.b
    requires "false" <= b <==> v.Bool? && !v.b
    requires |b| >= 4 && (v.Bool? && !v.b ==> |b| >= 5) && b[if v.Bool? && !v.b then 5 else 4..] == u
    ensures ReadValue(b) == Some((v, u))
  {
    hide ReadNumber, ReadChars, ReadItems, ReadMembers;
  }

  lemma LiteralReads(word: string, u: string)
    requires word in ["null", "true", "false"]
    ensures (word + u)[|word|..] == u && word <= word + u && (word + u)[0] == word[0] && |word| == if word == "false" then 5 else 4
    ensures word + u != "" && (word[0] == 'n' || word[0] == 't' || word[0] == 'f')
    ensures (word == "null" <==> "null" <= word + u) && (word == "true" <==> "true" <= word + u) && (word == "false" <==> "false" <= word + u)
  {
    assert "null"[0] == 'n' && "true"[0] == 't' && "false"[0] == 'f';
  }

  lemma NoLiteral(b: string)
    requires b != "" && NumberChar(b[0])
    ensures !("null" <= b) && !("true" <= b) && !("false" <= b)
  {
    assert "null"[0] == 'n' && "true"[0] == 't' && "false"[0] == 'f';
  }

  lemma {:induction false} ArrayReads(v: Json, u: string)
    requires v.Arr? && CanonicalJson.Canonical(v).Success? && Stops(u)
    ensures ReadsAs(ReadValue(CanonicalJson.Canonical(v).value + u), v, u)
    decreases v, 0
  {
    var items := v.items;
    var texts := CanonicalItems(items).value;
    var b := CanonicalJson.Canonical(v).value + u;
    ItemsHead(items);
    Bracketed('[', Join(",", texts), ']', u);
    hide CanonicalJson.Canonical, CanonicalItems;
    if items == [] {
      assert Join(",", texts) + ("]" + u) == "]" + u;
      assert b[1..][0] == ']' && b[1..][1..] == u && b[2..] == b[1..][1..];
    } else {
      JoinFirst(texts, "]" + u);
      assert b[1..][0] == texts[0][0];
      var ws := ItemsRead(items, u);
    }
  }

  lemma {:induction false} ItemsRead(items: seq<Json>, u: string) returns (ws: seq<Json>)
    requires items != [] && CanonicalItems(items).Success?
    ensures ReadItems(Join(",", CanonicalItems(items).value) + ("]" + u)) == Some((ws, u))
    ensures |ws| == |items| && forall i :: 0 <= i < |items| ==> Same(items[i], ws[i]) && KeysSorted(ws[i])
    decreases items, 0
  {
    hide Same, KeysSorted, ReadValue;
    var texts := CanonicalItems(items).value;
    ItemsHead(items);
    var after := AfterFirst(texts, "]" + u);
    JoinFirst(texts, "]" + u);
    CanonicalReadsBack(items[0], after);
    var first := ReadValue(texts[0] + after).value.0;
    if |items| == 1 {
      assert after[1..] == u;
      ws := [first];
    } else {
      assert texts[1..] == CanonicalItems(items[1..]).value;
      assert after[0] == ',' && after[1..] == Join(",", texts[1..]) + ("]" + u);
      var rest := ItemsRead(items[1..], u);
      ws := [first] + rest;
      assert items == [items[0]] + items[1..];
    }
  }

  lemma {:induction false} ObjectReads(v: Json, u: string)
    requires v.Obj? && CanonicalJson.Canonical(v).Success? && Stops(u)
    ensures ReadsAs(ReadValue(CanonicalJson.Canonical(v).value + u), v, u)
    decreases v, 0
  {
    hide CanonicalJson.Canonical, CanonicalMembers, SortKeyed, EntriesOf, FromMembers, Texts, DistinctNames, Same, KeysSorted, ReadMembers;
    var r := ObjectEntries(v);
    var b := CanonicalJson.Canonical(v).value + u;
    Bracketed('{', Join(",", Texts(r)), '}', u);
    if r == [] {
      assert Texts(r) == [] by { NoTexts(); }
      assert Join(",", []) + ("}" + u) == "}" + u;
      assert b[1..][0] == '}' && b[1..][1..] == u && b[2..] == b[1..][1..];
      ReadObjectSame(v, r, []);
    } else {
      FirstText(v, r, u);
      assert b[1..][0] == '"';
      var ms := MembersRead(v, r, u);
      ReadObjectSame(v, r, ms);
    }
  }

  lemma NoTexts()
    ensures Texts([]) == []
  {
  }

  lemma FirstText(v: Json, r: seq<Keyed<Entry>>, u: string)
    requires v.Obj? && r != [] && FromMembers(v.members, r[0])
    ensures var b := Join(",", Texts(r)) + ("}" + u); b != "" && b[0] == '"'
  {
    EntryHead(v.members, r[0]);
    hide FromMembers;
    JoinFirst(Texts(r), "}" + u);
  }

  lemma {:induction false} MembersRead(v: Json, r: seq<Keyed<Entry>>, u: string) returns (ms: seq<Member>)
    requires v.Obj? && r != [] && forall k :: 0 <= k < |r| ==> FromMembers(v.members, r[k])
    ensures ReadMembers(Join(",", Texts(r)) + ("}" + u)) == Some((ms, u))
    ensures |ms| == |r| && forall k :: 0 <= k < |r| ==> MemberRead(r[k], ms[k])
    decreases v, 0, |r|
  {
    hide FromMembers, MemberRead, ReadMembers;
    var texts := Texts(r);
    var after := AfterFirst(texts, "}" + u);
    JoinFirst(texts, "}" + u);
    var first := MemberReads(v, r[0], after);
    if |r| == 1 {
      assert after[0] == '}' && after[1..] == u;
      ms := [first];
    } else {
      assert texts[1..] == Texts(r[1..]);
      assert after[0] == ',' && after[1..] == Join(",", Texts(r[1..])) + ("}" + u);
      var rest := MembersRead(v, r[1..], u);
      ms := [first] + rest;
      assert r == [r[0]] + r[1..];
    }
  }

  /** The member that is read for an entry. */
  ghost predicate MemberRead(e: Keyed<Entry>, m: Member) {
    m.key == e.value.member.key && Same(e.value.member.child, m.child) && KeysSorted(m.child)
  }

  lemma {:induction false} MemberReads(v: Json, e: Keyed<Entry>, after: string) returns (m: Member)
    requires v.Obj? && FromMembers(v.members, e) && Stops(after) && after != "" && after[0] != ']'
    ensures MemberRead(e, m)
    ensures ReadMembers(e.value.text + after) ==
              if after[0] == '}' then Some(([m], after[1..]))
              else match ReadMembers(after[1..])
                   case None => None
                   case Some((rest, end)) => Some(([m] + rest, end))
    decreases v, 0, 0
  {
    hide CanonicalJson.Canonical, EncodeUtf8, Same, KeysSorted, ReadValue, ReadChars, EncodeChars;
    var i :| 0 <= i < |v.members| && EntryOf(v.members[i], e);
    var x := v.members[i];
    var name, child := EncodeChars(x.key).value, CanonicalJson.Canonical(x.child).value;
    var b := e.value.text + after;
    CanonicalReadsBack(x.child, after);
    m := Member(x.key, ReadValue(child + after).value.0);
    var colon := ":" + (child + after);
    assert b == "\"" + (name + "\"" + colon);
    CharsReadBack(x.key, colon);
    assert b[1..] == name + "\"" + colon;
    assert colon[1..] == child + after;
  }

  lemma ReadObjectSame(v: Json, r: seq<Keyed<Entry>>, ms: seq<Member>)
    requires v.Obj? && DistinctNames(v.members) && EntriesOf(v.members, r)
    requires |ms| == |r| && forall k :: 0 <= k < |r| ==> MemberRead(r[k], ms[k])
    ensures Same(v, Obj(ms)) && KeysSorted(Obj(ms))
  {
    hide KeysSorted, EntriesOf, MemberRead, DistinctNames, HasKey;
    ReadKeysSorted(v.members, r, ms);
    ReadKeys(v.members, r, ms);
    forall i, k | 0 <= i < |v.members| && 0 <= k < |ms| && v.members[i].key == ms[k].key
      ensures Same(v.members[i].child, ms[k].child)
    {
      ReadChild(v.members, r, ms, i, k);
    }
  }

  lemma ReadKeys(xs: seq<Member>, r: seq<Keyed<Entry>>, ms: seq<Member>)
    requires EntriesOf(xs, r) && |ms| == |r| && forall k :: 0 <= k < |r| ==> MemberRead(r[k], ms[k])
    ensures forall i :: 0 <= i < |xs| ==> HasKey(ms, xs[i].key)
    ensures forall k :: 0 <= k < |ms| ==> HasKey(xs, ms[k].key)
  {
    hide CanonicalJson.Canonical, CanonicalString, EncodeUtf8, Increasing, KeysSorted, Same;
    forall i | 0 <= i < |xs| ensures HasKey(ms, xs[i].key) {
      assert HasEntry(r, xs[i]);
      var k :| 0 <= k < |r| && r[k].value.member == xs[i];
      assert MemberRead(r[k], ms[k]);
    }
    forall k | 0 <= k < |ms| ensures HasKey(xs, ms[k].key) {
      assert FromMembers(xs, r[k]) && MemberRead(r[k], ms[k]);
    }
  }

  lemma ReadChild(xs: seq<Member>, r: seq<Keyed<Entry>>, ms: seq<Member>, i: nat, k: nat)
    requires DistinctNames(xs) && EntriesOf(xs, r) && |ms| == |r| && i < |xs| && k < |ms|
    requires MemberRead(r[k], ms[k]) && xs[i].key == ms[k].key
    ensures Same(xs[i].child, ms[k].child)
  {
    hide CanonicalJson.Canonical, CanonicalString, EncodeUtf8, Increasing, KeysSorted, Same, HasEntry;
    assert FromMembers(xs, r[k]);
    var j :| 0 <= j < |xs| && EntryOf(xs[j], r[k]);
    assert i == j;
  }

  lemma ReadKeysSorted(xs: seq<Member>, r: seq<Keyed<Entry>>, ms: seq<Member>)
    requires EntriesOf(xs, r) && |ms| == |r| && forall k :: 0 <= k < |r| ==> MemberRead(r[k], ms[k])
    ensures KeysSorted(Obj(ms))
  {
    hide CanonicalJson.Canonical, CanonicalString, EncodeUtf8, Lt, Same;
    forall k | 0 <= k < |ms| ensures EncodeUtf8(ms[k].key) == Success(r[k].key) && KeysSorted(ms[k].child) {
      assert FromMembers(xs, r[k]) && MemberRead(r[k], ms[k]);
    }
    hide FromMembers, HasEntry;
    forall i, j | 0 <= i < j < |ms| ensures Lt(r[i].key, r[j].key) {
      assert Keys(r)[i] == r[i].key && Keys(r)[j] == r[j].key;
    }
  }
}

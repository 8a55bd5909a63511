/**
 `_frame_fields` of scripts/intent_bounded_replay/semantic_tree.py: every field is its length as an
 unsigned 64-bit big-endian number followed by its bytes, so that a stream of records of one arity
 can be read back in one way only.
 */
module Framing {
  import opened Results

  const WORD: nat := 0x1_0000_0000_0000_0000

  /** The last `k` bytes of `n`, most significant first. */
  function BigEndian(n: nat, k: nat): (s: string)
    ensures |s| == k && forall i :: 0 <= i < k ==> s[i] as int < 256
  {
    if k == 0 then "" else BigEndian(n / 256, k - 1) + [(n % 256) as char]
  }

  /** `struct.pack(">Q", n)`, which raises above 64 bits. */
  function PackU64(n: nat): Result<string> {
    if n < WORD then Success(BigEndian(n, 8)) else Failure
  }

  function Frame(fields: seq<string>): Result<string> {
    if fields == [] then Success("")
    else
      var length :- PackU64(|fields[0]|);
      var rest :- Frame(fields[1..]);
      Success(length + fields[0] + rest)
  }

  method FrameFields(fields: seq<string>) returns (framed: Result<string>)
    ensures framed == Frame(fields)
  {
    var buffer := "";
    assert fields[0..] == fields && "" + (if Frame(fields).Success? then Frame(fields).value else "")
      == if Frame(fields).Success? then Frame(fields).value else "";
    for i := 0 to |fields|
      invariant Frame(fields) == Prepend(buffer, Frame(fields[i..]))
    {
      var length := PackU64(|fields[i]|);
      if length.Failure? {
        return Failure;
      }
      FrameStep(fields, i, buffer);
      buffer := buffer + length.value;
      buffer := buffer + fields[i];
    }
    assert fields[|fields|..] == [] && buffer + "" == buffer;
    return Success(buffer);
  }

  ghost function Prepend(prefix: string, r: Result<string>): Result<string> {
    match r
    case Success(s) => Success(prefix + s)
    case Failure => Failure
  }

  lemma FrameStep(fields: seq<string>, i: nat, buffer: string)
    requires i < |fields| && PackU64(|fields[i]|).Success?
    ensures Prepend(buffer, Frame(fields[i..])) ==
            Prepend(buffer + PackU64(|fields[i]|).value + fields[i], Frame(fields[i + 1..]))
  {
    assert fields[i..][0] == fields[i] && fields[i..][1..] == fields[i + 1..];
    var rest := Frame(fields[i + 1..]);
    if rest.Success? {
      var length := PackU64(|fields[i]|).value;
      assert buffer + (length + fields[i] + rest.value) == buffer + length + fields[i] + rest.value;
    }
  }

  lemma {:induction false} BigEndianInjective(m: nat, n: nat, k: nat)
    requires BigEndian(m, k) == BigEndian(n, k) && m < Pow256(k) && n < Pow256(k)
    ensures m == n
  {
    if k > 0 {
      var a, b := BigEndian(m, k), BigEndian(n, k);
      assert a[..k - 1] == BigEndian(m / 256, k - 1) && b[..k - 1] == BigEndian(n / 256, k - 1);
      assert a[k - 1] as int == m % 256 && b[k - 1] as int == n % 256;
      BigEndianInjective(m / 256, n / 256, k - 1);
    }
  }

  ghost function Pow256(k: nat): nat {
    if k == 0 then 1 else 256 * Pow256(k - 1)
  }

  lemma PackU64Injective(m: nat, n: nat)
    requires PackU64(m).Success? && PackU64(n).Success? && PackU64(m) == PackU64(n)
    ensures m == n
  {
    WordBound();
    BigEndianInjective(m, n, 8);
  }

  /** Two framed field lists of one length are equal, as bytes followed by anything, only if they are equal. */
  lemma {:induction false} FramePrefix(a: seq<string>, b: seq<string>, u: string, v: string)
    requires |a| == |b| && Frame(a).Success? && Frame(b).Success?
    requires Frame(a).value + u == Frame(b).value + v
    ensures a == b && u == v
  {
    if a == [] {
      assert Frame(a).value + u == u && Frame(b).value + v == v;
    } else {
      var ra, rb := Frame(a[1..]).value, Frame(b[1..]).value;
      FieldPrefix(a[0], b[0], ra + u, rb + v, Frame(a).value + u);
      FramePrefix(a[1..], b[1..], u, v);
      assert a == [a[0]] + a[1..] && b == [b[0]] + b[1..];
    }
  }

  lemma FieldPrefix(f: string, g: string, r: string, s: string, whole: string)
    requires PackU64(|f|).Success? && PackU64(|g|).Success?
    requires whole == PackU64(|f|).value + f + r && whole == PackU64(|g|).value + g + s
    ensures f == g && r == s
  {
    assert PackU64(|f|).value == whole[..8] && PackU64(|g|).value == whole[..8];
    PackU64Injective(|f|, |g|);
    hide PackU64;
    var tail := whole[8..];
    assert tail == f + r && tail == g + s;
    assert f == tail[..|f|] && g == tail[..|f|] && r == tail[|f|..] && s == tail[|f|..];
  }

  /** `b"".join(_frame_fields(record) for record in records)` */
  function Stream(records: seq<seq<string>>): Result<string> {
    if records == [] then Success("")
    else
      var first :- Frame(records[0]);
      var rest :- Stream(records[1..]);
      Success(first + rest)
  }

  ghost predicate Arity(records: seq<seq<string>>, n: nat) {
    forall i :: 0 <= i < |records| ==> |records[i]| == n
  }

  lemma FrameLength(fields: seq<string>)
    requires Frame(fields).Success? && fields != []
    ensures |Frame(fields).value| >= 8
  {
  }

  /** A stream of records of one positive arity determines the records and their order. */
  lemma {:induction false} StreamInjective(r: seq<seq<string>>, s: seq<seq<string>>, n: nat)
    requires n > 0 && Arity(r, n) && Arity(s, n)
    requires Stream(r).Success? && Stream(s).Success? && Stream(r) == Stream(s)
    ensures r == s
  {
    if r == [] || s == [] {
      if r != [] { FrameLength(r[0]); }
      if s != [] { FrameLength(s[0]); }
    } else {
      FramePrefix(r[0], s[0], Stream(r[1..]).value, Stream(s[1..]).value);
      StreamInjective(r[1..], s[1..], n);
      assert r == [r[0]] + r[1..] && s == [s[0]] + s[1..];
    }
  }

  // ----- Reading a frame

  /** An unsigned number, most significant byte first. */
  ghost function BigValue(s: string): nat {
    if s == "" then 0 else BigValue(s[..|s| - 1]) * 256 + s[|s| - 1] as nat
  }

  lemma {:induction false} BigEndianReads(n: nat, k: nat)
    requires n < Pow256(k)
    ensures BigValue(BigEndian(n, k)) == n
  {
    if k > 0 {
      var s := BigEndian(n, k);
      assert s[..k - 1] == BigEndian(n / 256, k - 1);
      assert s[k - 1] as int == n % 256;
      BigEndianReads(n / 256, k - 1);
    }
  }

  /** Reads `k` fields: for each, eight bytes with its length and that many bytes. */
  ghost function ReadFields(b: string, k: nat): Option<(seq<string>, string)>
    decreases k
  {
    if k == 0 then Some(([], b))
    else if |b| < 8 || |b| < 8 + BigValue(b[..8]) then None
    else
      var n := BigValue(b[..8]);
      match ReadFields(b[8 + n..], k - 1)
      case None => None
      case Some((fields, rest)) => Some(([b[8..8 + n]] + fields, rest))
  }

  lemma WordBound()
    ensures Pow256(8) == WORD
  {
    assert Pow256(4) == 0x1_0000_0000;
    assert Pow256(6) == 256 * (256 * Pow256(4));
    assert Pow256(8) == 256 * (256 * Pow256(6));
  }

  /** Framed fields are read back, whatever follows; framing fails exactly for a field of 2^64 bytes or more. */
  lemma {:induction false} FrameReadsBack(fields: seq<string>, u: string)
    ensures Frame(fields).Failure? <==> exists i :: 0 <= i < |fields| && |fields[i]| >= 0x1_0000_0000_0000_0000
    ensures Frame(fields).Success? ==> ReadFields(Frame(fields).value + u, |fields|) == Some((fields, u))
  {
    if fields == [] {
      assert "" + u == u;
    } else {
      FrameReadsBack(fields[1..], u);
      assert fields == [fields[0]] + fields[1..];
      assert forall i :: 0 <= i < |fields[1..]| ==> fields[1..][i] == fields[i + 1];
      if Frame(fields).Success? {
        FieldReadsBack(fields, u);
      }
    }
  }

  lemma FieldReadsBack(fields: seq<string>, u: string)
    requires fields != [] && Frame(fields).Success?
    requires ReadFields(Frame(fields[1..]).value + u, |fields| - 1) == Some((fields[1..], u))
    ensures ReadFields(Frame(fields).value + u, |fields|) == Some((fields, u))
  {
    var f := fields[0];
    var length, rest := PackU64(|f|).value, Frame(fields[1..]).value;
    WordBound();
    BigEndianReads(|f|, 8);
    var b := Frame(fields).value + u;
    hide BigEndian, BigValue, Frame;
    assert b == length + f + rest + u;
    Parts(length, f, rest, u);
    assert fields == [f] + fields[1..];
  }

  lemma Parts(a: string, b: string, c: string, u: string)
    ensures var s := a + b + c + u;
            s[..|a|] == a && s[|a|..|a| + |b|] == b && s[|a| + |b|..] == c + u
  {
  }

  /** Reads records of `k` fields to the end. */
  ghost function ReadRecords(b: string, k: nat): Option<seq<seq<string>>>
    requires k > 0
    decreases |b|
  {
    if b == "" then Some([])
    else
      match ReadFields(b, k)
      case None => None
      case Some((fields, rest)) =>
        if |rest| >= |b| then None
        else
          match ReadRecords(rest, k)
          case None => None
          case Some(records) => Some([fields] + records)
  }

  /** Every length fits into its eight bytes. */
  ghost predicate Short(fields: seq<string>) {
    forall i :: 0 <= i < |fields| ==> |fields[i]| < 0x1_0000_0000_0000_0000
  }

  /** A stream exists exactly if all its records can be framed, and is read back as these records. */
  lemma {:induction false} StreamReadsBack(records: seq<seq<string>>, k: nat)
    requires k > 0 && Arity(records, k)
    ensures Stream(records).Success? <==> forall i :: 0 <= i < |records| ==> Short(records[i])
    ensures Stream(records).Success? ==> ReadRecords(Stream(records).value, k) == Some(records)
  {
    hide Frame;
    if records != [] {
      StreamReadsBack(records[1..], k);
      assert forall i :: 0 <= i < |records[1..]| ==> records[1..][i] == records[i + 1];
      assert records == [records[0]] + records[1..];
      var rest := Stream(records[1..]);
      FrameReadsBack(records[0], if rest.Success? then rest.value else "");
      if Frame(records[0]).Success? {
        FrameLength(records[0]);
      }
    }
  }
}

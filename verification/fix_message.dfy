/**
 * The FIX 4.4 tag=value codec of `FIXMessage`: an insertion-ordered
 * tag -> text map, the frame `build` emits (BeginString(8), BodyLength(9),
 * body, CheckSum(10), as in the Standard Message Header and Trailer of the
 * FIX 4.4 specification) and the lenient `parse`.
 *
 * A message is a sequence of fields with distinct tags in insertion order;
 * `Put` is `LinkedHashMap.put`, which overwrites in place. Build takes the
 * SendingTime(52) text as a parameter instead of reading the clock.
 */
module FixMessage {
  import opened Wrappers
  import opened JavaLang

  /** The field delimiter, ASCII SOH. */
  const SOH: char := 1 as char

  const DefaultBeginString: string := "FIX.4.4"

  const BeginStringTag: Int32 := 8
  const BodyLengthTag: Int32 := 9
  const CheckSumTag: Int32 := 10
  const MsgSeqNumTag: Int32 := 34
  const MsgTypeTag: Int32 := 35
  const SendingTimeTag: Int32 := 52

  datatype Field = Field(tag: Int32, value: string)

  /** A message's fields in insertion order. */
  type Fields = seq<Field>

  predicate UniqueTags(fs: Fields) {
    forall i, j :: 0 <= i < j < |fs| ==> fs[i].tag != fs[j].tag
  }

  /** What every `FIXMessage` satisfies: MsgType(35) first, no tag twice. */
  predicate WellFormed(fs: Fields) {
    1 <= |fs| && fs[0].tag == MsgTypeTag && UniqueTags(fs)
  }

  /** No value contains the delimiter (the caller's obligation when building). */
  predicate SohFree(fs: Fields) {
    forall i :: 0 <= i < |fs| ==> SOH !in fs[i].value
  }

  /** `getField`: the value stored under `tag`, if any. */
  function Get(fs: Fields, tag: Int32): (r: Option<string>)
    ensures SohFree(fs) && r.Some? ==> SOH !in r.value
  {
    if |fs| == 0 then None
    else if fs[0].tag == tag then Some(fs[0].value)
    else Get(fs[1..], tag)
  }

  /** `getField` finds nothing exactly when no field carries the tag. */
  lemma {:induction false} GetNone(fs: Fields, tag: Int32)
    ensures Get(fs, tag).None? <==> forall i :: 0 <= i < |fs| ==> fs[i].tag != tag
  {
    if |fs| > 0 {
      GetNone(fs[1..], tag);
      if fs[0].tag != tag {
        assert forall i :: 1 <= i < |fs| ==> fs[i] == fs[1..][i - 1];
      }
    }
  }

  /** With unique tags, `getField` returns the value of the one field carrying the tag. */
  lemma {:induction false} GetUnique(fs: Fields, tag: Int32, i: nat)
    requires UniqueTags(fs) && i < |fs| && fs[i].tag == tag
    ensures Get(fs, tag) == Some(fs[i].value)
  {
    if i > 0 {
      assert fs[1..][i - 1] == fs[i];
      GetUnique(fs[1..], tag, i - 1);
    }
  }

  /**
   * `setField`: a new tag goes to the end, an existing tag keeps its
   * position and takes the new value.
   */
  function Put(fs: Fields, tag: Int32, value: string): (r: Fields)
    ensures Get(r, tag) == Some(value)
    ensures forall t :: t != tag ==> Get(r, t) == Get(fs, t)
    ensures forall i :: 0 <= i < |r| ==> r[i] == Field(tag, value) || r[i] in fs
    ensures UniqueTags(fs) ==> UniqueTags(r)
    ensures WellFormed(fs) ==> WellFormed(r)
    ensures SohFree(fs) && SOH !in value ==> SohFree(r)
  {
    if |fs| == 0 then [Field(tag, value)]
    else if fs[0].tag == tag then [Field(tag, value)] + fs[1..]
    else [fs[0]] + Put(fs[1..], tag, value)
  }

  /**
   * Where `setField` puts the field: an existing tag keeps its position
   * (so every position keeps its tag), a new tag goes to the end.
   */
  lemma {:induction false} PutShape(fs: Fields, tag: Int32, value: string)
    ensures Get(fs, tag).Some? ==>
              (|Put(fs, tag, value)| == |fs| && forall i :: 0 <= i < |fs| ==> Put(fs, tag, value)[i].tag == fs[i].tag)
    ensures Get(fs, tag).None? ==> Put(fs, tag, value) == fs + [Field(tag, value)]
    decreases |fs|
  {
    if |fs| > 0 && fs[0].tag != tag {
      PutShape(fs[1..], tag, value);
      assert fs == [fs[0]] + fs[1..];
    }
  }

  /** Two `setField`s in a row, on two different tags. */
  function Put2(fs: Fields, tag1: Int32, value1: string, tag2: Int32, value2: string): (r: Fields)
    requires tag1 != tag2
    ensures Get(r, tag1) == Some(value1) && Get(r, tag2) == Some(value2)
    ensures forall t :: t != tag1 && t != tag2 ==> Get(r, t) == Get(fs, t)
    ensures WellFormed(fs) ==> WellFormed(r)
    ensures SohFree(fs) && SOH !in value1 && SOH !in value2 ==> SohFree(r)
  {
    Put(Put(fs, tag1, value1), tag2, value2)
  }

  /** `new FIXMessage(msgType)`. */
  function NewMessage(msgType: string): (r: Fields)
    ensures WellFormed(r) && Get(r, MsgTypeTag) == Some(msgType)
    ensures forall t :: t != MsgTypeTag ==> Get(r, t).None?
  {
    [Field(MsgTypeTag, msgType)]
  }

  // ---------------------------------------------------------------------
  // build
  // ---------------------------------------------------------------------

  /** The two fields `build` writes before serialising. */
  function Stamp(m: Fields, seqNum: Int32, sendingTime: string): Fields {
    Put(Put(m, MsgSeqNumTag, IntToString(seqNum)), SendingTimeTag, sendingTime)
  }

  /** `getOrDefault(8, "FIX.4.4")`. */
  function BeginString(fs: Fields): string {
    Get(fs, BeginStringTag).GetOr(DefaultBeginString)
  }

  /** Tags 8, 9 and 10 are computed by the codec and never copied into the body. */
  predicate InBody(tag: Int32) {
    tag != BeginStringTag && tag != BodyLengthTag && tag != CheckSumTag
  }

  /** One `tag=value` segment, without its delimiter. */
  function FieldText(f: Field): string {
    IntToString(f.tag) + "=" + f.value
  }

  /** The body's segments, in insertion order, skipping tags 8, 9 and 10. */
  function BodySegments(fs: Fields): seq<string> {
    if |fs| == 0 then []
    else if InBody(fs[0].tag) then [FieldText(fs[0])] + BodySegments(fs[1..])
    else BodySegments(fs[1..])
  }

  /** Each segment followed by the delimiter. */
  function Terminated(segs: seq<string>): string {
    if |segs| == 0 then "" else segs[0] + [SOH] + Terminated(segs[1..])
  }

  function Body(fs: Fields): string {
    Terminated(BodySegments(fs))
  }

  /** Everything the checksum covers: `8=..␁9=<|body|>␁<body>`. */
  function Header(fs: Fields): string {
    "8=" + BeginString(fs) + [SOH] + "9=" + IntToString(|Body(fs)|) + [SOH] + Body(fs)
  }

  /** The sum of the char codes of `s`, as an unbounded integer. */
  function CharSum(s: string): nat {
    if |s| == 0 then 0 else CharSum(s[..|s| - 1]) + s[|s| - 1] as int
  }

  /** The CheckSum(10) value: the char sum modulo 256. */
  function Checksum(s: string): (r: nat)
    ensures r < 256
  {
    CharSum(s) % 256
  }

  /** `String.format("%03d", n)` for 0 <= n < 256. */
  function Pad3(n: nat): (r: string)
    requires n < 256
    ensures |r| == 3 && AllDigits(r) && DigitsValue(r) == n
  {
    var hundreds := [DigitChar(n / 100)];
    var tens := hundreds + [DigitChar(n / 10 % 10)];
    var r := tens + [DigitChar(n % 10)];
    assert hundreds[..0] == [] && tens[..1] == hundreds && r[..2] == tens;
    assert DigitsValue(hundreds) == n / 100;
    assert n / 100 == (n / 10) / 10;
    assert DigitsValue(tens) == n / 10;
    r
  }

  /**
   * A frame ends `10=` ddd ␁ where the three digits are the sum of every
   * char before `10=`, modulo 256.
   */
  predicate ChecksumOk(frame: string) {
    var n := |frame|;
    && 7 <= n
    && frame[n - 7..n - 4] == "10="
    && frame[n - 1] == SOH
    && AllDigits(frame[n - 4..n - 1])
    && DigitsValue(frame[n - 4..n - 1]) == CharSum(frame[..n - 7]) % 256
  }

  /** The frame `build` emits for an already stamped field list. */
  function Serialize(fs: Fields): (frame: string)
    ensures ChecksumOk(frame)
  {
    var h := Header(fs);
    var digits := Pad3(Checksum(h));
    var frame := h + "10=" + digits + [SOH];
    assert frame[..|frame| - 7] == h;
    assert frame[|frame| - 7..|frame| - 4] == "10=";
    assert frame[|frame| - 4..|frame| - 1] == digits;
    frame
  }

  /** `build(seqNum)`, with SendingTime(52) passed in. */
  function Build(m: Fields, seqNum: Int32, sendingTime: string): string {
    Serialize(Stamp(m, seqNum, sendingTime))
  }

  /** A frame is its checksummed header, then `10=`, the three checksum digits and SOH. */
  lemma SerializeTrailer(fs: Fields)
    ensures Serialize(fs) == Header(fs) + "10=" + Pad3(Checksum(Header(fs))) + [SOH]
    ensures Serialize(fs)[..|Serialize(fs)| - 7] == Header(fs)
  {
    var h := Header(fs);
    var frame := h + "10=" + Pad3(Checksum(h)) + [SOH];
    assert frame[..|frame| - 7] == h;
  }

  // ---------------------------------------------------------------------
  // parse
  // ---------------------------------------------------------------------

  /**
   * One segment of a raw message: with no `=` it is dropped; otherwise the
   * text before the first `=` must be an `Integer.parseInt` tag, and
   * everything after that `=` is the value.
   */
  function SegmentField(part: string): (r: Option<Field>)
    ensures r.Some? ==> |r.value.value| < |part|
    ensures r.Some? ==> forall i :: 0 <= i < |r.value.value| ==> r.value.value[i] in part
  {
    if '=' !in part then None
    else
      var i := IndexOf(part, '=');
      match ParseInt(part[..i])
      case Some(tag) =>
        var v := part[i + 1..];
        assert forall k :: 0 <= k < |v| ==> v[k] == part[i + 1 + k];
        Some(Field(tag, v))
      case None => None
  }

  /**
   * A segment is cut at its first `=`: a segment without one is dropped,
   * and `a=b` with no `=` in `a` is the field `(parseInt(a), b)` when `a`
   * parses, and dropped otherwise, whatever `b` holds.
   */
  lemma SegmentFieldSplit(a: string, b: string)
    ensures '=' !in a ==> SegmentField(a) == None
    ensures '=' !in a ==>
      SegmentField(a + "=" + b) == (if ParseInt(a).Some? then Some(Field(ParseInt(a).value, b)) else None)
  {
    if '=' !in a {
      IndexOfAfterPrefix(a, '=', b);
      var part := a + "=" + b;
      assert part == a + ['='] + b;
      assert part[..|a|] == a && part[|a| + 1..] == b;
    }
  }

  /** The value of the first segment that starts with `35=`, or the empty string. */
  function FirstMsgType(parts: seq<string>): string {
    if |parts| == 0 then ""
    else if StartsWith(parts[0], "35=") then parts[0][3..]
    else FirstMsgType(parts[1..])
  }

  /** The first loop takes MsgType from a segment, so it holds no delimiter when the segments hold none. */
  lemma {:induction false} FirstMsgTypeIn(parts: seq<string>)
    requires forall i :: 0 <= i < |parts| ==> SOH !in parts[i]
    ensures SOH !in FirstMsgType(parts)
    decreases |parts|
  {
    if |parts| > 0 {
      if StartsWith(parts[0], "35=") {
        var v := parts[0][3..];
        forall k | 0 <= k < |v| ensures v[k] != SOH {
          assert v[k] == parts[0][k + 3];
        }
      } else {
        FirstMsgTypeIn(parts[1..]);
      }
    }
  }

  /** Reference meaning of the segment loop: the value of the LAST segment with that tag. */
  function LastValue(parts: seq<string>, tag: Int32): Option<string> {
    if |parts| == 0 then None
    else
      var f := SegmentField(parts[|parts| - 1]);
      if f.Some? && f.value.tag == tag then Some(f.value.value)
      else LastValue(parts[..|parts| - 1], tag)
  }

  /**
   * What `parse` stores under `tag`: the last segment carrying it; for
   * MsgType(35), the empty string when no segment carries it.
   */
  function ParsedValue(parts: seq<string>, tag: Int32): Option<string> {
    if tag == MsgTypeTag then Some(LastValue(parts, tag).GetOr("")) else LastValue(parts, tag)
  }

  /** The second loop of `parse`: every well-formed segment, in order, `setField`-ed. */
  function PutSegments(fs: Fields, parts: seq<string>): (r: Fields)
    ensures WellFormed(fs) ==> WellFormed(r)
  {
    if |parts| == 0 then fs
    else
      var r0 := PutSegments(fs, parts[..|parts| - 1]);
      match SegmentField(parts[|parts| - 1])
      case Some(f) => Put(r0, f.tag, f.value)
      case None => r0
  }

  /** The segment loop leaves under `t` the last segment's value for `t`, or what was there before. */
  lemma {:induction false} PutSegmentsValue(fs: Fields, parts: seq<string>, t: Int32)
    ensures Get(PutSegments(fs, parts), t) == (if LastValue(parts, t).Some? then LastValue(parts, t) else Get(fs, t))
    decreases |parts|
  {
    if |parts| > 0 {
      PutSegmentsValue(fs, parts[..|parts| - 1], t);
    }
  }

  /**
   * `FIXMessage.parse`: MsgType(35) is set first from the first `35=`
   * segment (or to the empty string), then every segment is applied in
   * order, later duplicates overwriting earlier ones.
   */
  function Parse(raw: string): (r: Fields)
    ensures WellFormed(r)
  {
    var parts := JavaSplit(raw, SOH);
    PutSegments(NewMessage(FirstMsgType(parts)), parts)
  }

  /** What `parse` stores under each tag. */
  lemma ParseValue(raw: string, t: Int32)
    ensures Get(Parse(raw), t) == ParsedValue(JavaSplit(raw, SOH), t)
  {
    var parts := JavaSplit(raw, SOH);
    FirstMsgTypeAgrees(parts);
    PutSegmentsValue(NewMessage(FirstMsgType(parts)), parts, t);
  }

  /** The segment loop only stores text taken from the segments. */
  lemma {:induction false} PutSegmentsSohFree(fs: Fields, parts: seq<string>)
    requires SohFree(fs) && forall i :: 0 <= i < |parts| ==> SOH !in parts[i]
    ensures SohFree(PutSegments(fs, parts))
    decreases |parts|
  {
    if |parts| > 0 {
      var init := parts[..|parts| - 1];
      PutSegmentsSohFree(fs, init);
      var last := parts[|parts| - 1];
      var f := SegmentField(last);
      if f.Some? {
        var v := f.value.value;
        forall k | 0 <= k < |v| ensures v[k] != SOH {
          assert v[k] in last;
        }
      }
    }
  }

  /** Nothing `parse` returns contains the delimiter it split on. */
  lemma ParseSohFree(raw: string)
    ensures SohFree(Parse(raw))
  {
    var parts := JavaSplit(raw, SOH);
    JavaSplitPieces(raw, SOH);
    var msgType := FirstMsgType(parts);
    assert SOH !in msgType by {
      FirstMsgTypeIn(parts);
    }
    PutSegmentsSohFree(NewMessage(msgType), parts);
  }

  /** The MsgType read by `parse`; never null, since `parse` always sets tag 35. */
  function MsgType(fs: Fields): string {
    Get(fs, MsgTypeTag).GetOr("")
  }

  // ---------------------------------------------------------------------
  // Lemmas
  // ---------------------------------------------------------------------

  lemma StartsWithMsgType(p: string)
    requires StartsWith(p, "35=")
    ensures SegmentField(p) == Some(Field(MsgTypeTag, p[3..]))
  {
    assert p == "35" + ['='] + p[3..];
    IndexOfAfterPrefix("35", '=', p[3..]);
    assert p[..2] == "35";
    assert DigitsValue("35") == 35 by {
      assert "35"[..1] == "3";
      assert DigitsValue("3") == 3 by { assert "3"[..0] == ""; }
    }
  }

  /** The first loop's value only matters when no segment carries tag 35. */
  lemma {:induction false} FirstMsgTypeAgrees(parts: seq<string>)
    ensures LastValue(parts, MsgTypeTag).None? ==> FirstMsgType(parts) == ""
    decreases |parts|
  {
    if |parts| > 0 && LastValue(parts, MsgTypeTag).None? {
      if StartsWith(parts[0], "35=") {
        StartsWithMsgType(parts[0]);
        LastValueFindsSegment(parts, 0, MsgTypeTag);
      } else {
        LastValueNoneSuffix(parts, MsgTypeTag);
        FirstMsgTypeAgrees(parts[1..]);
      }
    }
  }

  lemma {:induction false} LastValueFindsSegment(parts: seq<string>, i: nat, tag: Int32)
    requires i < |parts|
    requires SegmentField(parts[i]).Some? && SegmentField(parts[i]).value.tag == tag
    ensures LastValue(parts, tag).Some?
    decreases |parts|
  {
    if i < |parts| - 1 {
      var f := SegmentField(parts[|parts| - 1]);
      if !(f.Some? && f.value.tag == tag) {
        LastValueFindsSegment(parts[..|parts| - 1], i, tag);
      }
    }
  }

  lemma LastValueNoneSuffix(parts: seq<string>, tag: Int32)
    requires 1 <= |parts|
    requires LastValue(parts, tag).None?
    ensures LastValue(parts[1..], tag).None?
  {
    if LastValue(parts[1..], tag).Some? {
      var w := LastValueWitness(parts[1..], tag);
      LastValueFindsSegment(parts, w + 1, tag);
    }
  }

  lemma {:induction false} LastValueWitness(parts: seq<string>, tag: Int32) returns (i: nat)
    requires LastValue(parts, tag).Some?
    ensures i < |parts| && SegmentField(parts[i]).Some? && SegmentField(parts[i]).value.tag == tag
    decreases |parts|
  {
    var f := SegmentField(parts[|parts| - 1]);
    if f.Some? && f.value.tag == tag {
      i := |parts| - 1;
    } else {
      i := LastValueWitness(parts[..|parts| - 1], tag);
    }
  }

  /** The last matching segment of `a + b` is in `b` if `b` has one. */
  lemma {:induction false} LastValueAppend(a: seq<string>, b: seq<string>, tag: Int32)
    ensures LastValue(a + b, tag) == (if LastValue(b, tag).Some? then LastValue(b, tag) else LastValue(a, tag))
    decreases |b|
  {
    if |b| > 0 {
      assert (a + b)[..|a + b| - 1] == a + b[..|b| - 1];
      LastValueAppend(a, b[..|b| - 1], tag);
    } else {
      assert a + b == a;
    }
  }

  // ---------------------------------------------------------------------
  // The frame, segment by segment
  // ---------------------------------------------------------------------

  /** The delimiter-separated segments of `Serialize(fs)`, in order. */
  function Segments(fs: Fields): seq<string> {
    ["8=" + BeginString(fs), "9=" + IntToString(|Body(fs)|)]
    + BodySegments(fs)
    + ["10=" + Pad3(Checksum(Header(fs)))]
  }

  lemma {:induction false} TerminatedAppend(a: seq<string>, b: seq<string>)
    ensures Terminated(a + b) == Terminated(a) + Terminated(b)
    decreases |a|
  {
    if |a| == 0 {
      assert a + b == b;
    } else {
      assert (a + b)[1..] == a[1..] + b;
      TerminatedAppend(a[1..], b);
    }
  }

  lemma {:induction false} TerminatedIsJoin(segs: seq<string>)
    ensures Terminated(segs) == JoinWith(segs + [""], SOH)
    decreases |segs|
  {
    if |segs| > 0 {
      assert (segs + [""])[1..] == segs[1..] + [""];
      TerminatedIsJoin(segs[1..]);
    }
  }

  lemma FrameTerminated(s8: string, s9: string, body: seq<string>, s10: string)
    ensures Terminated([s8, s9] + body + [s10])
         == s8 + [SOH] + s9 + [SOH] + Terminated(body) + s10 + [SOH]
  {
    TerminatedAppend([s8, s9] + body, [s10]);
    TerminatedAppend([s8, s9], body);
    assert [s8, s9][1..] == [s9] && [s9][1..] == [] && [s10][1..] == [];
  }

  lemma SerializeIsTerminated(fs: Fields)
    ensures Serialize(fs) == Terminated(Segments(fs))
  {
    var beginText := BeginString(fs);
    var lengthText := IntToString(|Body(fs)|);
    var digits := Pad3(Checksum(Header(fs)));
    FrameTerminated("8=" + beginText, "9=" + lengthText, BodySegments(fs), "10=" + digits);
  }

  lemma FieldTextShape(f: Field)
    ensures '=' !in IntToString(f.tag)
    ensures SOH !in f.value ==> SOH !in FieldText(f)
    ensures SegmentField(FieldText(f)) == Some(f)
  {
    var k := IntToString(f.tag);
    assert '=' !in k by {
      forall i | 0 <= i < |k| ensures k[i] != '=' {
      }
    }
    IndexOfAfterPrefix(k, '=', f.value);
    assert FieldText(f) == k + ['='] + f.value;
    assert FieldText(f)[..|k|] == k;
    assert FieldText(f)[|k| + 1..] == f.value;
    if SOH !in f.value {
      assert SOH !in k by {
        forall i | 0 <= i < |k| ensures k[i] != SOH {
        }
      }
    }
  }

  /** No body segment holds the delimiter when no value does. */
  lemma {:induction false} BodySegmentsSohFree(fs: Fields)
    requires SohFree(fs)
    ensures forall i :: 0 <= i < |BodySegments(fs)| ==> SOH !in BodySegments(fs)[i]
    decreases |fs|
  {
    if |fs| > 0 {
      assert SohFree(fs[1..]) by {
        forall i | 0 <= i < |fs[1..]| ensures SOH !in fs[1..][i].value {
          assert fs[1..][i] == fs[i + 1];
        }
      }
      BodySegmentsSohFree(fs[1..]);
      FieldTextShape(fs[0]);
      var segs := BodySegments(fs);
      var rest := BodySegments(fs[1..]);
      forall i | 0 <= i < |segs| ensures SOH !in segs[i] {
        if InBody(fs[0].tag) && i > 0 {
          assert segs[i] == rest[i - 1];
        }
      }
    }
  }

  /** The fields the body carries, in order: those whose tag is not 8, 9 or 10. */
  function BodyFields(fs: Fields): Fields {
    if |fs| == 0 then []
    else if InBody(fs[0].tag) then [fs[0]] + BodyFields(fs[1..])
    else BodyFields(fs[1..])
  }

  /** The body's segments are the texts of the body's fields. */
  lemma {:induction false} BodySegmentsText(fs: Fields)
    ensures |BodySegments(fs)| == |BodyFields(fs)|
    ensures forall i :: 0 <= i < |BodyFields(fs)| ==>
      BodySegments(fs)[i] == FieldText(BodyFields(fs)[i]) && InBody(BodyFields(fs)[i].tag)
    decreases |fs|
  {
    if |fs| > 0 {
      BodySegmentsText(fs[1..]);
      var segs := BodySegments(fs);
      var bf := BodyFields(fs);
      var rest := BodyFields(fs[1..]);
      forall i | 0 <= i < |bf| ensures segs[i] == FieldText(bf[i]) && InBody(bf[i].tag) {
        if InBody(fs[0].tag) && i > 0 {
          assert bf[i] == rest[i - 1];
          assert segs[i] == BodySegments(fs[1..])[i - 1];
        }
      }
    }
  }

  /** Every body segment parses back to a field whose tag is not 8, 9 or 10. */
  lemma BodySegmentsShape(fs: Fields)
    ensures forall i :: 0 <= i < |BodySegments(fs)| ==>
      SegmentField(BodySegments(fs)[i]).Some? && InBody(SegmentField(BodySegments(fs)[i]).value.tag)
  {
    BodySegmentsText(fs);
    var segs := BodySegments(fs);
    var bf := BodyFields(fs);
    forall i | 0 <= i < |segs|
      ensures SegmentField(segs[i]).Some? && InBody(SegmentField(segs[i]).value.tag)
    {
      FieldTextShape(bf[i]);
    }
  }

  lemma SplitTerminated(segs: seq<string>)
    requires 1 <= |segs| && segs[|segs| - 1] != ""
    requires forall i :: 0 <= i < |segs| ==> SOH !in segs[i]
    ensures JavaSplit(Terminated(segs), SOH) == segs
  {
    TerminatedIsJoin(segs);
    TerminatedAppend(segs[..|segs| - 1], [segs[|segs| - 1]]);
    assert segs[..|segs| - 1] + [segs[|segs| - 1]] == segs;
    assert [segs[|segs| - 1]][1..] == [];
    assert SOH in Terminated(segs);
    SplitJoin(segs + [""], SOH);
    assert (segs + [""])[..|segs|] == segs;
  }

  /** No segment of a frame holds the delimiter when no value does, and the last one is not empty. */
  lemma SegmentsSohFree(fs: Fields)
    requires SohFree(fs)
    ensures 3 <= |Segments(fs)| && Segments(fs)[|Segments(fs)| - 1] != ""
    ensures forall i :: 0 <= i < |Segments(fs)| ==> SOH !in Segments(fs)[i]
  {
    var body := BodySegments(fs);
    var s8 := "8=" + BeginString(fs);
    var s9 := "9=" + IntToString(|Body(fs)|);
    var s10 := "10=" + Pad3(Checksum(Header(fs)));
    var segs := Segments(fs);
    assert segs == [s8, s9] + body + [s10];
    BodySegmentsSohFree(fs);
    assert SOH !in BeginString(fs);
    var lengthText := IntToString(|Body(fs)|);
    assert SOH !in lengthText by {
      forall i | 0 <= i < |lengthText| ensures lengthText[i] != SOH {
      }
    }
    assert SOH !in Pad3(Checksum(Header(fs)));
    assert SOH !in s8 && SOH !in s9 && SOH !in s10;
    forall i | 0 <= i < |segs| ensures SOH !in segs[i] {
      if 2 <= i < |segs| - 1 {
        assert segs[i] == body[i - 2];
      }
    }
  }

  /** Splitting a frame on SOH gives back exactly its segments. */
  lemma SplitSerialize(fs: Fields)
    requires SohFree(fs)
    ensures JavaSplit(Serialize(fs), SOH) == Segments(fs)
  {
    SerializeIsTerminated(fs);
    SegmentsSohFree(fs);
    SplitTerminated(Segments(fs));
  }

  lemma SegmentOfTag(tag: Int32, v: string)
    ensures SegmentField(IntToString(tag) + "=" + v) == Some(Field(tag, v))
  {
    FieldTextShape(Field(tag, v));
  }

  lemma {:induction false} LastValueOfBody(fs: Fields, t: Int32)
    requires UniqueTags(fs)
    ensures LastValue(BodySegments(fs), t) == (if InBody(t) then Get(fs, t) else None)
    decreases |fs|
  {
    if |fs| == 0 {
    } else {
      var rest := fs[1..];
      assert UniqueTags(rest) by {
        forall i, j | 0 <= i < j < |rest| ensures rest[i].tag != rest[j].tag {
          assert rest[i] == fs[i + 1] && rest[j] == fs[j + 1];
        }
      }
      LastValueOfBody(rest, t);
      if InBody(fs[0].tag) {
        var seg := FieldText(fs[0]);
        FieldTextShape(fs[0]);
        LastValueAppend([seg], BodySegments(rest), t);
        assert [seg][..0] == [];
        if fs[0].tag == t {
          assert Get(rest, t).None? by {
            forall i | 0 <= i < |rest| ensures rest[i].tag != t {
              assert rest[i] == fs[i + 1];
            }
            GetNone(rest, t);
          }
        }
      }
    }
  }

  lemma LastValueFrame(s8: string, s9: string, body: seq<string>, s10: string, t: Int32)
    requires SegmentField(s8).Some? && SegmentField(s8).value.tag == BeginStringTag
    requires SegmentField(s9).Some? && SegmentField(s9).value.tag == BodyLengthTag
    requires SegmentField(s10).Some? && SegmentField(s10).value.tag == CheckSumTag
    ensures InBody(t) ==> LastValue([s8, s9] + body + [s10], t) == LastValue(body, t)
    ensures t == BeginStringTag && LastValue(body, t).None? ==>
      LastValue([s8, s9] + body + [s10], t) == Some(SegmentField(s8).value.value)
  {
    LastValueAppend([s8, s9] + body, [s10], t);
    LastValueAppend([s8, s9], body, t);
    assert [s10][..0] == [] && [s8, s9][..1] == [s8] && [s8][..0] == [];
  }

  lemma CodecTagTexts()
    ensures IntToString(8) == "8" && IntToString(9) == "9" && IntToString(10) == "10"
  {
    assert NatToString(10) == NatToString(1) + [DigitChar(0)];
  }

  lemma HeaderSegmentFields(beginText: string, lengthText: string, digits: string)
    ensures SegmentField("8=" + beginText) == Some(Field(BeginStringTag, beginText))
    ensures SegmentField("9=" + lengthText) == Some(Field(BodyLengthTag, lengthText))
    ensures SegmentField("10=" + digits) == Some(Field(CheckSumTag, digits))
  {
    CodecTagTexts();
    assert "8=" + beginText == IntToString(8) + "=" + beginText;
    assert "9=" + lengthText == IntToString(9) + "=" + lengthText;
    assert "10=" + digits == IntToString(10) + "=" + digits;
    SegmentOfTag(8, beginText);
    SegmentOfTag(9, lengthText);
    SegmentOfTag(10, digits);
  }

  /** Where in the frame's segments the last segment carrying `t` is found. */
  lemma LastValueOfSegments(fs: Fields, t: Int32)
    requires UniqueTags(fs)
    ensures InBody(t) ==> LastValue(Segments(fs), t) == Get(fs, t)
    ensures LastValue(Segments(fs), BeginStringTag) == Some(BeginString(fs))
  {
    var beginText := BeginString(fs);
    var lengthText := IntToString(|Body(fs)|);
    var digits := Pad3(Checksum(Header(fs)));
    var body := BodySegments(fs);
    assert Segments(fs) == ["8=" + beginText, "9=" + lengthText] + body + ["10=" + digits];
    HeaderSegmentFields(beginText, lengthText, digits);
    LastValueOfBody(fs, t);
    LastValueOfBody(fs, BeginStringTag);
    LastValueFrame("8=" + beginText, "9=" + lengthText, body, "10=" + digits, t);
    LastValueFrame("8=" + beginText, "9=" + lengthText, body, "10=" + digits, BeginStringTag);
  }

  // ---------------------------------------------------------------------
  // Round trip and frame shape
  // ---------------------------------------------------------------------

  /**
   * Parsing a serialised message gives back every body field's value, and
   * the BeginString it was framed with.
   */
  lemma SerializeRoundTrip(fs: Fields)
    requires WellFormed(fs) && SohFree(fs)
    ensures forall t :: InBody(t) ==> Get(Parse(Serialize(fs)), t) == Get(fs, t)
    ensures Get(Parse(Serialize(fs)), BeginStringTag) == Some(BeginString(fs))
  {
    forall t | InBody(t) ensures Get(Parse(Serialize(fs)), t) == Get(fs, t) {
      SerializeValue(fs, t);
    }
    SerializeValue(fs, BeginStringTag);
  }

  /** One tag of the round trip. */
  lemma SerializeValue(fs: Fields, t: Int32)
    requires WellFormed(fs) && SohFree(fs)
    ensures InBody(t) ==> Get(Parse(Serialize(fs)), t) == Get(fs, t)
    ensures t == BeginStringTag ==> Get(Parse(Serialize(fs)), t) == Some(BeginString(fs))
  {
    SplitSerialize(fs);
    ParseValue(Serialize(fs), t);
    LastValueOfSegments(fs, t);
  }

  /** A body field a clean message carries is read back with the same value. */
  lemma Carries(fs: Fields, t: Int32, v: Option<string>)
    requires WellFormed(fs) && SohFree(fs) && InBody(t) && Get(fs, t) == v
    ensures Get(Parse(Serialize(fs)), t) == v
  {
    SerializeValue(fs, t);
  }

  /** What `build`'s two `put`s leave behind. */
  lemma StampFacts(m: Fields, seqNum: Int32, sendingTime: string)
    requires WellFormed(m) && SohFree(m) && SOH !in sendingTime
    ensures WellFormed(Stamp(m, seqNum, sendingTime)) && SohFree(Stamp(m, seqNum, sendingTime))
    ensures forall t :: t != MsgSeqNumTag && t != SendingTimeTag ==> Get(Stamp(m, seqNum, sendingTime), t) == Get(m, t)
    ensures Get(Stamp(m, seqNum, sendingTime), MsgSeqNumTag) == Some(IntToString(seqNum))
    ensures Get(Stamp(m, seqNum, sendingTime), SendingTimeTag) == Some(sendingTime)
  {
    var n := IntToString(seqNum);
    assert SOH !in n by {
      forall i | 0 <= i < |n| ensures n[i] != SOH {
      }
    }
  }

  /**
   * `parse(build(m, n))` agrees with `m` on every tag other than 8, 9, 10
   * and the two `build` stamps: MsgSeqNum(34) is `n`, SendingTime(52) is
   * the time passed in, and BeginString(8) is m's or `FIX.4.4`.
   */
  lemma BuildRoundTrip(m: Fields, seqNum: Int32, sendingTime: string)
    requires WellFormed(m) && SohFree(m) && SOH !in sendingTime
    ensures forall t :: InBody(t) && t != MsgSeqNumTag && t != SendingTimeTag ==>
      Get(Parse(Build(m, seqNum, sendingTime)), t) == Get(m, t)
    ensures Get(Parse(Build(m, seqNum, sendingTime)), MsgSeqNumTag) == Some(IntToString(seqNum))
    ensures Get(Parse(Build(m, seqNum, sendingTime)), SendingTimeTag) == Some(sendingTime)
    ensures Get(Parse(Build(m, seqNum, sendingTime)), BeginStringTag) == Some(BeginString(m))
  {
    forall t | InBody(t) && t != MsgSeqNumTag && t != SendingTimeTag
      ensures Get(Parse(Build(m, seqNum, sendingTime)), t) == Get(m, t)
    {
      BuildValue(m, seqNum, sendingTime, t);
    }
    BuildValue(m, seqNum, sendingTime, MsgSeqNumTag);
    BuildValue(m, seqNum, sendingTime, SendingTimeTag);
    BuildValue(m, seqNum, sendingTime, BeginStringTag);
  }

  /** One tag of `BuildRoundTrip`. */
  lemma BuildValue(m: Fields, seqNum: Int32, sendingTime: string, t: Int32)
    requires WellFormed(m) && SohFree(m) && SOH !in sendingTime
    ensures InBody(t) && t != MsgSeqNumTag && t != SendingTimeTag ==>
      Get(Parse(Build(m, seqNum, sendingTime)), t) == Get(m, t)
    ensures t == MsgSeqNumTag ==> Get(Parse(Build(m, seqNum, sendingTime)), t) == Some(IntToString(seqNum))
    ensures t == SendingTimeTag ==> Get(Parse(Build(m, seqNum, sendingTime)), t) == Some(sendingTime)
    ensures t == BeginStringTag ==> Get(Parse(Build(m, seqNum, sendingTime)), t) == Some(BeginString(m))
  {
    var stamped := Stamp(m, seqNum, sendingTime);
    StampFacts(m, seqNum, sendingTime);
    SerializeValue(stamped, t);
    assert Get(stamped, BeginStringTag) == Get(m, BeginStringTag);
  }

  /**
   * A frame whose BodyLength(9) is the second segment and counts every char
   * from the one after its delimiter up to the `10=` of the trailer.
   */
  predicate BodyLengthOk(frame: string) {
    var segs := JavaSplit(frame, SOH);
    && 2 <= |segs|
    && var start := |segs[0]| + 1 + |segs[1]| + 1;
    && start + 7 <= |frame|
    && segs[1] == "9=" + IntToString(|frame| - 7 - start)
  }

  /**
   * The frame `build` emits opens with `8=<BeginString>␁9=`, declares its
   * body length exactly, carries a correct checksum, has MsgType(35) as its
   * first body field, and never repeats tags 8, 9 or 10 in the body.
   */
  lemma BuildFrameShape(m: Fields, seqNum: Int32, sendingTime: string)
    requires WellFormed(m) && SohFree(m) && SOH !in sendingTime
    ensures var frame := Build(m, seqNum, sendingTime);
      && StartsWith(frame, "8=" + BeginString(m) + [SOH] + "9=")
      && BodyLengthOk(frame)
      && ChecksumOk(frame)
    ensures var segs := JavaSplit(Build(m, seqNum, sendingTime), SOH);
      && 4 <= |segs|
      && StartsWith(segs[2], "35=")
      && forall i :: 2 <= i < |segs| - 1 ==>
           SegmentField(segs[i]).Some? && InBody(SegmentField(segs[i]).value.tag)
  {
    StampFacts(m, seqNum, sendingTime);
    var stamped := Stamp(m, seqNum, sendingTime);
    assert BeginString(stamped) == BeginString(m) by {
      assert Get(stamped, BeginStringTag) == Get(m, BeginStringTag);
    }
    SerializeShape(stamped);
  }

  lemma SerializeShape(fs: Fields)
    requires WellFormed(fs) && SohFree(fs)
    ensures var frame := Serialize(fs);
      && StartsWith(frame, "8=" + BeginString(fs) + [SOH] + "9=")
      && BodyLengthOk(frame)
    ensures var segs := JavaSplit(Serialize(fs), SOH);
      && 4 <= |segs|
      && StartsWith(segs[2], "35=")
      && forall i :: 2 <= i < |segs| - 1 ==>
           SegmentField(segs[i]).Some? && InBody(SegmentField(segs[i]).value.tag)
  {
    SplitSerialize(fs);
    SerializeHeaderShape(fs);
    SegmentsBodyShape(fs);
  }

  lemma SerializeHeaderShape(fs: Fields)
    requires SohFree(fs)
    ensures JavaSplit(Serialize(fs), SOH) == Segments(fs)
    ensures StartsWith(Serialize(fs), "8=" + BeginString(fs) + [SOH] + "9=")
    ensures BodyLengthOk(Serialize(fs))
  {
    SplitSerialize(fs);
    SerializePrefix(fs);
    var beginText := BeginString(fs);
    var lengthText := IntToString(|Body(fs)|);
    var h := Header(fs);
    assert h == "8=" + beginText + [SOH] + "9=" + lengthText + [SOH] + Body(fs);
    assert |Serialize(fs)| == |h| + 7;
    var segs := Segments(fs);
    assert segs[0] == "8=" + beginText && segs[1] == "9=" + lengthText;
  }

  lemma SerializePrefix(fs: Fields)
    ensures StartsWith(Serialize(fs), "8=" + BeginString(fs) + [SOH] + "9=")
  {
    var p := "8=" + BeginString(fs) + [SOH] + "9=";
    var h := Header(fs);
    var tail := IntToString(|Body(fs)|) + [SOH] + Body(fs);
    assert h == p + tail;
    var frame := Serialize(fs);
    assert frame == p + (tail + "10=" + Pad3(Checksum(h)) + [SOH]);
    assert frame[..|p|] == p;
  }

  lemma SegmentsBodyShape(fs: Fields)
    requires WellFormed(fs)
    ensures var segs := Segments(fs);
      && 4 <= |segs|
      && StartsWith(segs[2], "35=")
      && forall i :: 2 <= i < |segs| - 1 ==>
           SegmentField(segs[i]).Some? && InBody(SegmentField(segs[i]).value.tag)
  {
    var body := BodySegments(fs);
    var segs := Segments(fs);
    BodySegmentsShape(fs);
    assert body[0] == FieldText(fs[0]);
    assert IntToString(35) == "35" by {
      assert NatToString(35) == NatToString(3) + [DigitChar(5)];
    }
    assert FieldText(fs[0]) == "35=" + fs[0].value;
    assert segs[2] == body[0];
    forall i | 2 <= i < |segs| - 1
      ensures SegmentField(segs[i]).Some? && InBody(SegmentField(segs[i]).value.tag)
    {
      assert segs[i] == body[i - 2];
    }
  }

  // ---------------------------------------------------------------------
  // CheckSum as the source computes it
  // ---------------------------------------------------------------------

  /**
   * `calculateChecksum` as written: the char sum is accumulated in a Java
   * `int`, which wraps past 2^31 - 1, and `% 256` then keeps the sign.
   */
  function ChecksumAsWritten(s: string): int {
    JavaRem(Wrap32(CharSum(s)), 256)
  }

  /** Below the overflow the source's checksum is the intended one. */
  lemma ChecksumAgreesBelowOverflow(s: string)
    requires CharSum(s) <= MaxInt32
    ensures ChecksumAsWritten(s) == Checksum(s)
    ensures 0 <= ChecksumAsWritten(s) < 256
  {
    assert Wrap32(CharSum(s)) == CharSum(s);
  }

  /**
   * While the char sum before the trailer fits in an `int`, the frame's
   * trailer digits are exactly what `build` prints: `%03d` of the source's
   * checksum.
   */
  lemma SerializeAgreesBelowOverflow(fs: Fields)
    requires CharSum(Header(fs)) <= MaxInt32
    ensures 0 <= ChecksumAsWritten(Header(fs)) < 256
    ensures Serialize(fs) == Header(fs) + "10=" + Pad3(ChecksumAsWritten(Header(fs))) + [SOH]
  {
    ChecksumAgreesBelowOverflow(Header(fs));
    SerializeTrailer(fs);
  }

  /** `n` copies of `c`. */
  function Repeat(c: char, n: nat): (s: string)
    ensures |s| == n
  {
    if n == 0 then [] else Repeat(c, n - 1) + [c]
  }

  lemma {:induction false} CharSumRepeat(c: char, n: nat)
    ensures CharSum(Repeat(c, n)) == n * (c as int)
  {
    if n > 0 {
      assert Repeat(c, n)[..n - 1] == Repeat(c, n - 1);
      CharSumRepeat(c, n - 1);
    }
  }

  /**
   * 16,909,321 DEL characters sum to 2^31 + 119: the source's checksum of
   * that text is -137 (formatted `-137`, four chars), the intended one 119.
   */
  lemma ChecksumOverflowWitness()
    ensures ChecksumAsWritten(Repeat(127 as char, 16909321)) == -137
    ensures Checksum(Repeat(127 as char, 16909321)) == 119
  {
    CharSumRepeat(127 as char, 16909321);
  }
}

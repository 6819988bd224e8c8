/**
 * `readFIXMessage`: the stream framer shared by server and client. It reads
 * one char at a time and stops as soon as the buffer contains `10=` and
 * ends with SOH; at end of stream it returns null.
 */
module Framer {
  import opened Wrappers
  import opened JavaLang
  import opened FixMessage

  /** The test `readFIXMessage` applies after every char it appends. */
  predicate Complete(buffer: string) {
    0 < |buffer| && buffer[|buffer| - 1] == SOH && Contains(buffer, "10=")
  }

  /** A message taken off the front of the stream and what the stream still holds. */
  datatype Read = Read(message: string, rest: string)

  /** The first buffer length, from `k` on, at which the test passes. */
  function ScanFrom(input: string, k: nat): (r: Option<nat>)
    requires 1 <= k
    ensures r.Some? ==> k <= r.value <= |input| && Complete(input[..r.value])
    ensures r.Some? ==> forall j :: k <= j < r.value ==> !Complete(input[..j])
    ensures r.None? ==> forall j :: k <= j <= |input| ==> !Complete(input[..j])
    decreases |input| + 1 - k
  {
    if k > |input| then None
    else if Complete(input[..k]) then Some(k)
    else ScanFrom(input, k + 1)
  }

  /**
   * `readFIXMessage`: the shortest prefix of the stream that contains `10=`
   * and ends with SOH, or nothing when the stream ends first.
   */
  function ReadMessage(input: string): (r: Option<Read>)
    ensures r.Some? ==> input == r.value.message + r.value.rest
    ensures r.Some? ==> Complete(r.value.message)
    ensures r.Some? ==> forall j :: 0 <= j < |r.value.message| ==> !Complete(input[..j])
    ensures r.None? ==> forall j :: 0 <= j <= |input| ==> !Complete(input[..j])
  {
    match ScanFrom(input, 1)
    case Some(n) => Some(Read(input[..n], input[n..]))
    case None => None
  }

  /** A message the framer reads back whole, whatever follows it. */
  predicate Delimited(message: string) {
    Complete(message) && forall j :: 0 <= j < |message| ==> !Complete(message[..j])
  }

  lemma ReadDelimited(message: string, rest: string)
    requires Delimited(message)
    ensures ReadMessage(message + rest) == Some(Read(message, rest))
  {
    var input := message + rest;
    assert input[..|message|] == message;
    forall j | 0 <= j <= |message| ensures input[..j] == message[..j] {
    }
    var r := ReadMessage(input);
    assert r.Some?;
    assert |r.value.message| == |message|;
  }

  lemma {:induction false} TerminatedEndsWithSoh(segs: seq<string>)
    requires |segs| > 0
    ensures |Terminated(segs)| > 0 && Terminated(segs)[|Terminated(segs)| - 1] == SOH
    decreases |segs|
  {
    if |segs| > 1 {
      TerminatedEndsWithSoh(segs[1..]);
    }
  }

  lemma HeaderEndsWithSoh(fs: Fields)
    ensures |Header(fs)| > 0 && Header(fs)[|Header(fs)| - 1] == SOH
  {
    if |BodySegments(fs)| > 0 {
      TerminatedEndsWithSoh(BodySegments(fs));
    }
  }

  /** An occurrence of `10=` covers no SOH. */
  lemma TrailerTagHasNoSoh(x: string, i: nat, k: nat)
    ensures OccursAt(x, "10=", i) && i <= k < i + 3 ==> x[k] != SOH
  {
    if OccursAt(x, "10=", i) && i <= k < i + 3 {
      assert x[k] == x[i..i + 3][k - i];
    }
  }

  lemma OccursInPrefix(x: string, n: nat, i: nat)
    ensures n <= |x| && OccursAt(x, "10=", i) && i + 3 <= n ==> OccursAt(x[..n], "10=", i)
  {
    if n <= |x| && OccursAt(x, "10=", i) && i + 3 <= n {
      assert x[..n][i..i + 3] == x[i..i + 3];
    }
  }

  /** Every occurrence of `10=` in a prefix of `h + "10=" + ...` shorter than `|h| + 3` lies inside `h`. */
  lemma NoEarlyTrailer(h: string, frame: string, j: nat)
    requires 0 < |h| && h[|h| - 1] == SOH && !Contains(h, "10=")
    requires |h| + 3 <= |frame| && frame[..|h| + 3] == h + "10="
    requires j < |h| + 3
    ensures !Contains(frame[..j], "10=")
  {
    assert frame[..|h|] == h by {
      assert frame[..|h|] == frame[..|h| + 3][..|h|];
    }
    assert frame[|h| - 1] == SOH;
    if Contains(frame[..j], "10=") {
      var i :| 0 <= i <= j && OccursAt(frame[..j], "10=", i);
      assert frame[i..i + 3] == frame[..j][i..i + 3];
      assert OccursAt(frame, "10=", i);
      if |h| < i + 3 {
        TrailerTagHasNoSoh(frame, i, |h| - 1);
      } else {
        OccursInPrefix(frame, |h|, i);
      }
      assert false;
    }
  }

  /**
   * `h + "10=" + ddd + ␁` is read back whole when `h` ends with SOH and has
   * no `10=` of its own.
   */
  lemma TrailedFrameDelimited(h: string, digits: string)
    requires 0 < |h| && h[|h| - 1] == SOH && !Contains(h, "10=")
    requires |digits| == 3 && AllDigits(digits)
    ensures Delimited(h + "10=" + digits + [SOH])
  {
    var frame := h + "10=" + digits + [SOH];
    assert frame[..|h| + 3] == h + "10=";
    assert OccursAt(frame, "10=", |h|);
    forall j | 0 <= j < |frame| ensures !Complete(frame[..j]) {
      if j < |h| + 3 {
        NoEarlyTrailer(h, frame, j);
      } else {
        assert frame[..j][j - 1] == frame[j - 1];
        assert j - 1 == |h| + 2 || frame[j - 1] == digits[j - 1 - |h| - 3];
      }
    }
  }

  /** The text of a frame before its `10=` trailer. */
  function BeforeTrailer(frame: string): string
    requires 7 <= |frame|
  {
    frame[..|frame| - 7]
  }

  /**
   * A text `h` ending with SOH, followed by a trailer: read back whole when
   * `h` has no `10=` of its own, cut short inside `h` otherwise.
   */
  lemma ReadTrailed(h: string, digits: string, rest: string)
    requires 0 < |h| && h[|h| - 1] == SOH
    requires |digits| == 3 && AllDigits(digits)
    ensures !Contains(h, "10=") ==>
      ReadMessage(h + "10=" + digits + [SOH] + rest) == Some(Read(h + "10=" + digits + [SOH], rest))
    ensures Contains(h, "10=") ==>
      ReadMessage(h + "10=" + digits + [SOH] + rest).Some? &&
      |ReadMessage(h + "10=" + digits + [SOH] + rest).value.message| < |h| + 7
  {
    var frame := h + "10=" + digits + [SOH];
    if !Contains(h, "10=") {
      TrailedFrameDelimited(h, digits);
      ReadDelimited(frame, rest);
    } else {
      var input := frame + rest;
      assert input[..|h|] == h;
      assert Complete(input[..|h|]);
    }
  }

  /** A frame the framer hands over whole: no `10=` occurs before its trailer. */
  predicate ReadsWhole(fs: Fields) {
    !Contains(Header(fs), "10=")
  }

  /** Every frame of a run is handed over whole. */
  predicate AllReadWhole(sent: seq<Fields>) {
    forall k :: 0 <= k < |sent| ==> ReadsWhole(sent[k])
  }

  /**
   * A stream that begins with `Serialize(fs)` yields exactly that frame
   * when it reads whole, and a strict prefix of it otherwise.
   */
  lemma ReadSerialized(fs: Fields, rest: string)
    ensures ReadsWhole(fs) ==> ReadMessage(Serialize(fs) + rest) == Some(Read(Serialize(fs), rest))
    ensures !ReadsWhole(fs) ==>
      ReadMessage(Serialize(fs) + rest).Some? && |ReadMessage(Serialize(fs) + rest).value.message| < |Serialize(fs)|
  {
    var h := Header(fs);
    HeaderEndsWithSoh(fs);
    SerializeTrailer(fs);
    ReadTrailed(h, Pad3(Checksum(h)), rest);
  }

  /**
   * The text `readFIXMessage` hands to the session when the peer has written
   * `Serialize(fs)` followed by `rest`: the whole frame when it reads whole,
   * a strict prefix of it otherwise.
   */
  function Delivered(fs: Fields, rest: string): (message: string)
    ensures ReadsWhole(fs) ==> message == Serialize(fs)
    ensures !ReadsWhole(fs) ==> |message| < |Serialize(fs)| && message == Serialize(fs)[..|message|]
  {
    ReadSerialized(fs, rest);
    var r := ReadMessage(Serialize(fs) + rest).value;
    assert (Serialize(fs) + rest)[..|r.message|] == r.message;
    r.message
  }

  /** `build`'s frame is its checksummed header followed by the trailer. */
  lemma BuildTrailed(m: Fields, seqNum: Int32, sendingTime: string)
    ensures var h := Header(Stamp(m, seqNum, sendingTime));
      && Build(m, seqNum, sendingTime) == h + "10=" + Pad3(Checksum(h)) + [SOH]
      && BeforeTrailer(Build(m, seqNum, sendingTime)) == h
  {
    SerializeTrailer(Stamp(m, seqNum, sendingTime));
  }

  /**
   * The framer returns exactly `build(m)` from a stream that begins with it
   * if and only if the text before the trailer has no `10=`; otherwise it
   * stops early and returns a strict prefix of the frame.
   */
  lemma ReadBuiltMessage(m: Fields, seqNum: Int32, sendingTime: string, rest: string)
    ensures var frame := Build(m, seqNum, sendingTime);
      !Contains(BeforeTrailer(frame), "10=") ==> ReadMessage(frame + rest) == Some(Read(frame, rest))
    ensures var frame := Build(m, seqNum, sendingTime);
      Contains(BeforeTrailer(frame), "10=") ==>
        ReadMessage(frame + rest).Some? && |ReadMessage(frame + rest).value.message| < |frame|
  {
    var stamped := Stamp(m, seqNum, sendingTime);
    var h := Header(stamped);
    BuildTrailed(m, seqNum, sendingTime);
    HeaderEndsWithSoh(stamped);
    ReadTrailed(h, Pad3(Checksum(h)), rest);
  }

  /** Glue messages back to back, as the peer writes them on the stream. */
  function Concat(messages: seq<string>): string {
    if |messages| == 0 then "" else messages[0] + Concat(messages[1..])
  }

  /** The `while ((message = readFIXMessage()) != null)` loop: every message the stream yields. */
  function ReadAll(input: string): seq<string>
    decreases |input|
  {
    match ReadMessage(input)
    case Some(r) => [r.message] + ReadAll(r.rest)
    case None => []
  }

  /** A stream of delimited messages is read back message by message, and then ends. */
  lemma {:induction false} ReadAllConcat(messages: seq<string>)
    requires forall i :: 0 <= i < |messages| ==> Delimited(messages[i])
    ensures ReadAll(Concat(messages)) == messages
    decreases |messages|
  {
    if |messages| == 0 {
      assert ReadMessage("").None?;
    } else {
      ReadDelimited(messages[0], Concat(messages[1..]));
      ReadAllConcat(messages[1..]);
    }
  }
}

/**
 * What the server session and the client share: how an escaping exception
 * ends a step, how a Java `null` String is written into a message, the
 * messages both sides build the same way, and `sendMessage` with the
 * per-session outgoing counter.
 */
module Messaging {
  import opened Wrappers
  import opened JavaLang
  import opened FixMessage

  /**
   * The exceptions a handler lets escape, with the tag whose value caused
   * them. Nothing catches them inside the session: the server's `run` ends
   * and `cleanup` closes the socket; the client's listener task ends.
   */
  datatype Fault = NullPointer(tag: Int32) | NumberFormat(tag: Int32)

  const SenderCompIdTag: Int32 := 49
  const TargetCompIdTag: Int32 := 56
  const EncryptMethodTag: Int32 := 98
  const HeartBtIntTag: Int32 := 108
  const TestReqIdTag: Int32 := 112
  const ClOrdIdTag: Int32 := 11
  const OrigClOrdIdTag: Int32 := 41
  const OrderIdTag: Int32 := 37
  const SymbolTag: Int32 := 55
  const SideTag: Int32 := 54
  const OrderQtyTag: Int32 := 38
  const OrdTypeTag: Int32 := 40
  const PriceTag: Int32 := 44
  const TimeInForceTag: Int32 := 59
  const TransactTimeTag: Int32 := 60
  const ExecTypeTag: Int32 := 150
  const OrdStatusTag: Int32 := 39
  const LastQtyTag: Int32 := 32
  const LastPxTag: Int32 := 31

  /** `StringBuilder.append` writes a null String as the four letters `null`. */
  function Render(v: Option<string>): string {
    if v.Some? then v.value else "null"
  }

  /** `Integer.parseInt` of a field that may be absent: a null argument is a NumberFormatException too. */
  function ParseIntField(v: Option<string>): (r: Option<Int32>)
    ensures r.Some? ==> v.Some? && ParseInt(v.value) == r
    ensures v.Some? && ParseInt(v.value).Some? ==> r.Some?
  {
    if v.Some? then ParseInt(v.value) else None
  }

  /** Logon(A) with EncryptMethod(98) = 0 and HeartBtInt(108) = 30, as both sides send it. */
  function LogonMessage(): (m: Fields)
    ensures WellFormed(m) && SohFree(m) && MsgType(m) == "A"
    ensures Get(m, EncryptMethodTag) == Some("0") && Get(m, HeartBtIntTag) == Some("30")
  {
    Put(Put(NewMessage("A"), EncryptMethodTag, "0"), HeartBtIntTag, "30")
  }

  /** Logout(5) with no fields of its own. */
  function LogoutMessage(): (m: Fields)
    ensures WellFormed(m) && SohFree(m) && MsgType(m) == "5"
  {
    NewMessage("5")
  }

  /** A numeral never contains the delimiter. */
  lemma NumeralSohFree(n: int)
    ensures SOH !in IntToString(n)
  {
    var s := IntToString(n);
    forall i | 0 <= i < |s| ensures s[i] != SOH {
    }
  }

  // ---------------------------------------------------------------------
  // sendMessage
  // ---------------------------------------------------------------------

  /** The stamped message that went out, and the counter after it. */
  datatype Sent = Sent(next: Int32, message: Fields)

  /**
   * `sendMessage`: SenderCompID(49) and TargetCompID(56), then
   * `build(outgoingSeqNum++)`. The message is recorded as the fields
   * `build` serialises; its wire text is `Serialize(message)`.
   */
  function SendMessage(seqNum: Int32, sender: string, target: string, m: Fields, now: string): (r: Sent)
    ensures r.next == Inc32(seqNum)
    ensures Get(r.message, MsgSeqNumTag) == Some(IntToString(seqNum))
    ensures Get(r.message, SendingTimeTag) == Some(now)
    ensures Get(r.message, SenderCompIdTag) == Some(sender)
    ensures Get(r.message, TargetCompIdTag) == Some(target)
    ensures forall t :: t != MsgSeqNumTag && t != SendingTimeTag && t != SenderCompIdTag && t != TargetCompIdTag ==>
              Get(r.message, t) == Get(m, t)
    ensures WellFormed(m) ==> WellFormed(r.message)
    ensures SohFree(m) && SOH !in sender && SOH !in target && SOH !in now ==> SohFree(r.message)
  {
    var addressed := Put(Put(m, SenderCompIdTag, sender), TargetCompIdTag, target);
    NumeralSohFree(seqNum);
    Sent(Inc32(seqNum), Stamp(addressed, seqNum, now))
  }

  // ---------------------------------------------------------------------
  // Sequence numbers
  // ---------------------------------------------------------------------

  /** The counter after `k` increments of a Java `int`. */
  function Advance32(x: Int32, k: nat): Int32 {
    if k == 0 then x else Inc32(Advance32(x, k - 1))
  }

  /** `k` increments never wrap while they stay within `Integer.MAX_VALUE`. */
  lemma {:induction false} AdvanceNoWrap(x: Int32, k: nat)
    requires x + k <= MaxInt32
    ensures Advance32(x, k) == x + k
  {
    if k > 0 {
      AdvanceNoWrap(x, k - 1);
    }
  }

  /** Increments compose. */
  lemma {:induction false} AdvanceAdd(x: Int32, j: nat, k: nat)
    ensures Advance32(Advance32(x, j), k) == Advance32(x, j + k)
  {
    if k > 0 {
      AdvanceAdd(x, j, k - 1);
    }
  }

  /** Incrementing first and then `k` times is incrementing `k + 1` times. */
  lemma {:induction false} AdvanceShift(x: Int32, k: nat)
    ensures Advance32(Inc32(x), k) == Advance32(x, k + 1)
  {
    if k > 0 {
      AdvanceShift(x, k - 1);
    }
  }

  /** The message after the 2147483647th of a session goes out numbered -2147483648. */
  lemma SeqNumWraps()
    ensures Advance32(1, MaxInt32) == MinInt32
  {
    AdvanceNoWrap(1, MaxInt32 - 1);
  }

  /** The `i`th message of `sent` carries MsgSeqNum(34) `first` advanced `i` times. */
  ghost predicate Numbered(sent: seq<Fields>, first: Int32) {
    forall i :: 0 <= i < |sent| ==> Get(sent[i], MsgSeqNumTag) == Some(IntToString(Advance32(first, i)))
  }

  /** Every message of `sent` is addressed from `sender` to `target`. */
  ghost predicate Addressed(sent: seq<Fields>, sender: string, target: string) {
    forall i :: 0 <= i < |sent| ==>
      Get(sent[i], SenderCompIdTag) == Some(sender) && Get(sent[i], TargetCompIdTag) == Some(target)
  }

  /** Two numbered runs, the second picking up where the first left off, make one. */
  lemma NumberedAppend(a: seq<Fields>, b: seq<Fields>, first: Int32)
    requires Numbered(a, first) && Numbered(b, Advance32(first, |a|))
    ensures Numbered(a + b, first)
  {
    var ab := a + b;
    forall i | 0 <= i < |ab| ensures Get(ab[i], MsgSeqNumTag) == Some(IntToString(Advance32(first, i))) {
      if i < |a| {
        assert ab[i] == a[i];
      } else {
        var j := i - |a|;
        assert ab[i] == b[j];
        assert Get(b[j], MsgSeqNumTag) == Some(IntToString(Advance32(Advance32(first, |a|), j)));
        AdvanceAdd(first, |a|, j);
      }
    }
  }

  /** A session's first 2147483647 messages are numbered 1, 2, 3, ... */
  lemma NumberedFromOne(sent: seq<Fields>)
    requires Numbered(sent, 1) && |sent| <= MaxInt32
    ensures forall i :: 0 <= i < |sent| ==> Get(sent[i], MsgSeqNumTag) == Some(IntToString(i + 1))
  {
    forall i | 0 <= i < |sent| ensures Get(sent[i], MsgSeqNumTag) == Some(IntToString(i + 1)) {
      AdvanceNoWrap(1, i);
    }
  }
}

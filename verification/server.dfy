/**
 * `FIXServerSession`: one step per frame read from the client, and the
 * session's read loop. Each step parses the frame, learns the CompIDs from
 * the first message, dispatches on MsgType(35), and counts the message in.
 */
module Server {
  import opened Wrappers
  import opened JavaLang
  import opened FixMessage
  import opened Orders
  import opened Messaging

  /**
   * The session's fields. `ownId` and `peerId` are its `senderCompID`
   * (the client's TargetCompID) and `targetCompID` (the client's
   * SenderCompID), null until a message supplies them.
   */
  datatype Session = Session(
    outgoingSeq: Int32,
    incomingSeq: Int32,
    loggedOn: bool,
    ownId: Option<string>,
    peerId: Option<string>)

  /** A freshly accepted connection. */
  const Initial: Session := Session(1, 1, false, None, None)

  /**
   * What a step reads from outside the session: the UTC timestamp text,
   * `System.currentTimeMillis()`, and `String.format("%.2f",
   * Double.parseDouble(v))` with `None` where `parseDouble` rejects `v`.
   */
  datatype Env = Env(now: string, millis: nat, formatPrice: string -> Option<string>)

  /** A step's outcome: new state, book, the messages sent in order, and an escaping exception. */
  datatype Step = Step(session: Session, book: Book, sent: seq<Fields>, fault: Option<Fault>)

  /**
   * A step sends at most one message. If it sends one, that message carries
   * the session's counter and CompIDs, and the counter moves on by one.
   */
  predicate SentOne(s: Session, r: Step) {
    if r.sent == [] then r.session.outgoingSeq == s.outgoingSeq
    else
      && |r.sent| == 1
      && r.session.outgoingSeq == Inc32(s.outgoingSeq)
      && Get(r.sent[0], MsgSeqNumTag) == Some(IntToString(s.outgoingSeq))
      && Get(r.sent[0], SenderCompIdTag) == Some(Render(r.session.ownId))
      && Get(r.sent[0], TargetCompIdTag) == Some(Render(r.session.peerId))
  }

  /** A step's send, seen as a run of one. */
  lemma SentOneNumbered(s: Session, r: Step)
    requires SentOne(s, r)
    ensures r.session.outgoingSeq == Advance32(s.outgoingSeq, |r.sent|)
    ensures Numbered(r.sent, s.outgoingSeq)
    ensures Addressed(r.sent, Render(r.session.ownId), Render(r.session.peerId))
  {
  }

  function Quiet(s: Session, book: Book): Step {
    Step(s, book, [], None)
  }

  function Faulted(s: Session, book: Book, f: Fault): Step {
    Step(s, book, [], Some(f))
  }

  /** The server's `sendMessage`: its own ID as sender, the peer's as target, null written as `null`. */
  function Reply(s: Session, book: Book, m: Fields, now: string): (r: Step)
    ensures SentOne(s, r) && r.session.ownId == s.ownId && r.session.peerId == s.peerId
    ensures |r.sent| == 1 && r.book == book && r.fault.None? && r.session.loggedOn == s.loggedOn
    ensures r.session.incomingSeq == s.incomingSeq
    ensures forall t :: t != MsgSeqNumTag && t != SendingTimeTag && t != SenderCompIdTag && t != TargetCompIdTag ==>
              Get(r.sent[0], t) == Get(m, t)
    ensures WellFormed(m) ==> WellFormed(r.sent[0])
    ensures SohFree(m) && SOH !in Render(s.ownId) && SOH !in Render(s.peerId) && SOH !in now ==> SohFree(r.sent[0])
  {
    var out := SendMessage(s.outgoingSeq, Render(s.ownId), Render(s.peerId), m, now);
    Step(s.(outgoingSeq := out.next), book, [out.message], None)
  }

  /** `sendHeartbeat`'s message: Heartbeat(0), echoing TestReqID(112) when there is one. */
  function HeartbeatMessage(testReqId: Option<string>): (m: Fields)
    ensures WellFormed(m) && MsgType(m) == "0"
    ensures Get(m, TestReqIdTag) == testReqId
  {
    if testReqId.Some? then Put(NewMessage("0"), TestReqIdTag, testReqId.value) else NewMessage("0")
  }

  /** None of the order's text contains the delimiter. */
  predicate OrderTextFree(o: Order) {
    SOH !in o.orderId && SOH !in o.clOrdId && SOH !in o.symbol && SOH !in o.price
  }

  /** The CompIDs the session writes hold no delimiter. */
  predicate IdsFree(s: Session) {
    SOH !in Render(s.ownId) && SOH !in Render(s.peerId)
  }

  /** The part of an execution report that does not depend on the fill: identity, codes and terms. */
  function ReportTerms(o: Order, execType: string, ordStatus: string): (m: Fields)
    ensures MsgType(m) == "8"
    ensures Get(m, OrderIdTag) == Some(o.orderId) && Get(m, ClOrdIdTag) == Some(o.clOrdId)
    ensures Get(m, ExecTypeTag) == Some(execType) && Get(m, OrdStatusTag) == Some(ordStatus)
    ensures Get(m, SymbolTag) == Some(o.symbol) && Get(m, SideTag) == Some(SideCode(o.side))
    ensures Get(m, OrderQtyTag) == Some(IntToString(o.quantity)) && Get(m, PriceTag) == Some(o.price)
    ensures Get(m, LastQtyTag).None? && Get(m, LastPxTag).None? && Get(m, TransactTimeTag).None?
  {
    var m0 := Put2(NewMessage("8"), OrderIdTag, o.orderId, ClOrdIdTag, o.clOrdId);
    var m1 := Put2(m0, ExecTypeTag, execType, OrdStatusTag, ordStatus);
    var m2 := Put2(m1, SymbolTag, o.symbol, SideTag, SideCode(o.side));
    Put2(m2, OrderQtyTag, IntToString(o.quantity), PriceTag, o.price)
  }

  /**
   * `sendExecutionReport`'s message for `o`: the order's identity and terms,
   * the two codes passed in, LastQty(32) and LastPx(31) only when something
   * is filled, and TransactTime(60).
   */
  function ExecutionReport(o: Order, execType: string, ordStatus: string, now: string): (m: Fields)
    ensures MsgType(m) == "8"
    ensures Get(m, OrderIdTag) == Some(o.orderId) && Get(m, ClOrdIdTag) == Some(o.clOrdId)
    ensures Get(m, ExecTypeTag) == Some(execType) && Get(m, OrdStatusTag) == Some(ordStatus)
    ensures Get(m, SymbolTag) == Some(o.symbol) && Get(m, SideTag) == Some(SideCode(o.side))
    ensures Get(m, OrderQtyTag) == Some(IntToString(o.quantity)) && Get(m, PriceTag) == Some(o.price)
    ensures Get(m, LastQtyTag).Some? <==> o.filledQty > 0
    ensures o.filledQty > 0 ==> Get(m, LastQtyTag) == Some(IntToString(o.filledQty)) && Get(m, LastPxTag) == Some(o.price)
    ensures Get(m, TransactTimeTag) == Some(now)
  {
    var terms := ReportTerms(o, execType, ordStatus);
    var filled := if o.filledQty > 0 then Put2(terms, LastQtyTag, IntToString(o.filledQty), LastPxTag, o.price) else terms;
    Put(filled, TransactTimeTag, now)
  }

  /** The fill-independent part of a report is a well-formed message. */
  lemma ReportTermsWellFormed(o: Order, execType: string, ordStatus: string)
    ensures WellFormed(ReportTerms(o, execType, ordStatus))
  {
    var m0 := Put2(NewMessage("8"), OrderIdTag, o.orderId, ClOrdIdTag, o.clOrdId);
    var m1 := Put2(m0, ExecTypeTag, execType, OrdStatusTag, ordStatus);
    var m2 := Put2(m1, SymbolTag, o.symbol, SideTag, SideCode(o.side));
    assert WellFormed(m0);
    assert WellFormed(m1);
    assert WellFormed(m2);
    assert ReportTerms(o, execType, ordStatus) == Put2(m2, OrderQtyTag, IntToString(o.quantity), PriceTag, o.price);
  }

  /** The fill-independent part of a report holds no delimiter when the order's text and the codes hold none. */
  lemma ReportTermsSohFree(o: Order, execType: string, ordStatus: string)
    requires OrderTextFree(o) && SOH !in execType && SOH !in ordStatus
    ensures SohFree(ReportTerms(o, execType, ordStatus))
  {
    NumeralSohFree(o.quantity);
    var m0 := Put2(NewMessage("8"), OrderIdTag, o.orderId, ClOrdIdTag, o.clOrdId);
    var m1 := Put2(m0, ExecTypeTag, execType, OrdStatusTag, ordStatus);
    var m2 := Put2(m1, SymbolTag, o.symbol, SideTag, SideCode(o.side));
    assert SohFree(m0);
    assert SohFree(m1);
    assert SohFree(m2);
    assert ReportTerms(o, execType, ordStatus) == Put2(m2, OrderQtyTag, IntToString(o.quantity), PriceTag, o.price);
  }

  /** An execution report is a well-formed message, and holds no delimiter when the order's text and the codes hold none. */
  lemma ExecutionReportFree(o: Order, execType: string, ordStatus: string, now: string)
    ensures WellFormed(ExecutionReport(o, execType, ordStatus, now))
    ensures OrderTextFree(o) && SOH !in execType && SOH !in ordStatus && SOH !in now ==>
              SohFree(ExecutionReport(o, execType, ordStatus, now))
  {
    ReportTermsWellFormed(o, execType, ordStatus);
    if OrderTextFree(o) && SOH !in execType && SOH !in ordStatus && SOH !in now {
      ReportTermsSohFree(o, execType, ordStatus);
      NumeralSohFree(o.filledQty);
    }
  }

  /** The broker-assigned OrderID, `"EXE" + System.currentTimeMillis()`. */
  function OrderIdAt(millis: nat): string {
    "EXE" + NatToString(millis)
  }

  /** A broker-assigned OrderID is "EXE" and digits, so it never holds the delimiter. */
  lemma OrderIdSohFree(millis: nat)
    ensures SOH !in OrderIdAt(millis)
  {
    var digits := NatToString(millis);
    var id := OrderIdAt(millis);
    forall i | 0 <= i < |id| ensures id[i] != SOH {
      if i >= 3 {
        assert id[i] == digits[i - 3];
      }
    }
  }

  /**
   * Whether `handleNewOrder` gets through its reads of `m`: OrderQty(38)
   * must parse as an int, Price(44) must be present and parse as a double,
   * and Side(54) must be present.
   */
  predicate NewOrderReadable(m: Fields, env: Env) {
    && ParseIntField(Get(m, OrderQtyTag)).Some?
    && Get(m, PriceTag).Some? && env.formatPrice(Get(m, PriceTag).value).Some?
    && Get(m, SideTag).Some?
  }

  /** The order `handleNewOrder` creates from a readable `m`. */
  function PlacedOrder(m: Fields, env: Env): (o: Order)
    requires NewOrderReadable(m, env)
    ensures ServerOrderOk(o) && o.orderId == OrderIdAt(env.millis)
  {
    NewOrder(OrderIdAt(env.millis), Render(Get(m, ClOrdIdTag)), Render(Get(m, SymbolTag)),
             SideName(Get(m, SideTag).value), ParseIntField(Get(m, OrderQtyTag)).value,
             env.formatPrice(Get(m, PriceTag).value).value)
  }

  /**
   * `handleNewOrder` once every read has succeeded: the new order is
   * acknowledged with ExecType and OrdStatus `0`, then registered as
   * PENDING under its fresh OrderID; nothing else in the book changes.
   */
  function AcceptOrder(s: Session, book: Book, m: Fields, env: Env): (r: Step)
    requires NewOrderReadable(m, env)
    ensures SentOne(s, r) && r.session.ownId == s.ownId && r.session.peerId == s.peerId
    ensures r.session.loggedOn == s.loggedOn && r.session.incomingSeq == s.incomingSeq && r.fault.None?
    ensures var id := OrderIdAt(env.millis);
      && id in r.book && r.book[id].status == Pending && r.book[id].filledQty == 0
      && r.book[id].clOrdId == Render(Get(m, ClOrdIdTag)) && r.book[id].symbol == Render(Get(m, SymbolTag))
      && r.book[id].side == SideName(Get(m, SideTag).value)
      && Some(r.book[id].quantity) == ParseIntField(Get(m, OrderQtyTag))
      && OthersUnchanged(book, r.book, id)
    ensures |r.sent| == 1 && MsgType(r.sent[0]) == "8"
    ensures Get(r.sent[0], OrderIdTag) == Some(OrderIdAt(env.millis))
    ensures Get(r.sent[0], ExecTypeTag) == Some("0") && Get(r.sent[0], OrdStatusTag) == Some("0")
    ensures Get(r.sent[0], ClOrdIdTag) == Some(Render(Get(m, ClOrdIdTag))) && Get(r.sent[0], LastQtyTag).None?
    ensures BookOk(book) ==> BookOk(r.book)
  {
    var o := PlacedOrder(m, env);
    var r := Reply(s, book, ExecutionReport(o, "0", "0", env.now), env.now);
    r.(book := Register(book, o))
  }

  /**
   * The acknowledgement of an accepted order is a well-formed message, and
   * holds no delimiter when neither the CompIDs, the clock, the order's
   * ClOrdID and Symbol nor its formatted price hold one.
   */
  lemma AcceptOrderFree(s: Session, book: Book, m: Fields, env: Env)
    requires NewOrderReadable(m, env)
    ensures WellFormed(AcceptOrder(s, book, m, env).sent[0])
    ensures IdsFree(s) && SOH !in env.now && SOH !in Render(Get(m, ClOrdIdTag)) && SOH !in Render(Get(m, SymbolTag))
            && SOH !in env.formatPrice(Get(m, PriceTag).value).value ==>
              SohFree(AcceptOrder(s, book, m, env).sent[0])
  {
    var o := PlacedOrder(m, env);
    var report := ExecutionReport(o, "0", "0", env.now);
    assert AcceptOrder(s, book, m, env).sent == Reply(s, book, report, env.now).sent;
    ExecutionReportFree(o, "0", "0", env.now);
    if IdsFree(s) && SOH !in env.now && SOH !in o.clOrdId && SOH !in o.symbol && SOH !in o.price {
      OrderIdSohFree(env.millis);
      assert OrderTextFree(o);
    }
  }

  /**
   * `handleNewOrder`. The exceptions come in the order the fields are read:
   * OrderQty(38), then Price(44) (null, then unparsable), then Side(54).
   * A message that gets through all four reads is accepted.
   */
  function HandleNewOrder(s: Session, book: Book, m: Fields, env: Env): (r: Step)
    ensures SentOne(s, r) && r.session.ownId == s.ownId && r.session.peerId == s.peerId
    ensures r.session.loggedOn == s.loggedOn && r.session.incomingSeq == s.incomingSeq
    ensures BookOk(book) ==> BookOk(r.book)
    ensures r.fault.None? <==> NewOrderReadable(m, env)
    ensures r.fault.Some? ==> r.session == s && r.book == book && r.sent == []
    ensures ParseIntField(Get(m, OrderQtyTag)).None? ==> r.fault == Some(NumberFormat(OrderQtyTag))
    ensures ParseIntField(Get(m, OrderQtyTag)).Some? && Get(m, PriceTag).None? ==> r.fault == Some(NullPointer(PriceTag))
    ensures ParseIntField(Get(m, OrderQtyTag)).Some? && Get(m, PriceTag).Some? && env.formatPrice(Get(m, PriceTag).value).None? ==>
              r.fault == Some(NumberFormat(PriceTag))
    ensures (ParseIntField(Get(m, OrderQtyTag)).Some? && Get(m, PriceTag).Some?
             && env.formatPrice(Get(m, PriceTag).value).Some? && Get(m, SideTag).None?) ==>
              r.fault == Some(NullPointer(SideTag))
    ensures NewOrderReadable(m, env) ==> r == AcceptOrder(s, book, m, env)
  {
    if ParseIntField(Get(m, OrderQtyTag)).None? then Faulted(s, book, NumberFormat(OrderQtyTag))
    else if Get(m, PriceTag).None? then Faulted(s, book, NullPointer(PriceTag))
    else if env.formatPrice(Get(m, PriceTag).value).None? then Faulted(s, book, NumberFormat(PriceTag))
    else if Get(m, SideTag).None? then Faulted(s, book, NullPointer(SideTag))
    else AcceptOrder(s, book, m, env)
  }

  /**
   * `handleCancelRequest` on an order that is in the book and not FILLED:
   * it becomes CANCELED, with its terms and fill kept, and is reported with
   * ExecType and OrdStatus `4`; nothing else in the book changes.
   */
  function CancelOrder(s: Session, book: Book, id: string, now: string): (r: Step)
    requires Cancelable(book, id)
    ensures SentOne(s, r) && r.session.ownId == s.ownId && r.session.peerId == s.peerId
    ensures r.session.loggedOn == s.loggedOn && r.session.incomingSeq == s.incomingSeq && r.fault.None?
    ensures r.book.Keys == book.Keys && r.book[id].status == Canceled && SameTerms(r.book[id], book[id])
    ensures r.book[id].filledQty == book[id].filledQty && OthersUnchanged(book, r.book, id)
    ensures |r.sent| == 1 && MsgType(r.sent[0]) == "8"
    ensures Get(r.sent[0], OrderIdTag) == Some(book[id].orderId) && Get(r.sent[0], ClOrdIdTag) == Some(book[id].clOrdId)
    ensures Get(r.sent[0], ExecTypeTag) == Some("4") && Get(r.sent[0], OrdStatusTag) == Some("4")
    ensures BookOk(book) ==> BookOk(r.book)
  {
    var after := MarkCanceled(book, id);
    Reply(s, after, ExecutionReport(after[id], "4", "4", now), now)
  }

  /**
   * `handleCancelRequest`: looks up OrderID(37) in the book (a null ID
   * throws); an order that is there and not FILLED is canceled. Anything
   * else is ignored.
   */
  function HandleCancelRequest(s: Session, book: Book, m: Fields, now: string): (r: Step)
    ensures SentOne(s, r) && r.session.ownId == s.ownId && r.session.peerId == s.peerId
    ensures r.session.loggedOn == s.loggedOn && r.session.incomingSeq == s.incomingSeq
    ensures BookOk(book) ==> BookOk(r.book)
    ensures r.fault.Some? <==> Get(m, OrderIdTag).None?
    ensures r.fault.Some? ==> r.fault == Some(NullPointer(OrderIdTag)) && r.session == s && r.book == book && r.sent == []
    ensures Get(m, OrderIdTag).Some? && !Cancelable(book, Get(m, OrderIdTag).value) ==>
              r.session == s && r.book == book && r.sent == []
    ensures Get(m, OrderIdTag).Some? && Cancelable(book, Get(m, OrderIdTag).value) ==>
              r == CancelOrder(s, book, Get(m, OrderIdTag).value, now)
  {
    match Get(m, OrderIdTag)
    case None => Faulted(s, book, NullPointer(OrderIdTag))
    case Some(id) =>
      if Cancelable(book, id) then CancelOrder(s, book, id, now)
      else Quiet(s, book)
  }

  /** `handleLogon`: the session is logged on, then answered with a Logon carrying EncryptMethod 0 and HeartBtInt 30. */
  function HandleLogon(s: Session, book: Book, now: string): (r: Step)
    ensures SentOne(s, r) && r.session.ownId == s.ownId && r.session.peerId == s.peerId
    ensures r.session.incomingSeq == s.incomingSeq && r.book == book && r.fault.None?
    ensures r.session.loggedOn && |r.sent| == 1 && MsgType(r.sent[0]) == "A"
    ensures Get(r.sent[0], EncryptMethodTag) == Some("0") && Get(r.sent[0], HeartBtIntTag) == Some("30")
  {
    Reply(s.(loggedOn := true), book, LogonMessage(), now)
  }

  /** `sendHeartbeat`: a Heartbeat, echoing the TestReqID(112) it is given. */
  function SendHeartbeat(s: Session, book: Book, testReqId: Option<string>, now: string): (r: Step)
    ensures SentOne(s, r) && r.session.ownId == s.ownId && r.session.peerId == s.peerId
    ensures r.session.incomingSeq == s.incomingSeq && r.session.loggedOn == s.loggedOn
    ensures r.book == book && r.fault.None?
    ensures |r.sent| == 1 && MsgType(r.sent[0]) == "0" && Get(r.sent[0], TestReqIdTag) == testReqId
  {
    Reply(s, book, HeartbeatMessage(testReqId), now)
  }

  /** `handleLogout`: a Logout is sent, then the session is no longer logged on. */
  function HandleLogout(s: Session, book: Book, now: string): (r: Step)
    ensures SentOne(s, r) && r.session.ownId == s.ownId && r.session.peerId == s.peerId
    ensures r.session.incomingSeq == s.incomingSeq && r.book == book && r.fault.None?
    ensures !r.session.loggedOn && |r.sent| == 1 && MsgType(r.sent[0]) == "5"
  {
    var r := Reply(s, book, LogoutMessage(), now);
    r.(session := r.session.(loggedOn := false))
  }

  /** The `switch` of `processMessage`; unknown types are ignored. */
  function Dispatch(s: Session, book: Book, m: Fields, msgType: string, env: Env): (r: Step)
    ensures SentOne(s, r)
    ensures r.session.ownId == s.ownId && r.session.peerId == s.peerId && r.session.incomingSeq == s.incomingSeq
    ensures r.fault.Some? ==> r.book == book && r.sent == [] && (msgType == "D" || msgType == "F")
    ensures msgType !in {"A", "1", "D", "F", "5"} ==> r.sent == []
    ensures msgType != "A" && msgType != "5" ==> r.session.loggedOn == s.loggedOn
    ensures BookOk(book) ==> BookOk(r.book)
  {
    match msgType
    case "A" => HandleLogon(s, book, env.now)
    case "0" => Quiet(s, book)
    case "1" => SendHeartbeat(s, book, Get(m, TestReqIdTag), env.now)
    case "D" => HandleNewOrder(s, book, m, env)
    case "F" => HandleCancelRequest(s, book, m, env.now)
    case "5" => HandleLogout(s, book, env.now)
    case _ => Quiet(s, book)
  }

  /** Dispatch routes a Logon to `handleLogon`. */
  lemma DispatchLogon(s: Session, book: Book, m: Fields, env: Env)
    ensures Dispatch(s, book, m, "A", env) == HandleLogon(s, book, env.now)
  {
    var a: string := "A";
    assert Dispatch(s, book, m, a, env) == HandleLogon(s, book, env.now);
  }

  /** Dispatch answers a TestRequest with a Heartbeat echoing its TestReqID(112). */
  lemma DispatchTestRequest(s: Session, book: Book, m: Fields, env: Env)
    ensures Dispatch(s, book, m, "1", env) == SendHeartbeat(s, book, Get(m, TestReqIdTag), env.now)
  {
    var t: string := "1";
    assert t != "A" && t != "0";
    assert Dispatch(s, book, m, t, env) == SendHeartbeat(s, book, Get(m, TestReqIdTag), env.now);
  }

  /** Dispatch routes a Logout to `handleLogout`. */
  lemma DispatchLogout(s: Session, book: Book, m: Fields, env: Env)
    ensures Dispatch(s, book, m, "5", env) == HandleLogout(s, book, env.now)
  {
    var l: string := "5";
    assert l != "A" && l != "0" && l != "1" && l != "D" && l != "F";
    assert Dispatch(s, book, m, l, env) == HandleLogout(s, book, env.now);
  }

  /** A Heartbeat from the peer is read and ignored. */
  lemma DispatchHeartbeat(s: Session, book: Book, m: Fields, env: Env)
    ensures Dispatch(s, book, m, "0", env) == Quiet(s, book)
  {
    var h: string := "0";
    assert h != "A";
    assert Dispatch(s, book, m, h, env) == Quiet(s, book);
  }

  /** Dispatch routes a NewOrderSingle to `handleNewOrder`. */
  lemma DispatchNewOrder(s: Session, book: Book, m: Fields, env: Env)
    ensures Dispatch(s, book, m, "D", env) == HandleNewOrder(s, book, m, env)
  {
    var d: string := "D";
    assert d != "A" && d != "0" && d != "1";
    assert Dispatch(s, book, m, d, env) == HandleNewOrder(s, book, m, env);
  }

  /** Dispatch routes an OrderCancelRequest to `handleCancelRequest`. */
  lemma DispatchCancel(s: Session, book: Book, m: Fields, env: Env)
    ensures Dispatch(s, book, m, "F", env) == HandleCancelRequest(s, book, m, env.now)
  {
    var f: string := "F";
    assert f != "A" && f != "0" && f != "1" && f != "D";
    assert Dispatch(s, book, m, f, env) == HandleCancelRequest(s, book, m, env.now);
  }

  /** The session's CompIDs, taken from `m` (its TargetCompID as our own) while our own is still null. */
  function Learn(s: Session, m: Fields): Session {
    if s.ownId.None? then s.(ownId := Get(m, TargetCompIdTag), peerId := Get(m, SenderCompIdTag)) else s
  }

  /**
   * `processMessage`. The CompIDs are taken from the message while the
   * session's own ID is still null; the incoming counter advances only
   * when the handler returns normally.
   */
  function ProcessMessage(s: Session, book: Book, raw: string, env: Env): (r: Step)
    ensures SentOne(s, r)
    ensures r.fault.None? ==> r.session.incomingSeq == Inc32(s.incomingSeq)
    ensures r.fault.Some? ==> r.session.incomingSeq == s.incomingSeq && r.book == book && r.sent == []
    ensures r.fault.Some? ==> MsgType(Parse(raw)) == "D" || MsgType(Parse(raw)) == "F"
    ensures s.ownId.Some? ==> r.session.ownId == s.ownId && r.session.peerId == s.peerId
    ensures s.ownId.None? ==>
              r.session.ownId == Get(Parse(raw), TargetCompIdTag) && r.session.peerId == Get(Parse(raw), SenderCompIdTag)
    ensures BookOk(book) ==> BookOk(r.book)
  {
    var m := Parse(raw);
    match Get(m, MsgTypeTag)
    case None => Quiet(s, book)
    case Some(msgType) =>
      var d := Dispatch(Learn(s, m), book, m, msgType, env);
      if d.fault.Some? then d
      else d.(session := d.session.(incomingSeq := Inc32(d.session.incomingSeq)))
  }

  /**
   * A NewOrderSingle whose reads all succeed is accepted, and the frame is
   * counted in.
   */
  lemma ReadableOrderAccepted(s: Session, book: Book, raw: string, env: Env)
    requires Get(Parse(raw), MsgTypeTag) == Some("D") && NewOrderReadable(Parse(raw), env)
    ensures var d := AcceptOrder(Learn(s, Parse(raw)), book, Parse(raw), env);
      ProcessMessage(s, book, raw, env) == d.(session := d.session.(incomingSeq := Inc32(d.session.incomingSeq)))
  {
    var m := Parse(raw);
    DispatchNewOrder(Learn(s, m), book, m, env);
    assert HandleNewOrder(Learn(s, m), book, m, env) == AcceptOrder(Learn(s, m), book, m, env);
  }

  // ---------------------------------------------------------------------
  // run: the read loop
  // ---------------------------------------------------------------------

  /** A frame as `readFIXMessage` returned it, and what the step read from outside while handling it. */
  datatype Inbound = Inbound(raw: string, env: Env)

  /**
   * The loop's outcome: `processed` counts the frames handled without an
   * exception; a fault ends the loop, and the session with it.
   */
  datatype Run = Run(session: Session, book: Book, sent: seq<Fields>, processed: nat, fault: Option<Fault>)

  /** `run`'s loop over the frames read, stopping at the first escaping exception. */
  function Serve(s: Session, book: Book, frames: seq<Inbound>): Run
    decreases |frames|
  {
    if |frames| == 0 then Run(s, book, [], 0, None)
    else
      var r := ProcessMessage(s, book, frames[0].raw, frames[0].env);
      if r.fault.Some? then Run(r.session, r.book, r.sent, 0, r.fault)
      else
        var rest := Serve(r.session, r.book, frames[1..]);
        Run(rest.session, rest.book, r.sent + rest.sent, rest.processed + 1, rest.fault)
  }

  lemma AddressedAppend(a: seq<Fields>, b: seq<Fields>, sender: string, target: string)
    requires Addressed(a, sender, target) && Addressed(b, sender, target)
    ensures Addressed(a + b, sender, target)
  {
    var ab := a + b;
    forall i | 0 <= i < |ab|
      ensures Get(ab[i], SenderCompIdTag) == Some(sender) && Get(ab[i], TargetCompIdTag) == Some(target)
    {
      if i < |a| { assert ab[i] == a[i]; } else { assert ab[i] == b[i - |a|]; }
    }
  }

  /**
   * Over a whole session the loop stops early exactly when a handler
   * throws, and at most one message goes out per frame handled.
   */
  lemma {:induction false} ServeStops(s: Session, book: Book, frames: seq<Inbound>)
    ensures var run := Serve(s, book, frames);
      && |run.sent| <= run.processed <= |frames|
      && (run.fault.None? <==> run.processed == |frames|)
    decreases |frames|
  {
    if |frames| > 0 {
      var r := ProcessMessage(s, book, frames[0].raw, frames[0].env);
      if r.fault.None? {
        ServeStops(r.session, r.book, frames[1..]);
      }
    }
  }

  /** Over a whole session the incoming counter advances once per frame handled without an exception. */
  lemma {:induction false} ServeCounts(s: Session, book: Book, frames: seq<Inbound>)
    ensures Serve(s, book, frames).session.incomingSeq == Advance32(s.incomingSeq, Serve(s, book, frames).processed)
    decreases |frames|
  {
    if |frames| > 0 {
      var r := ProcessMessage(s, book, frames[0].raw, frames[0].env);
      if r.fault.None? {
        var rest := Serve(r.session, r.book, frames[1..]);
        assert Serve(s, book, frames).session == rest.session;
        assert Serve(s, book, frames).processed == rest.processed + 1;
        ServeCounts(r.session, r.book, frames[1..]);
        AdvanceShift(s.incomingSeq, rest.processed);
      }
    }
  }

  /** Over a whole session, messages go out numbered consecutively from the outgoing counter. */
  lemma {:induction false} ServeNumbers(s: Session, book: Book, frames: seq<Inbound>)
    ensures var run := Serve(s, book, frames);
      && run.session.outgoingSeq == Advance32(s.outgoingSeq, |run.sent|)
      && Numbered(run.sent, s.outgoingSeq)
    decreases |frames|
  {
    if |frames| > 0 {
      var r := ProcessMessage(s, book, frames[0].raw, frames[0].env);
      if r.fault.None? {
        var rest := Serve(r.session, r.book, frames[1..]);
        ServeNumbers(r.session, r.book, frames[1..]);
        SentOneNumbered(s, r);
        AdvanceAdd(s.outgoingSeq, |r.sent|, |rest.sent|);
        NumberedAppend(r.sent, rest.sent, s.outgoingSeq);
      }
    }
  }

  /**
   * Over a whole session, the CompIDs never change once learned, every
   * message after that carries them, and the book keeps `BookOk`.
   */
  lemma {:induction false} ServeKeeps(s: Session, book: Book, frames: seq<Inbound>)
    ensures var run := Serve(s, book, frames);
      && (s.ownId.Some? ==> run.session.ownId == s.ownId && run.session.peerId == s.peerId)
      && (s.ownId.Some? ==> Addressed(run.sent, Render(s.ownId), Render(s.peerId)))
      && (BookOk(book) ==> BookOk(run.book))
    decreases |frames|
  {
    if |frames| > 0 {
      var r := ProcessMessage(s, book, frames[0].raw, frames[0].env);
      if r.fault.None? {
        var rest := Serve(r.session, r.book, frames[1..]);
        ServeKeeps(r.session, r.book, frames[1..]);
        if s.ownId.Some? {
          SentOneNumbered(s, r);
          AddressedAppend(r.sent, rest.sent, Render(s.ownId), Render(s.peerId));
        }
      }
    }
  }

  /**
   * From a fresh connection, while the counters stay below
   * `Integer.MAX_VALUE`: the i-th message sent carries MsgSeqNum(34) i + 1
   * and the incoming counter is one more than the frames handled.
   */
  lemma ServeFromInitial(book: Book, frames: seq<Inbound>)
    requires |frames| < MaxInt32
    ensures var run := Serve(Initial, book, frames);
      && run.session.incomingSeq == run.processed + 1
      && run.session.outgoingSeq == |run.sent| + 1
      && forall i :: 0 <= i < |run.sent| ==> Get(run.sent[i], MsgSeqNumTag) == Some(IntToString(i + 1))
  {
    var run := Serve(Initial, book, frames);
    ServeStops(Initial, book, frames);
    ServeCounts(Initial, book, frames);
    ServeNumbers(Initial, book, frames);
    AdvanceNoWrap(1, run.processed);
    AdvanceNoWrap(1, |run.sent|);
    NumberedFromOne(run.sent);
  }
}

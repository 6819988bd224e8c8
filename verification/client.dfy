/**
 * `FIXClient`: the steps the initiator takes on its own (logon, order
 * entry, cancel, stop) and the handling of each frame its listener reads.
 * The client keeps its own orders keyed by ClOrdID(11).
 */
module Client {
  import opened Wrappers
  import opened JavaLang
  import opened FixMessage
  import opened Orders
  import opened Messaging

  /** The two CompIDs of `FIXConfig`; host, port and version only matter to the socket. */
  datatype Config = Config(senderCompId: string, targetCompId: string)

  /** The client's fields. `orders` is `clientOrders`, keyed by ClOrdID. */
  datatype Session = Session(
    config: Config,
    outgoingSeq: Int32,
    incomingSeq: Int32,
    connected: bool,
    loggedOn: bool,
    orders: map<string, Order>)

  /** After `connect`: both counters at 1, connected, not yet logged on, no orders. */
  function Connected(config: Config): Session {
    Session(config, 1, 1, true, false, map[])
  }

  /** An outbound step's outcome: the new state and the messages sent in order. */
  datatype Step = Step(session: Session, sent: seq<Fields>)

  /**
   * A step sends at most one message. If it sends one, that message carries
   * the configured CompIDs and the counter, and the counter moves on by one.
   * The configuration and the incoming counter never change.
   */
  predicate SentOne(c: Session, r: Step) {
    && r.session.config == c.config && r.session.incomingSeq == c.incomingSeq
    && if r.sent == [] then r.session.outgoingSeq == c.outgoingSeq
       else
         && |r.sent| == 1
         && r.session.outgoingSeq == Inc32(c.outgoingSeq)
         && Get(r.sent[0], MsgSeqNumTag) == Some(IntToString(c.outgoingSeq))
         && Get(r.sent[0], SenderCompIdTag) == Some(c.config.senderCompId)
         && Get(r.sent[0], TargetCompIdTag) == Some(c.config.targetCompId)
  }

  /** Neither CompID contains the delimiter. */
  predicate ConfigTextFree(config: Config) {
    SOH !in config.senderCompId && SOH !in config.targetCompId
  }

  /** The client's `sendMessage`: the configured CompIDs, then `build(outgoingSeqNum++)`. */
  function Send(c: Session, m: Fields, now: string): (r: Step)
    ensures SentOne(c, r) && |r.sent| == 1
    ensures r.session == c.(outgoingSeq := Inc32(c.outgoingSeq))
    ensures forall t :: t != MsgSeqNumTag && t != SendingTimeTag && t != SenderCompIdTag && t != TargetCompIdTag ==>
              Get(r.sent[0], t) == Get(m, t)
    ensures WellFormed(m) ==> WellFormed(r.sent[0])
    ensures SohFree(m) && ConfigTextFree(c.config) && SOH !in now ==> SohFree(r.sent[0])
  {
    var out := SendMessage(c.outgoingSeq, c.config.senderCompId, c.config.targetCompId, m, now);
    Step(c.(outgoingSeq := out.next), [out.message])
  }

  /** `sendLogon`: Logon(A) with 98=0 and 108=30. Logged-on waits for the server's reply. */
  function SendLogon(c: Session, now: string): (r: Step)
    ensures SentOne(c, r) && |r.sent| == 1
    ensures MsgType(r.sent[0]) == "A"
    ensures Get(r.sent[0], EncryptMethodTag) == Some("0") && Get(r.sent[0], HeartBtIntTag) == Some("30")
    ensures r.session.loggedOn == c.loggedOn && r.session.orders == c.orders && r.session.connected == c.connected
    ensures WellFormed(r.sent[0]) && (ConfigTextFree(c.config) && SOH !in now ==> SohFree(r.sent[0]))
  {
    Send(c, LogonMessage(), now)
  }

  // ---------------------------------------------------------------------
  // Order entry
  // ---------------------------------------------------------------------

  /** The instrument part of a NewOrderSingle(D): ClOrdID, Symbol, Side, OrderQty. */
  function OrderTerms(clOrdId: string, symbol: string, side: string, quantity: Int32): (m: Fields)
    ensures WellFormed(m) && MsgType(m) == "D"
    ensures Get(m, ClOrdIdTag) == Some(clOrdId) && Get(m, SymbolTag) == Some(symbol)
    ensures Get(m, SideTag) == Some(SideCode(side)) && Get(m, OrderQtyTag) == Some(IntToString(quantity))
    ensures forall t :: t != MsgTypeTag && t != ClOrdIdTag && t != SymbolTag && t != SideTag && t != OrderQtyTag ==>
              Get(m, t).None?
    ensures SOH !in clOrdId && SOH !in symbol ==> SohFree(m)
  {
    var m0 := Put2(NewMessage("D"), ClOrdIdTag, clOrdId, SymbolTag, symbol);
    var m := Put2(m0, SideTag, SideCode(side), OrderQtyTag, IntToString(quantity));
    assert SOH !in clOrdId && SOH !in symbol ==> SohFree(m) by {
      NumeralSohFree(quantity);
    }
    m
  }

  /** The NewOrderSingle(D) `sendNewOrderSingle` builds: a limit (40=2) day (59=0) order; the price is its `%.2f` text. */
  function NewOrderSingle(clOrdId: string, symbol: string, side: string, quantity: Int32,
                          price: string, now: string): (m: Fields)
    ensures WellFormed(m) && MsgType(m) == "D"
    ensures Get(m, ClOrdIdTag) == Some(clOrdId) && Get(m, SymbolTag) == Some(symbol)
    ensures Get(m, SideTag) == Some(SideCode(side)) && Get(m, OrderQtyTag) == Some(IntToString(quantity))
    ensures Get(m, OrdTypeTag) == Some("2") && Get(m, PriceTag) == Some(price)
    ensures Get(m, TimeInForceTag) == Some("0") && Get(m, TransactTimeTag) == Some(now)
    ensures Get(m, OrderIdTag).None?
    ensures SOH !in clOrdId && SOH !in symbol && SOH !in price && SOH !in now ==> SohFree(m)
  {
    var m1 := OrderTerms(clOrdId, symbol, side, quantity);
    var m2 := Put2(m1, OrdTypeTag, "2", PriceTag, price);
    Put2(m2, TimeInForceTag, "0", TransactTimeTag, now)
  }

  /**
   * `sendNewOrderSingle`: nothing at all unless logged on; otherwise the
   * order goes into the registry under its ClOrdID (replacing any order
   * already there) with an empty OrderID, and a NewOrderSingle is sent.
   */
  function SendNewOrderSingle(c: Session, clOrdId: string, symbol: string, side: string,
                              quantity: Int32, price: string, now: string): (r: Step)
    ensures SentOne(c, r)
    ensures !c.loggedOn ==> r.session == c && r.sent == []
    ensures c.loggedOn ==>
              && |r.sent| == 1 && MsgType(r.sent[0]) == "D"
              && r.session.orders == c.orders[clOrdId := NewOrder("", clOrdId, symbol, side, quantity, price)]
              && Get(r.sent[0], ClOrdIdTag) == Some(clOrdId) && Get(r.sent[0], SymbolTag) == Some(symbol)
              && Get(r.sent[0], SideTag) == Some(SideCode(side))
              && Get(r.sent[0], OrderQtyTag) == Some(IntToString(quantity)) && Get(r.sent[0], PriceTag) == Some(price)
              && Get(r.sent[0], OrdTypeTag) == Some("2") && Get(r.sent[0], TimeInForceTag) == Some("0")
    ensures c.loggedOn ==> WellFormed(r.sent[0])
    ensures c.loggedOn && ConfigTextFree(c.config) && SOH !in clOrdId && SOH !in symbol && SOH !in price && SOH !in now ==>
              SohFree(r.sent[0])
    ensures r.session.loggedOn == c.loggedOn && r.session.connected == c.connected
  {
    if !c.loggedOn then Step(c, [])
    else
      var placed := c.(orders := c.orders[clOrdId := NewOrder("", clOrdId, symbol, side, quantity, price)]);
      Send(placed, NewOrderSingle(clOrdId, symbol, side, quantity, price, now), now)
  }

  /** The new ClOrdID of a cancel request, `"CXL" + System.currentTimeMillis()`. */
  function CancelIdAt(millis: nat): string {
    "CXL" + NatToString(millis)
  }

  /** A `"CXL" + millis` ClOrdID holds no SOH. */
  lemma CancelIdSohFree(millis: nat)
    ensures SOH !in CancelIdAt(millis)
  {
    NumeralSohFree(millis);
    assert CancelIdAt(millis) == "CXL" + IntToString(millis);
  }

  /** The OrderCancelRequest(F) `sendOrderCancelRequest` builds for `o`. It carries no OrderID(37). */
  function CancelRequest(o: Order, clOrdId: string, millis: nat, now: string): (m: Fields)
    ensures WellFormed(m) && MsgType(m) == "F"
    ensures Get(m, OrigClOrdIdTag) == Some(clOrdId) && Get(m, ClOrdIdTag) == Some(CancelIdAt(millis))
    ensures Get(m, SymbolTag) == Some(o.symbol) && Get(m, SideTag) == Some(SideCode(o.side))
    ensures Get(m, TransactTimeTag) == Some(now)
    ensures Get(m, OrderIdTag).None?
    ensures SOH !in clOrdId && SOH !in o.symbol && SOH !in now ==> SohFree(m)
  {
    var m0 := Put2(NewMessage("F"), OrigClOrdIdTag, clOrdId, ClOrdIdTag, CancelIdAt(millis));
    var m1 := Put2(m0, SymbolTag, o.symbol, SideTag, SideCode(o.side));
    CancelIdSohFree(millis);
    Put(m1, TransactTimeTag, now)
  }

  /**
   * `sendOrderCancelRequest`: nothing for an unknown ClOrdID; otherwise a
   * cancel request for the registered order. It neither checks the logon
   * nor touches the registry.
   */
  function SendOrderCancelRequest(c: Session, clOrdId: string, millis: nat, now: string): (r: Step)
    ensures SentOne(c, r)
    ensures r.session.orders == c.orders && r.session.loggedOn == c.loggedOn && r.session.connected == c.connected
    ensures clOrdId !in c.orders ==> r.session == c && r.sent == []
    ensures clOrdId in c.orders ==>
              && |r.sent| == 1 && MsgType(r.sent[0]) == "F"
              && Get(r.sent[0], OrigClOrdIdTag) == Some(clOrdId)
              && Get(r.sent[0], ClOrdIdTag) == Some(CancelIdAt(millis))
              && Get(r.sent[0], SymbolTag) == Some(c.orders[clOrdId].symbol)
              && Get(r.sent[0], SideTag) == Some(SideCode(c.orders[clOrdId].side))
              && Get(r.sent[0], OrderIdTag).None?
    ensures clOrdId in c.orders ==> WellFormed(r.sent[0])
    ensures clOrdId in c.orders && ConfigTextFree(c.config) && SOH !in clOrdId && SOH !in c.orders[clOrdId].symbol && SOH !in now ==>
              SohFree(r.sent[0])
  {
    if clOrdId !in c.orders then Step(c, [])
    else Send(c, CancelRequest(c.orders[clOrdId], clOrdId, millis, now), now)
  }

  /** `stop`: a Logout(5) if logged on, then disconnected and logged off. */
  function Stop(c: Session, now: string): (r: Step)
    ensures SentOne(c, r)
    ensures !r.session.connected && !r.session.loggedOn && r.session.orders == c.orders
    ensures c.loggedOn <==> r.sent != []
    ensures c.loggedOn ==> MsgType(r.sent[0]) == "5"
  {
    var out := if c.loggedOn then Send(c, LogoutMessage(), now) else Step(c, []);
    out.(session := out.session.(connected := false, loggedOn := false))
  }

  // ---------------------------------------------------------------------
  // Inbound
  // ---------------------------------------------------------------------

  /** The registry after a report, and the exception it raised, if any. */
  datatype Applied = Applied(orders: map<string, Order>, fault: Option<Fault>)

  /** The last exception `handleExecutionReport` can raise, after every update: `getExecTypeDesc(null)`. */
  function ExecTypeCheck(orders: map<string, Order>, m: Fields): Applied {
    if Get(m, ExecTypeTag).None? then Applied(orders, Some(NullPointer(ExecTypeTag))) else Applied(orders, None)
  }

  /**
   * `handleExecutionReport`. Looking up a null ClOrdID(11) throws; an
   * unknown one changes nothing. For a known order, OrdStatus(39) (null
   * throws) sets the status; LastQty(32), when present, must parse and then
   * overwrites the filled quantity; a missing ExecType(150) throws last,
   * with the updates already made.
   */
  function ApplyExecutionReport(orders: map<string, Order>, m: Fields): (r: Applied)
    ensures r.orders.Keys == orders.Keys
    ensures Get(m, ClOrdIdTag).None? ==> r == Applied(orders, Some(NullPointer(ClOrdIdTag)))
    ensures Get(m, ClOrdIdTag).Some? && Get(m, ClOrdIdTag).value !in orders ==> r == Applied(orders, None)
    ensures Get(m, ClOrdIdTag).Some? && Get(m, ClOrdIdTag).value in orders && Get(m, OrdStatusTag).None? ==>
              r == Applied(orders, Some(NullPointer(OrdStatusTag)))
    ensures Get(m, ClOrdIdTag).Some? && Get(m, ClOrdIdTag).value in orders && Get(m, OrdStatusTag).Some? ==>
              var id := Get(m, ClOrdIdTag).value;
              && r.orders[id].status == OrderStatusOf(Get(m, OrdStatusTag).value)
              && SameTerms(r.orders[id], orders[id])
              && r.orders[id].filledQty == ParseIntField(Get(m, LastQtyTag)).GetOr(orders[id].filledQty)
              && OthersUnchanged(orders, r.orders, id)
              && r.fault == (if Get(m, LastQtyTag).Some? && ParseIntField(Get(m, LastQtyTag)).None? then Some(NumberFormat(LastQtyTag))
                             else if Get(m, ExecTypeTag).None? then Some(NullPointer(ExecTypeTag))
                             else None)
  {
    match Get(m, ClOrdIdTag)
    case None => Applied(orders, Some(NullPointer(ClOrdIdTag)))
    case Some(id) =>
      if id !in orders then Applied(orders, None)
      else
        match Get(m, OrdStatusTag)
        case None => Applied(orders, Some(NullPointer(OrdStatusTag)))
        case Some(code) =>
          var o := orders[id].(status := OrderStatusOf(code));
          match Get(m, LastQtyTag)
          case None => ExecTypeCheck(orders[id := o], m)
          case Some(lastQty) =>
            match ParseInt(lastQty)
            case None => Applied(orders[id := o], Some(NumberFormat(LastQtyTag)))
            case Some(q) => ExecTypeCheck(orders[id := o.(filledQty := q)], m)
  }

  /** What a frame does to the client, and the exception that ends the listener, if any. */
  datatype Received = Received(session: Session, fault: Option<Fault>)

  /** The `switch` of `processIncomingMessage`; unknown types are ignored. */
  function Handle(c: Session, m: Fields, msgType: string): (r: Received)
    ensures r.session.config == c.config && r.session.outgoingSeq == c.outgoingSeq
    ensures r.session.incomingSeq == c.incomingSeq && r.session.connected == c.connected
    ensures r.session.orders.Keys == c.orders.Keys
    ensures msgType == "A" ==> r.session.loggedOn
    ensures msgType == "5" ==> !r.session.loggedOn
    ensures msgType != "A" && msgType != "5" ==> r.session.loggedOn == c.loggedOn
    ensures msgType != "8" ==> r.session.orders == c.orders && r.fault.None?
  {
    match msgType
    case "A" => Received(c.(loggedOn := true), None)
    case "0" => Received(c, None)
    case "8" =>
      var a := ApplyExecutionReport(c.orders, m);
      Received(c.(orders := a.orders), a.fault)
    case "5" => Received(c.(loggedOn := false), None)
    case _ => Received(c, None)
  }

  /**
   * `processIncomingMessage`: the incoming counter advances when the
   * handler returns normally; an exception ends the listener with the
   * registry updates it had already made. Receiving never sends.
   */
  function ProcessIncoming(c: Session, raw: string): (r: Received)
    ensures r.session.config == c.config && r.session.outgoingSeq == c.outgoingSeq && r.session.connected == c.connected
    ensures r.session.orders.Keys == c.orders.Keys
    ensures r.fault.None? ==> r.session.incomingSeq == Inc32(c.incomingSeq)
    ensures r.fault.Some? ==> r.session.incomingSeq == c.incomingSeq && MsgType(Parse(raw)) == "8"
    ensures MsgType(Parse(raw)) == "A" ==> r.session.loggedOn
    ensures MsgType(Parse(raw)) == "5" ==> !r.session.loggedOn
    ensures MsgType(Parse(raw)) != "A" && MsgType(Parse(raw)) != "5" ==> r.session.loggedOn == c.loggedOn
    ensures MsgType(Parse(raw)) != "8" ==> r.session.orders == c.orders
  {
    var m := Parse(raw);
    match Get(m, MsgTypeTag)
    case None => Received(c, None)
    case Some(msgType) =>
      var h := Handle(c, m, msgType);
      if h.fault.Some? then h
      else h.(session := h.session.(incomingSeq := Inc32(c.incomingSeq)))
  }

  /**
   * A complete execution report for an order the client knows is taken in
   * whole: the order takes the status its OrdStatus(39) maps to and, when
   * LastQty(32) is present, that fill; every other entry stays as it was.
   */
  lemma ReportTaken(c: Session, raw: string, id: string, code: string)
    requires id in c.orders
    requires Get(Parse(raw), MsgTypeTag) == Some("8") && Get(Parse(raw), ClOrdIdTag) == Some(id)
    requires Get(Parse(raw), OrdStatusTag) == Some(code) && Get(Parse(raw), ExecTypeTag).Some?
    requires Get(Parse(raw), LastQtyTag).Some? ==> ParseIntField(Get(Parse(raw), LastQtyTag)).Some?
    ensures var r := ProcessIncoming(c, raw);
      && r.fault.None? && r.session.incomingSeq == Inc32(c.incomingSeq)
      && r.session.orders == c.orders[id := c.orders[id].(status := OrderStatusOf(code),
                                                          filledQty := ParseIntField(Get(Parse(raw), LastQtyTag)).GetOr(c.orders[id].filledQty))]
  {
    var m := Parse(raw);
    var a := ApplyExecutionReport(c.orders, m);
    var report: string := "8";
    assert report != "A" && report != "0";
    assert Handle(c, m, report) == Received(c.(orders := a.orders), a.fault);
    var o := c.orders[id].(status := OrderStatusOf(code), filledQty := ParseIntField(Get(m, LastQtyTag)).GetOr(c.orders[id].filledQty));
    assert a.orders[id] == o;
    assert a.orders == c.orders[id := o];
  }

  // ---------------------------------------------------------------------
  // The listener loop
  // ---------------------------------------------------------------------

  /** The listener's outcome: frames handled without an exception, and the one that ended it. */
  datatype Listened = Listened(session: Session, processed: nat, fault: Option<Fault>)

  /**
   * The listener task's loop over the frames read, while connected; an
   * exception ends it. Nothing in the loop changes `connected`.
   */
  function Listen(c: Session, frames: seq<string>): Listened
    decreases |frames|
  {
    if !c.connected || |frames| == 0 then Listened(c, 0, None)
    else
      var r := ProcessIncoming(c, frames[0]);
      if r.fault.Some? then Listened(r.session, 0, r.fault)
      else
        var rest := Listen(r.session, frames[1..]);
        Listened(rest.session, rest.processed + 1, rest.fault)
  }

  /**
   * Over the listener's life the incoming counter advances once per frame
   * handled without an exception.
   */
  lemma {:induction false} ListenCounts(c: Session, frames: seq<string>)
    ensures Listen(c, frames).session.incomingSeq == Advance32(c.incomingSeq, Listen(c, frames).processed)
    decreases |frames|
  {
    if c.connected && |frames| > 0 {
      var r := ProcessIncoming(c, frames[0]);
      if r.fault.None? {
        var rest := Listen(r.session, frames[1..]);
        assert Listen(c, frames) == Listened(rest.session, rest.processed + 1, rest.fault);
        ListenCounts(r.session, frames[1..]);
        AdvanceShift(c.incomingSeq, rest.processed);
      }
    }
  }

  /**
   * The outgoing counter, the configuration and the set of registered
   * ClOrdIDs never change while listening, and a connected listener stops
   * early exactly when a handler throws.
   */
  lemma {:induction false} ListenKeeps(c: Session, frames: seq<string>)
    ensures var run := Listen(c, frames);
      && run.session.outgoingSeq == c.outgoingSeq && run.session.config == c.config
      && run.session.orders.Keys == c.orders.Keys
      && run.processed <= |frames|
      && (c.connected ==> (run.fault.None? <==> run.processed == |frames|))
    decreases |frames|
  {
    if c.connected && |frames| > 0 {
      var r := ProcessIncoming(c, frames[0]);
      if r.fault.None? {
        ListenKeeps(r.session, frames[1..]);
      }
    }
  }
}

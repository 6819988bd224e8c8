/**
 * The client and the server talking over one connection: what a frame one
 * side builds does when the other side parses and handles it. A message
 * crosses the wire as `Serialize` of the fields its sender stamped, and
 * reaches the other side as the text `readFIXMessage` cuts off the stream
 * (`Framer.Delivered`); the lemmas below speak of frames that read whole.
 */
module Interplay {
  import opened Wrappers
  import opened JavaLang
  import opened FixMessage
  import opened Orders
  import opened Messaging
  import Server
  import Client
  import Framer

  // ---------------------------------------------------------------------
  // Logon
  // ---------------------------------------------------------------------

  /** The client's first Logon, as the server parses it. */
  lemma LogonOnWire(config: Client.Config, now: string)
    requires Client.ConfigTextFree(config) && SOH !in now
    ensures var m := Parse(Serialize(Client.SendLogon(Client.Connected(config), now).sent[0]));
      && Get(m, MsgTypeTag) == Some("A")
      && Get(m, SenderCompIdTag) == Some(config.senderCompId)
      && Get(m, TargetCompIdTag) == Some(config.targetCompId)
  {
    var c := Client.Connected(config);
    var out := Client.SendLogon(c, now);
    assert Client.SentOne(c, out) && c.config == config;
    var sent := out.sent[0];
    Carries(sent, MsgTypeTag, Some("A"));
    Carries(sent, SenderCompIdTag, Some(config.senderCompId));
    Carries(sent, TargetCompIdTag, Some(config.targetCompId));
  }

  /**
   * A fresh server session that reads the client's first Logon logs on,
   * takes the client's TargetCompID as its own ID and its SenderCompID as
   * the peer's, answers with Logon number 1 addressed back to the client,
   * and counts one message in and one out.
   */
  lemma LogonReachesServer(config: Client.Config, clientNow: string, rest: string, book: Book, env: Server.Env)
    requires Client.ConfigTextFree(config) && SOH !in clientNow
    requires Framer.ReadsWhole(Client.SendLogon(Client.Connected(config), clientNow).sent[0])
    ensures var raw := Framer.Delivered(Client.SendLogon(Client.Connected(config), clientNow).sent[0], rest);
      var r := Server.ProcessMessage(Server.Initial, book, raw, env);
      && r.fault.None? && r.book == book && r.session.loggedOn
      && r.session.ownId == Some(config.targetCompId) && r.session.peerId == Some(config.senderCompId)
      && r.session.incomingSeq == 2 && r.session.outgoingSeq == 2
      && |r.sent| == 1 && MsgType(r.sent[0]) == "A"
      && Get(r.sent[0], MsgSeqNumTag) == Some("1")
      && Get(r.sent[0], SenderCompIdTag) == Some(config.targetCompId)
      && Get(r.sent[0], TargetCompIdTag) == Some(config.senderCompId)
      && WellFormed(r.sent[0])
      && (SOH !in env.now ==> SohFree(r.sent[0]))
  {
    var raw := Framer.Delivered(Client.SendLogon(Client.Connected(config), clientNow).sent[0], rest);
    assert raw == Serialize(Client.SendLogon(Client.Connected(config), clientNow).sent[0]);
    LogonOnWire(config, clientNow);
    var m := Parse(raw);
    var learned := Server.Initial.(ownId := Some(config.targetCompId), peerId := Some(config.senderCompId));
    var d := Server.HandleLogon(learned, book, env.now);
    assert Server.Dispatch(learned, book, m, "A", env) == d;
    assert Server.ProcessMessage(Server.Initial, book, raw, env) == d.(session := d.session.(incomingSeq := 2));
    assert IntToString(1) == "1";
  }

  /** The server's Logon reply, read by the client that sent the first Logon, logs the client on. */
  lemma LogonHandshake(config: Client.Config, clientNow: string, serverRest: string, clientRest: string,
                       book: Book, env: Server.Env)
    requires Client.ConfigTextFree(config) && SOH !in clientNow && SOH !in env.now
    requires var out := Client.SendLogon(Client.Connected(config), clientNow);
      && Framer.ReadsWhole(out.sent[0])
      && Framer.AllReadWhole(Server.ProcessMessage(Server.Initial, book, Framer.Delivered(out.sent[0], serverRest), env).sent)
    ensures var out := Client.SendLogon(Client.Connected(config), clientNow);
      var r := Server.ProcessMessage(Server.Initial, book, Framer.Delivered(out.sent[0], serverRest), env);
      && |r.sent| == 1
      && var back := Client.ProcessIncoming(out.session, Framer.Delivered(r.sent[0], clientRest));
         && back.session.loggedOn && back.fault.None?
         && back.session.incomingSeq == 2 && back.session.outgoingSeq == 2
  {
    var out := Client.SendLogon(Client.Connected(config), clientNow);
    var r := Server.ProcessMessage(Server.Initial, book, Framer.Delivered(out.sent[0], serverRest), env);
    LogonReachesServer(config, clientNow, serverRest, book, env);
    assert Framer.ReadsWhole(r.sent[0]);
    Carries(r.sent[0], MsgTypeTag, Some("A"));
  }

  // ---------------------------------------------------------------------
  // Order entry
  // ---------------------------------------------------------------------

  /** A NewOrderSingle the client sends, as the server parses it. */
  lemma NewOrderOnWire(c: Client.Session, clOrdId: string, symbol: string, side: string,
                       quantity: Int32, price: string, now: string)
    requires c.loggedOn && Client.ConfigTextFree(c.config)
    requires SOH !in clOrdId && SOH !in symbol && SOH !in price && SOH !in now
    ensures var out := Client.SendNewOrderSingle(c, clOrdId, symbol, side, quantity, price, now);
      && |out.sent| == 1
      && var m := Parse(Serialize(out.sent[0]));
         && Get(m, MsgTypeTag) == Some("D")
         && Get(m, ClOrdIdTag) == Some(clOrdId) && Get(m, SymbolTag) == Some(symbol)
         && Get(m, SideTag) == Some(SideCode(side)) && Get(m, OrderQtyTag) == Some(IntToString(quantity))
         && Get(m, PriceTag) == Some(price)
  {
    var sent := Client.SendNewOrderSingle(c, clOrdId, symbol, side, quantity, price, now).sent[0];
    Carries(sent, MsgTypeTag, Some("D"));
    Carries(sent, ClOrdIdTag, Some(clOrdId));
    Carries(sent, SymbolTag, Some(symbol));
    Carries(sent, SideTag, Some(SideCode(side)));
    Carries(sent, OrderQtyTag, Some(IntToString(quantity)));
    Carries(sent, PriceTag, Some(price));
  }

  /**
   * A NewOrderSingle from a logged-on client, whose price the server can
   * read, is placed: the server registers a PENDING order under a fresh
   * OrderID with the client's ClOrdID, symbol and quantity, the side the
   * client named (any side but BUY reads back as SELL), and acknowledges
   * it with ExecType and OrdStatus `0`.
   */
  lemma NewOrderReachesServer(c: Client.Session, clOrdId: string, symbol: string, side: string,
                              quantity: Int32, price: string, now: string, rest: string,
                              s: Server.Session, book: Book, env: Server.Env)
    requires c.loggedOn && Client.ConfigTextFree(c.config)
    requires SOH !in clOrdId && SOH !in symbol && SOH !in price && SOH !in now
    requires env.formatPrice(price).Some?
    requires Framer.ReadsWhole(Client.SendNewOrderSingle(c, clOrdId, symbol, side, quantity, price, now).sent[0])
    ensures var out := Client.SendNewOrderSingle(c, clOrdId, symbol, side, quantity, price, now);
      && |out.sent| == 1
      && var r := Server.ProcessMessage(s, book, Framer.Delivered(out.sent[0], rest), env);
         var id := Server.OrderIdAt(env.millis);
         && r.fault.None? && r.session.incomingSeq == Inc32(s.incomingSeq)
         && id in r.book && r.book[id].status == Pending && r.book[id].filledQty == 0
         && r.book[id].clOrdId == clOrdId && r.book[id].symbol == symbol
         && r.book[id].quantity == quantity && r.book[id].side == SideName(SideCode(side))
         && OthersUnchanged(book, r.book, id)
         && |r.sent| == 1 && MsgType(r.sent[0]) == "8"
         && Get(r.sent[0], OrderIdTag) == Some(id) && Get(r.sent[0], ClOrdIdTag) == Some(clOrdId)
         && Get(r.sent[0], ExecTypeTag) == Some("0") && Get(r.sent[0], OrdStatusTag) == Some("0")
  {
    var out := Client.SendNewOrderSingle(c, clOrdId, symbol, side, quantity, price, now);
    var raw := Framer.Delivered(out.sent[0], rest);
    assert raw == Serialize(out.sent[0]);
    NewOrderOnWire(c, clOrdId, symbol, side, quantity, price, now);
    var m := Parse(raw);
    assert ParseIntField(Get(m, OrderQtyTag)) == Some(quantity);
    assert Server.NewOrderReadable(m, env);
    Server.ReadableOrderAccepted(s, book, raw, env);
    assert Render(Get(m, ClOrdIdTag)) == clOrdId && Render(Get(m, SymbolTag)) == symbol;
  }

  /**
   * The server's answer to that order, read back by the client: the
   * client's own copy of the order becomes NEW, with the terms and the
   * (zero) fill it was entered with, and no other entry changes.
   */
  lemma NewOrderRoundTrip(c: Client.Session, clOrdId: string, symbol: string, side: string,
                          quantity: Int32, price: string, now: string, serverRest: string, clientRest: string,
                          s: Server.Session, book: Book, env: Server.Env)
    requires c.loggedOn && Client.ConfigTextFree(c.config)
    requires SOH !in clOrdId && SOH !in symbol && SOH !in price && SOH !in now
    requires env.formatPrice(price).Some? && SOH !in env.formatPrice(price).value
    requires s.ownId.Some? && Server.IdsFree(s) && SOH !in env.now
    requires var out := Client.SendNewOrderSingle(c, clOrdId, symbol, side, quantity, price, now);
      && Framer.ReadsWhole(out.sent[0])
      && Framer.AllReadWhole(Server.ProcessMessage(s, book, Framer.Delivered(out.sent[0], serverRest), env).sent)
    ensures var out := Client.SendNewOrderSingle(c, clOrdId, symbol, side, quantity, price, now);
      && |out.sent| == 1
      && var r := Server.ProcessMessage(s, book, Framer.Delivered(out.sent[0], serverRest), env);
         && |r.sent| == 1
         && var back := Client.ProcessIncoming(out.session, Framer.Delivered(r.sent[0], clientRest));
            && back.fault.None? && back.session.incomingSeq == Inc32(c.incomingSeq)
            && back.session.orders == c.orders[clOrdId := NewOrder("", clOrdId, symbol, side, quantity, price).(status := New)]
  {
    var out := Client.SendNewOrderSingle(c, clOrdId, symbol, side, quantity, price, now);
    var raw := Framer.Delivered(out.sent[0], serverRest);
    assert raw == Serialize(out.sent[0]);
    NewOrderOnWire(c, clOrdId, symbol, side, quantity, price, now);
    var m := Parse(raw);
    assert ParseIntField(Get(m, OrderQtyTag)) == Some(quantity);
    assert Server.NewOrderReadable(m, env);
    assert Server.Learn(s, m) == s;
    Server.ReadableOrderAccepted(s, book, raw, env);
    Server.AcceptOrderFree(s, book, m, env);
    assert Render(Get(m, ClOrdIdTag)) == clOrdId && Render(Get(m, SymbolTag)) == symbol;
    var ack := Server.AcceptOrder(s, book, m, env).sent[0];
    assert Server.ProcessMessage(s, book, raw, env).sent == [ack];
    assert Framer.ReadsWhole(ack);
    AckReachesClient(out.session, ack, clOrdId, clientRest);
    var entered := NewOrder("", clOrdId, symbol, side, quantity, price);
    assert out.session.orders == c.orders[clOrdId := entered];
    Overwrite(c.orders, clOrdId, entered, entered.(status := New));
  }

  /** Writing a key twice keeps the second value. */
  lemma Overwrite(orders: map<string, Order>, k: string, a: Order, b: Order)
    ensures orders[k := a][k := b] == orders[k := b]
  {
  }

  /** The acknowledgement of a new order turns the client's entry NEW and keeps its fill. */
  lemma AckReachesClient(c: Client.Session, ack: Fields, clOrdId: string, rest: string)
    requires WellFormed(ack) && SohFree(ack) && Framer.ReadsWhole(ack) && clOrdId in c.orders
    requires MsgType(ack) == "8" && Get(ack, ClOrdIdTag) == Some(clOrdId) && Get(ack, LastQtyTag).None?
    requires Get(ack, ExecTypeTag) == Some("0") && Get(ack, OrdStatusTag) == Some("0")
    ensures var back := Client.ProcessIncoming(c, Framer.Delivered(ack, rest));
      && back.fault.None? && back.session.incomingSeq == Inc32(c.incomingSeq)
      && back.session.orders == c.orders[clOrdId := c.orders[clOrdId].(status := New)]
  {
    Carries(ack, MsgTypeTag, Some("8"));
    Carries(ack, ClOrdIdTag, Some(clOrdId));
    Carries(ack, OrdStatusTag, Some("0"));
    Carries(ack, ExecTypeTag, Some("0"));
    Carries(ack, LastQtyTag, None);
    assert Framer.Delivered(ack, rest) == Serialize(ack);
    Client.ReportTaken(c, Serialize(ack), clOrdId, "0");
    assert OrderStatusOf("0") == New;
  }

  // ---------------------------------------------------------------------
  // Execution reports
  // ---------------------------------------------------------------------

  /** An execution report the server sends, as the client parses it. */
  lemma ReportOnWire(s: Server.Session, book: Book, o: Order, execType: string, ordStatus: string, now: string)
    requires Server.OrderTextFree(o) && SOH !in execType && SOH !in ordStatus && SOH !in now && Server.IdsFree(s)
    ensures var r := Server.Reply(s, book, Server.ExecutionReport(o, execType, ordStatus, now), now);
      var m := Parse(Serialize(r.sent[0]));
      && Get(m, MsgTypeTag) == Some("8")
      && Get(m, ClOrdIdTag) == Some(o.clOrdId)
      && Get(m, OrdStatusTag) == Some(ordStatus)
      && Get(m, ExecTypeTag) == Some(execType)
      && Get(m, LastQtyTag) == (if o.filledQty > 0 then Some(IntToString(o.filledQty)) else None)
  {
    var report := Server.ExecutionReport(o, execType, ordStatus, now);
    Server.ExecutionReportFree(o, execType, ordStatus, now);
    var sent := Server.Reply(s, book, report, now).sent[0];
    Carries(sent, MsgTypeTag, Some("8"));
    Carries(sent, ClOrdIdTag, Some(o.clOrdId));
    Carries(sent, OrdStatusTag, Some(ordStatus));
    Carries(sent, ExecTypeTag, Some(execType));
    Carries(sent, LastQtyTag, if o.filledQty > 0 then Some(IntToString(o.filledQty)) else None);
  }

  /**
   * A client that knows the order's ClOrdID takes the status the report's
   * OrdStatus code maps to, and the filled quantity when the report carries
   * one; nothing else in its registry changes, and the report is counted in.
   */
  lemma ReportReachesClient(c: Client.Session, s: Server.Session, book: Book,
                            o: Order, execType: string, ordStatus: string, now: string, rest: string)
    requires o.clOrdId in c.orders
    requires Server.OrderTextFree(o) && SOH !in execType && SOH !in ordStatus && SOH !in now && Server.IdsFree(s)
    requires Framer.ReadsWhole(Server.Reply(s, book, Server.ExecutionReport(o, execType, ordStatus, now), now).sent[0])
    ensures var r := Server.Reply(s, book, Server.ExecutionReport(o, execType, ordStatus, now), now);
      var back := Client.ProcessIncoming(c, Framer.Delivered(r.sent[0], rest));
      var before := c.orders[o.clOrdId];
      && back.fault.None? && back.session.incomingSeq == Inc32(c.incomingSeq)
      && back.session.orders == c.orders[o.clOrdId := before.(status := OrderStatusOf(ordStatus),
                                                               filledQty := if o.filledQty > 0 then o.filledQty else before.filledQty)]
  {
    var r := Server.Reply(s, book, Server.ExecutionReport(o, execType, ordStatus, now), now);
    var raw := Framer.Delivered(r.sent[0], rest);
    assert raw == Serialize(r.sent[0]);
    ReportOnWire(s, book, o, execType, ordStatus, now);
    assert ParseIntField(Get(Parse(raw), LastQtyTag)) == (if o.filledQty > 0 then Some(o.filledQty) else None);
    Client.ReportTaken(c, raw, o.clOrdId, ordStatus);
  }

  /**
   * For the statuses the server reports with their own codes (NEW, FILLED
   * and CANCELED), a report leaves the client's copy of the order in the
   * server's status.
   */
  lemma ClientMirrorsStatus(c: Client.Session, s: Server.Session, book: Book, o: Order, now: string, rest: string)
    requires o.clOrdId in c.orders && (o.status.New? || o.status.Filled? || o.status.Canceled?)
    requires Server.OrderTextFree(o) && SOH !in now && Server.IdsFree(s)
    requires Framer.ReadsWhole(Server.Reply(s, book,
      Server.ExecutionReport(o, ExecTypeCode(o.status), OrdStatusCode(o.status), now), now).sent[0])
    ensures var code := OrdStatusCode(o.status);
      var r := Server.Reply(s, book, Server.ExecutionReport(o, ExecTypeCode(o.status), code, now), now);
      Client.ProcessIncoming(c, Framer.Delivered(r.sent[0], rest)).session.orders[o.clOrdId].status == o.status
  {
    var code := OrdStatusCode(o.status);
    assert SOH !in code && SOH !in ExecTypeCode(o.status);
    ReportReachesClient(c, s, book, o, ExecTypeCode(o.status), code, now, rest);
  }

  // ---------------------------------------------------------------------
  // Cancel
  // ---------------------------------------------------------------------

  /**
   * The client's cancel request never carries OrderID(37), which the
   * server needs: handling it throws, so the server's session ends without
   * an answer and with the book untouched.
   */
  lemma CancelRequestFaultsServer(c: Client.Session, clOrdId: string, millis: nat, now: string, rest: string,
                                  s: Server.Session, book: Book, env: Server.Env)
    requires clOrdId in c.orders && Client.ConfigTextFree(c.config)
    requires SOH !in clOrdId && SOH !in c.orders[clOrdId].symbol && SOH !in now
    requires Framer.ReadsWhole(Client.SendOrderCancelRequest(c, clOrdId, millis, now).sent[0])
    ensures var out := Client.SendOrderCancelRequest(c, clOrdId, millis, now);
      && |out.sent| == 1
      && var r := Server.ProcessMessage(s, book, Framer.Delivered(out.sent[0], rest), env);
         && r.fault == Some(NullPointer(OrderIdTag))
         && r.book == book && r.sent == []
         && r.session.incomingSeq == s.incomingSeq && r.session.outgoingSeq == s.outgoingSeq
  {
    var out := Client.SendOrderCancelRequest(c, clOrdId, millis, now);
    var raw := Framer.Delivered(out.sent[0], rest);
    assert raw == Serialize(out.sent[0]);
    Carries(out.sent[0], MsgTypeTag, Some("F"));
    Carries(out.sent[0], OrderIdTag, None);
    var m := Parse(raw);
    var learned := if s.ownId.None? then s.(ownId := Get(m, TargetCompIdTag), peerId := Get(m, SenderCompIdTag)) else s;
    var d := Server.HandleCancelRequest(learned, book, m, env.now);
    Server.DispatchCancel(learned, book, m, env);
  }
}

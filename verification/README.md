# A Dafny model of the FIXProtocol engine

This project models the core of a hand-written FIX 4.4 engine, `fix_protocol_app.java`. The engine is a broker that accepts orders (the acceptor, `FIXServerSession` and `FIXServer`) and a trading client that sends them (the initiator, `FIXClient`). The model covers four pieces, each as pure functions over immutable data:

- **The message codec, `FIXMessage`** (module `FixMessage`).
  - A message is an insertion-ordered list of `(tag, text)` fields with distinct tags, and `setField` overwrites in place.
  - `build` stamps MsgSeqNum(34) and SendingTime(52). It then emits `8=<BeginString>␁9=<BodyLength>␁<body>10=<CheckSum>␁`, following the Standard Message Header and Trailer of the FIX 4.4 specification.
  - `parse` is the lenient reader: it splits on SOH and keeps every segment whose text before the first `=` is an `Integer.parseInt` tag.
- **The stream framer, `readFIXMessage`** (module `Framer`). It returns the shortest prefix of the stream that contains `10=` and ends with SOH.
- **The session steps** (modules `Messaging`, `Server` and `Client`). Each step is a function from (state, inbound frame or user call) to (state, messages sent, escaping exception).
  - The server handles Logon, Heartbeat, TestRequest, NewOrderSingle, OrderCancelRequest and Logout.
  - The client handles logon, order entry, cancel, stop and the execution reports its listener reads.
  - The read loops of both sides are folds over the frames read.
- **Order bookkeeping** (module `Orders`).
  - `Order` and `OrderStatus`.
  - The server's book keyed by OrderID, with `processOrder`'s writes as separate steps.
  - The status and side code maps of both sides.
  - The client's registry keyed by ClOrdID.

Module `JavaLang` writes out the Java library behaviour the engine relies on:
- 32-bit `int` increment and overflow;
- `String.valueOf(int)` and `Integer.parseInt`;
- `String.split` on one character, dropping trailing empty strings;
- `indexOf`.

Module `Interplay` connects the two sides over the wire. A frame reaches the other side as the text `readFIXMessage` cuts off the stream (`Framer.Delivered`). For frames that read whole, it proves:
- the client's logon is answered and the client sees itself logged on;
- a client order is placed in the server's book, and the client's copy turns NEW when the acknowledgement comes back;
- execution reports carry the server's status to the client;
- the client's cancel request makes the server's session fail.

Modelling conventions:
- Text is a sequence of chars, and lengths and checksums count chars. For ASCII text this is the byte count. A model char stands for one Java `char`, that is, one UTF-16 unit.
- Java `null` is `None`. A null String appended to a message is written as `null`.
- An exception a handler lets escape is an explicit `fault` outcome (`NullPointer(tag)` or `NumberFormat(tag)`). Nothing inside a session catches these exceptions:
  - the server's `run` ends and `cleanup` closes the socket;
  - the client's listener task ends.
- Every value read from outside the session is a parameter. This covers the UTC timestamp text, `System.currentTimeMillis()` and `String.format("%.2f", Double.parseDouble(v))`. The price is carried as that formatted text.
- Outbound messages are recorded as the stamped field lists `build` serialises. Their wire text is `FixMessage.Serialize` of the fields, and the round-trip lemmas connect the two.

Behaviour of the code worth knowing:
- **A missing or unparsable required field ends the session.** The `NullPointerException` or `NumberFormatException` escapes `processMessage` and `processIncomingMessage`, because only `IOException` is caught. The server's session is closed, and the client's listener stops.
- **No Cancel Reject is sent.** A cancel for an unknown or FILLED order is silently ignored.
- **Cancels never reach an order.** The server's book is keyed by the broker OrderID, and cancel looks up OrderID(37). The client's cancel carries no 37, so it makes the server's session fail (`Interplay.CancelRequestFaultsServer`).
- **Tags may be signed.** `parse` accepts any `Integer.parseInt` tag, including signed ones such as `+35` or `-5`, not only non-negative integers.
- **The last MsgType wins.** Among several `35=` segments, the last one wins, because the second loop of `parse` overwrites the first loop's choice.
- **A value holding `10=` cuts its frame short.** `readFIXMessage` stops at the first SOH after any `10=`, so a ClOrdID, symbol or CompID holding `10=` hands the peer only the frame up to that field (`Framer.ReadSerialized`, `Framer.Delivered`). The fields after it are lost, and the rest of the frame is read as the start of the next message.
- **The CheckSum is computed in an `int`.** The `build` of the code wraps past 2^31 - 1 (see Findings). The model's `FixMessage.Serialize` writes the intended checksum. Below the overflow the two agree (`FixMessage.SerializeAgreesBelowOverflow`).
- **CANCELED is not absorbing.** `processOrder`'s worker later overwrites a CANCELED order to FILLED (`Orders.CanceledThenFilled`).

## Model

| member | source | states |
|---|---|---|
| JavaLang.NatToString | fix_protocol_app.java:757 | `String.valueOf` of a non-negative int: at least one digit, no leading zero, and the digits denote the number |
| JavaLang.IntToString | fix_protocol_app.java:757 | `String.valueOf(int)`: non-empty, only `-` and digits, and `Integer.parseInt` reads every Java int back to itself |
| JavaLang.ParseInt | fix_protocol_app.java:795 | `Integer.parseInt` succeeds exactly on a numeral (digits, or a sign then digits) whose value fits in an `int`, and returns that value |
| JavaLang.IndexOf | fix_protocol_app.java:793 | the position of the first occurrence of the character |
| JavaLang.SplitOn | fix_protocol_app.java:779 | the pieces of a split hold no delimiter, and joining them with it gives back the text |
| JavaLang.DropTrailingEmpty | fix_protocol_app.java:779 | `split` removes exactly the trailing empty pieces: the result is a prefix, its last piece is non-empty, and only empty pieces were dropped |
| JavaLang.JavaSplitPieces | fix_protocol_app.java:779 | no piece `split` returns holds the delimiter |
| JavaLang.SplitJoin | fix_protocol_app.java:779 | splitting delimiter-free pieces joined by the delimiter gives the pieces back |
| FixMessage.Get | fix_protocol_app.java:749-751 | a value read from a message whose values hold no SOH holds none |
| FixMessage.GetNone | fix_protocol_app.java:749-751 | `getField` is null exactly when no field carries the tag |
| FixMessage.GetUnique | fix_protocol_app.java:749-751 | with distinct tags, `getField` returns the value of the field carrying the tag |
| FixMessage.Put | fix_protocol_app.java:745-747 | after `setField`, the tag reads the new value and every other tag reads what it did. Every field is either the new one or an old one, and tags stay distinct. MsgType(35) stays first, and no SOH appears unless the value brings it |
| FixMessage.PutShape | fix_protocol_app.java:745-747 | `LinkedHashMap.put` overwrites an existing tag in place (same length, same tag order) and appends a new tag at the end |
| FixMessage.Put2 | fix_protocol_app.java:745-747 | two `setField`s on distinct tags: both read back, and nothing else changes |
| FixMessage.NewMessage | fix_protocol_app.java:741-743 | the constructor's message holds MsgType(35) first, and no other tag |
| FixMessage.Checksum | fix_protocol_app.java:805-811 | the CheckSum(10) value, the char sum modulo 256, lies in 0..255 |
| FixMessage.Pad3 | fix_protocol_app.java:810 | `%03d` of a value below 256 is three digits denoting that value |
| FixMessage.Serialize | fix_protocol_app.java:753-776 | the frame ends with `10=`, three digits and SOH, and the digits equal the char sum of everything before `10=` modulo 256 |
| FixMessage.SegmentFieldSplit | fix_protocol_app.java:791-799 | a segment without `=` is dropped. `a=b` with no `=` in `a` becomes the field `(parseInt(a), b)` when `a` parses and is dropped otherwise, and everything after the first `=` is the value |
| FixMessage.FirstMsgTypeIn | fix_protocol_app.java:782-787 | the first loop's MsgType text comes from a segment, so it holds no SOH |
| FixMessage.PutSegments | fix_protocol_app.java:791-800 | the second loop keeps MsgType(35) first and the tags distinct |
| FixMessage.PutSegmentsValue | fix_protocol_app.java:791-800 | after the second loop each tag holds the value of the last segment carrying it, or its earlier value if no segment carries it: a later duplicate overwrites an earlier one |
| FixMessage.LastValueAppend | fix_protocol_app.java:791-800 | segments read later override earlier ones for the same tag |
| FixMessage.StartsWithMsgType | fix_protocol_app.java:783-784 | a `35=` segment is the MsgType field holding the text after `35=` |
| FixMessage.FirstMsgTypeAgrees | fix_protocol_app.java:780-789 | when no segment carries tag 35, the constructor's `""` is what stays |
| FixMessage.Parse | fix_protocol_app.java:778-803 | the parsed message always holds MsgType(35), first, and no tag twice |
| FixMessage.ParseValue | fix_protocol_app.java:778-803 | after `parse`, every tag reads the value of the last segment carrying it; tag 35 reads `""` when no segment carries it |
| FixMessage.PutSegmentsSohFree | fix_protocol_app.java:791-800 | values taken from delimiter-free segments hold no SOH |
| FixMessage.ParseSohFree | fix_protocol_app.java:778-803 | no parsed value holds SOH |
| FixMessage.SerializeIsTerminated | fix_protocol_app.java:761-773 | the frame is its segments (8, 9, the body fields, 10), each followed by SOH |
| FixMessage.FieldTextShape | fix_protocol_app.java:763 | a body segment `tag=value` parses back to exactly its field |
| FixMessage.SegmentOfTag | fix_protocol_app.java:763 | the text `String.valueOf(tag)=v` parses back as the field `(tag, v)` |
| FixMessage.BodySegmentsSohFree | fix_protocol_app.java:761-765 | body segments of delimiter-free fields hold no SOH |
| FixMessage.BodySegmentsText | fix_protocol_app.java:761-765 | the body's segments are, in order, the texts of the fields other than 8, 9 and 10 |
| FixMessage.BodySegmentsShape | fix_protocol_app.java:761-765 | every body segment parses to a field whose tag is not 8, 9 or 10 |
| FixMessage.SplitTerminated | fix_protocol_app.java:779 | splitting delimiter-free segments, each followed by SOH, gives the segments back (the last one is non-empty, so nothing is dropped) |
| FixMessage.SegmentsSohFree | fix_protocol_app.java:761-773 | a frame of delimiter-free fields has at least three segments, all free of SOH, and the last one is non-empty |
| FixMessage.SplitSerialize | fix_protocol_app.java:753-779 | splitting `build`'s output on SOH yields exactly its segments |
| FixMessage.LastValueOfBody | fix_protocol_app.java:761-765 | in the body, a tag other than 8, 9 and 10 carries the field's value, and 8, 9 and 10 appear nowhere |
| FixMessage.HeaderSegmentFields | fix_protocol_app.java:770-773 | the `8=`, `9=` and `10=` segments parse as fields 8, 9 and 10 with the text after `=` |
| FixMessage.LastValueFrame | fix_protocol_app.java:770-773 | around the body, the 8, 9 and 10 segments hide no body tag, and supply BeginString when the body has none |
| FixMessage.LastValueOfSegments | fix_protocol_app.java:761-773 | in a whole frame, a body tag reads its field's value, and tag 8 reads `getOrDefault(8, "FIX.4.4")` |
| FixMessage.SerializeRoundTrip | fix_protocol_app.java:753-803 | `parse` of a serialised delimiter-free message gives back every tag other than 8, 9 and 10, and BeginString for tag 8 |
| FixMessage.SerializeValue | fix_protocol_app.java:753-803 | the same round trip, tag by tag |
| FixMessage.Carries | fix_protocol_app.java:753-803 | a body tag's value, present or absent, survives serialisation and `parse` |
| FixMessage.StampFacts | fix_protocol_app.java:757-758 | stamping 34 and 52 sets exactly those two tags and keeps the message well formed and free of SOH |
| FixMessage.BuildRoundTrip | fix_protocol_app.java:753-803 | `parse(build(m, n))` reads m's value for every tag but 8, 9, 10, 34 and 52. It reads `n` for 34, the sending time for 52, and `getOrDefault(8, "FIX.4.4")` for 8 |
| FixMessage.BuildValue | fix_protocol_app.java:753-803 | the same round trip, tag by tag |
| FixMessage.BuildFrameShape | fix_protocol_app.java:741-773 | `build`'s output opens with `8=<BeginString>␁9=`. It declares the exact length of the body, and its checksum is the char sum modulo 256 (the corrected checksum, see Findings). The first body field is 35, and every body segment is a field other than 8, 9 and 10 |
| FixMessage.SerializeShape | fix_protocol_app.java:761-773 | the same frame shape, with the corrected checksum, for any serialised delimiter-free message |
| FixMessage.SerializeHeaderShape | fix_protocol_app.java:768-773 | the header opens the frame and BodyLength(9) counts the body exactly |
| FixMessage.SerializePrefix | fix_protocol_app.java:768-771 | every frame opens with `8=<BeginString>␁9=` |
| FixMessage.SegmentsBodyShape | fix_protocol_app.java:741-765 | the first body segment is `35=`, and every body segment is a field other than 8, 9 and 10 |
| FixMessage.ChecksumAgreesBelowOverflow | fix_protocol_app.java:805-811 | while the char sum fits in an `int`, the source's checksum is the intended one, and lies in 0..255 |
| FixMessage.SerializeAgreesBelowOverflow | fix_protocol_app.java:770-775 | while the char sum before the trailer fits in an `int`, the frame's trailer is `10=`, `%03d` of the source's own checksum, and SOH |
| FixMessage.ChecksumOverflowWitness | fix_protocol_app.java:805-811 | a text whose char sum passes 2^31 gets checksum -137 from the source, against an intended 119 |
| Framer.ScanFrom | fix_protocol_app.java:243-249 | the scan stops at the first length from `k` on whose prefix contains `10=` and ends with SOH, or finds none |
| Framer.ReadMessage | fix_protocol_app.java:240-252 | `readFIXMessage` returns the shortest prefix that contains `10=` and ends with SOH, and the stream continues after it. It returns null when no prefix qualifies |
| Framer.ReadDelimited | fix_protocol_app.java:240-252 | a message that completes only at its last char is read back whole, whatever follows |
| Framer.NoEarlyTrailer | fix_protocol_app.java:246 | a header free of `10=` gives no early stop before the trailer |
| Framer.TrailedFrameDelimited | fix_protocol_app.java:240-252 | a header ending in SOH and free of `10=`, followed by `10=ddd␁`, is complete exactly at its end |
| Framer.ReadTrailed | fix_protocol_app.java:240-252 | such a frame is read back whole from a stream. If the header contains `10=` itself, the read stops inside the frame |
| Framer.ReadSerialized | fix_protocol_app.java:240-252 | a stream starting with a serialised frame yields exactly that frame when no `10=` precedes its trailer, and a strict prefix of it otherwise |
| Framer.Delivered | fix_protocol_app.java:240-252 | the text the framer hands over for a frame: the whole frame when it reads whole, otherwise a strict prefix of it |
| Framer.BuildTrailed | fix_protocol_app.java:770-775 | `build`'s output is its checksummed text followed by `10=`, the three digits of the corrected checksum and SOH |
| Framer.ReadBuiltMessage | fix_protocol_app.java:240-252 | a stream starting with `build(m)` yields exactly `build(m)` when the text before the trailer has no `10=`, and a shorter prefix otherwise |
| Framer.ReadAllConcat | fix_protocol_app.java:230-232 | the read loop over a stream of back-to-back delimited messages yields exactly those messages |
| Messaging.ParseIntField | fix_protocol_app.java:314 | `Integer.parseInt(getField(t))` succeeds exactly when the field is present and parses, and gives the parsed value |
| Messaging.LogonMessage | fix_protocol_app.java:297-299 | the Logon both sides send: MsgType A, EncryptMethod(98) `0`, HeartBtInt(108) `30` |
| Messaging.LogoutMessage | fix_protocol_app.java:394 | the Logout: MsgType 5 |
| Messaging.NumeralSohFree | fix_protocol_app.java:757 | a number's text never holds SOH |
| Messaging.SendMessage | fix_protocol_app.java:400-404 | `sendMessage` sets 49 and 56 and stamps 34 with the counter and 52 with the time. Every other tag is unchanged, and the counter moves on by one with Java `int` wrap-around |
| Messaging.AdvanceNoWrap | fix_protocol_app.java:403 | `k` increments add `k` while the counter stays below `Integer.MAX_VALUE` |
| Messaging.AdvanceAdd | fix_protocol_app.java:403 | `j` then `k` increments are `j + k` increments |
| Messaging.AdvanceShift | fix_protocol_app.java:289 | one increment followed by `k` more is `k + 1` increments |
| Messaging.SeqNumWraps | fix_protocol_app.java:403 | after 2^31 - 1 sends from 1, the counter wraps to `Integer.MIN_VALUE` |
| Messaging.NumberedAppend | fix_protocol_app.java:403 | two consecutively numbered runs make one |
| Messaging.NumberedFromOne | fix_protocol_app.java:210 | a run numbered from 1 carries 34 = 1..N in order |
| Orders.OrdStatusCode | fix_protocol_app.java:422-429 | the client's `getOrderStatus` reads the server's code back as the same status exactly for NEW, FILLED and CANCELED; every other status reads back as NEW |
| Orders.ExecTypeCode | fix_protocol_app.java:413-420 | `getExecType` agrees with `getOrdStatus` on every status |
| Orders.SideRoundTrip | fix_protocol_app.java:319-320 | the side maps invert each other on BUY/SELL and `1`/`2` only |
| Orders.Register | fix_protocol_app.java:164-165 | `orderBook.put` makes the order readable under its OrderID and leaves every other key as it was |
| Orders.Lookup | fix_protocol_app.java:185-187 | `getOrder` finds exactly the orders in the book |
| Orders.Acknowledge | fix_protocol_app.java:172 | the worker's first write makes the order NEW and keeps its terms, its fill and every other entry |
| Orders.Fill | fix_protocol_app.java:176-177 | the worker's second write makes the order FILLED with its whole quantity, and changes nothing else |
| Orders.MarkCanceled | fix_protocol_app.java:358 | the cancel handler's write makes the order CANCELED and changes nothing else |
| Orders.CanceledThenFilled | fix_protocol_app.java:172-177 | a CANCELED order is still overwritten to FILLED by the worker, so CANCELED is not absorbing |
| Server.SentOneNumbered | fix_protocol_app.java:400-404 | a step's send is a run of one, numbered from the counter and addressed with the session's CompIDs |
| Server.Reply | fix_protocol_app.java:400-407 | the server's `sendMessage`: one message, with its own and the peer's CompID (null written `null`) and the counter. Every other tag is as given, and nothing else in the session changes |
| Server.HeartbeatMessage | fix_protocol_app.java:385-391 | the Heartbeat carries TestReqID(112) exactly when one is given |
| Server.ReportTerms | fix_protocol_app.java:364-373 | the report carries the order's OrderID, ClOrdID, symbol, side code, quantity and price, and the two codes |
| Server.ExecutionReport | fix_protocol_app.java:364-383 | the report carries the order's identity, terms and the two codes; LastQty(32) is present exactly when the filled quantity is positive, then with LastPx(31); TransactTime(60) is the time given |
| Server.ReportTermsWellFormed | fix_protocol_app.java:364-373 | the report's terms form a well-formed message |
| Server.ReportTermsSohFree | fix_protocol_app.java:364-373 | the report's terms hold no SOH when the order's text and the codes hold none |
| Server.ExecutionReportFree | fix_protocol_app.java:364-383 | an execution report is well formed, and free of SOH when its inputs are |
| Server.OrderIdSohFree | fix_protocol_app.java:317 | an `"EXE" + millis` OrderID holds no SOH |
| Server.PlacedOrder | fix_protocol_app.java:317-320 | the new order satisfies the book's invariant and carries the `"EXE" + millis` OrderID |
| Server.AcceptOrder | fix_protocol_app.java:310-326 | a readable NewOrderSingle is acknowledged with ExecType and OrdStatus `0`. The book then holds a PENDING entry for it under the new OrderID, with ClOrdID, symbol, side and quantity taken from the message. Every other entry is untouched |
| Server.AcceptOrderFree | fix_protocol_app.java:323 | the acknowledgement is well formed, and free of SOH when its inputs are |
| Server.HandleNewOrder | fix_protocol_app.java:310-326 | `handleNewOrder` succeeds exactly when 38 parses, 44 is present and parses, and 54 is present. Otherwise it throws, in source order: NumberFormat(38), NullPointer(44), NumberFormat(44), NullPointer(54). On a throw it changes nothing and sends nothing |
| Server.CancelOrder | fix_protocol_app.java:357-359 | a cancelable order becomes CANCELED with terms and fill kept, and is reported with 150=4 and 39=4; nothing else changes |
| Server.HandleCancelRequest | fix_protocol_app.java:353-362 | a missing OrderID(37) throws. A found, not FILLED order is canceled. Anything else is ignored: no change and no message |
| Server.HandleLogon | fix_protocol_app.java:292-300 | Logon sets loggedOn and replies with a Logon carrying 98=0 and 108=30 |
| Server.SendHeartbeat | fix_protocol_app.java:385-391 | TestRequest is answered by one Heartbeat echoing 112, or without 112 if the request had none |
| Server.HandleLogout | fix_protocol_app.java:393-398 | Logout replies with a Logout, then clears loggedOn |
| Server.Dispatch | fix_protocol_app.java:268-287 | Heartbeat and unknown types send nothing. Only Logon and Logout change loggedOn, and only NewOrderSingle and OrderCancelRequest can throw |
| Server.DispatchNewOrder | fix_protocol_app.java:278-280 | a NewOrderSingle goes to `handleNewOrder` |
| Server.DispatchCancel | fix_protocol_app.java:281-283 | an OrderCancelRequest goes to `handleCancelRequest` |
| Server.DispatchLogon | fix_protocol_app.java:269-271 | a Logon goes to `handleLogon` |
| Server.DispatchHeartbeat | fix_protocol_app.java:272-274 | a Heartbeat is read and nothing else happens |
| Server.DispatchTestRequest | fix_protocol_app.java:275-277 | a TestRequest is answered by `sendHeartbeat` with the request's TestReqID(112) |
| Server.DispatchLogout | fix_protocol_app.java:284-286 | a Logout goes to `handleLogout` |
| Server.ProcessMessage | fix_protocol_app.java:254-290 | the incoming counter moves on by one exactly when no exception escapes, whatever the type. A throw can only come from D or F, and leaves book and counters as they were. The CompIDs are learned from each message handled while the session's own CompID is still null (a message without 56 leaves it null), and never change once it is set |
| Server.ReadableOrderAccepted | fix_protocol_app.java:254-326 | a NewOrderSingle whose reads succeed is accepted and counted in |
| Server.ServeStops | fix_protocol_app.java:229-232 | the read loop stops early exactly when a handler throws, and sends at most one message per frame handled |
| Server.ServeCounts | fix_protocol_app.java:289 | over a session, the incoming counter advances once per frame handled |
| Server.ServeNumbers | fix_protocol_app.java:403 | over a session, the read loop's own sends go out numbered consecutively from the outgoing counter |
| Server.ServeKeeps | fix_protocol_app.java:262-266 | once learned, the CompIDs never change and address every later message; the book keeps its invariant |
| Server.ServeFromInitial | fix_protocol_app.java:210-211 | from a fresh session, the i-th message the read loop sends carries 34 = i + 1, and the incoming counter is one more than the frames handled |
| Client.Send | fix_protocol_app.java:643-650 | the client's `sendMessage`: the configured CompIDs and the counter, other tags as given, and the counter moves on |
| Client.SendLogon | fix_protocol_app.java:490-496 | the client sends one Logon with 98=0 and 108=30 |
| Client.OrderTerms | fix_protocol_app.java:596-600 | the order's ClOrdID, symbol, side code and quantity, and nothing else |
| Client.NewOrderSingle | fix_protocol_app.java:596-604 | the NewOrderSingle: those terms with OrdType 2, the price, TimeInForce 0 and TransactTime, and no OrderID |
| Client.SendNewOrderSingle | fix_protocol_app.java:590-611 | nothing happens unless logged on. Otherwise the order is registered under its ClOrdID and one NewOrderSingle goes out |
| Client.CancelRequest | fix_protocol_app.java:620-625 | the cancel request carries OrigClOrdID(41), a fresh ClOrdID, symbol, side and TransactTime, but no OrderID(37) |
| Client.SendOrderCancelRequest | fix_protocol_app.java:613-629 | an unknown ClOrdID sends nothing, and a known one sends that request; the registry never changes |
| Client.Stop | fix_protocol_app.java:656-676 | a Logout goes out exactly when logged on, and the client ends disconnected and logged off |
| Client.ApplyExecutionReport | fix_protocol_app.java:556-579 | `handleExecutionReport`: a null ClOrdID throws, and an unknown one changes nothing. For a known order, a null OrdStatus throws. Otherwise the status becomes `getOrderStatus(39)` and the fill is overwritten only when 32 is present. An unparsable 32, then a missing 150, throws after the writes; no other entry changes |
| Client.Handle | fix_protocol_app.java:536-551 | Logon sets loggedOn, Logout clears it, and only an execution report touches the registry |
| Client.ProcessIncoming | fix_protocol_app.java:528-554 | the incoming counter moves on by one exactly when no exception escapes, and only an execution report can throw |
| Client.ReportTaken | fix_protocol_app.java:556-567 | a complete report for a known order sets exactly that entry's status and fill |
| Client.ListenCounts | fix_protocol_app.java:502-503 | the listener's incoming counter advances once per frame handled |
| Client.ListenKeeps | fix_protocol_app.java:498-512 | the listener leaves the outgoing counter, the configuration and the registry's keys alone; while connected it stops early exactly when a frame throws |
| Interplay.LogonOnWire | fix_protocol_app.java:490-496 | the client's Logon, as the server parses it, has MsgType A and the configured CompIDs |
| Interplay.LogonReachesServer | fix_protocol_app.java:254-300 | a fresh server session, on the client's Logon, logs on and learns the CompIDs the other way round. It answers with a Logon numbered 1, and both counters reach 2. The frame reads whole (no `10=` before its trailer) |
| Interplay.LogonHandshake | fix_protocol_app.java:528-554 | the server's answer brings the client to logged on, with both counters at 2. Both frames read whole |
| Interplay.NewOrderOnWire | fix_protocol_app.java:590-611 | the client's NewOrderSingle, as the server parses it, has the client's terms |
| Interplay.NewOrderReachesServer | fix_protocol_app.java:310-326 | that order is placed PENDING under a fresh OrderID, with the client's ClOrdID, symbol and quantity and the side read back. It is acknowledged with 150=0 and 39=0. The frame reads whole (no `10=` before its trailer) |
| Interplay.AckReachesClient | fix_protocol_app.java:556-567 | the acknowledgement turns the client's entry NEW and keeps everything else. The frame reads whole (no `10=` before its trailer) |
| Interplay.NewOrderRoundTrip | fix_protocol_app.java:590-611 | order entry end to end: the client's registry ends with its order NEW and nothing else changed. Both frames read whole |
| Interplay.ReportOnWire | fix_protocol_app.java:364-383 | a server execution report, as the client parses it, has the report's ClOrdID, codes and LastQty |
| Interplay.ReportReachesClient | fix_protocol_app.java:556-567 | the report's order takes the status its OrdStatus code maps to, and the server's fill when positive. The rest of the registry is untouched. The frame reads whole (no `10=` before its trailer) |
| Interplay.ClientMirrorsStatus | fix_protocol_app.java:688-697 | for NEW, FILLED and CANCELED, the client ends with the server's status. The frame reads whole (no `10=` before its trailer) |
| Interplay.CancelRequestFaultsServer | fix_protocol_app.java:353-355 | the client's cancel request, lacking OrderID(37), throws on the server: no answer, no change to the book, no count. The frame reads whole (no `10=` before its trailer) |

## Left out

- Sockets, streams and the accept loop (`start`, `connect`, `cleanup`, the socket close in `stop`): I/O. The read loops are folds over the frames read, and the end of a session is the `fault` outcome.
- Threads and timers:
  - the heartbeat schedulers;
  - the 500 ms monitor thread in `handleNewOrder`, which re-sends reports on status changes;
  - the sleeping worker in `processOrder`;
  - the executor pools.
  
  The worker's two writes are `Orders.Acknowledge` and `Orders.Fill` as separate steps, with no claim about when they run. Unsynchronised access to `outgoingSeqNum` by those threads is a concurrency concern and is not modelled. The heartbeat scheduler and the monitor thread also call `sendMessage` and use up sequence numbers, so the consecutive numbering of `Server.ServeNumbers` and `Server.ServeFromInitial` covers only the read loop's own sends.
- Floating point: `Double.parseDouble` and `%.2f` formatting are the parameter `Env.formatPrice`, and prices are carried as their formatted text.
- The clock: timestamps and `System.currentTimeMillis()` are parameters (`now`, `millis`).
- Console output: `formatMessage`, `displayOrders`, `getExecTypeDesc` (only its null check, which throws, is modelled), the menu in `main` and the `FIXConfig` getters.
- Non-ASCII digits that `Integer.parseInt` also accepts: the model's digits are `0`..`9`.
- `fix_test_cases.java`: it exercises a third-party FIX library, not this engine.
- FixMessage.Parse: its contract states only well-formedness. The value of each tag is stated per tag by `FixMessage.ParseValue`, to keep proofs about callers small.
- Client.Handle: its contract does not restate the execution-report branch. That branch is `Client.ApplyExecutionReport`, related to whole frames by `Client.ReportTaken`.
- Server.Dispatch: its contract does not name the handler for each type. Each route is stated by its own lemma: `Server.DispatchLogon`, `Server.DispatchHeartbeat`, `Server.DispatchTestRequest`, `Server.DispatchNewOrder`, `Server.DispatchCancel` and `Server.DispatchLogout`.
- Supplementary characters: a Java `char` is a UTF-16 unit, and a Dafny `char` is a Unicode scalar value. The model takes one char per Java `char`, so text beyond U+FFFF would count once in BodyLength and CheckSum where Java counts its two surrogates.
- Two clock readings in one message: the source reads the clock separately for SendingTime(52) and TransactTime(60), and the two readings can differ. The model passes one timestamp (`now`) for both, so a message whose 52 and 60 differ is not modelled.
- FixMessage.Serialize: it writes the corrected checksum (`FixMessage.Checksum`), not the `int`-wrapped one of the code (see Findings). The two agree while the char sum before the trailer is at most 2^31 - 1 (`FixMessage.SerializeAgreesBelowOverflow`). Past that, the code writes a negative, four-char checksum, which no session step models.
- FixMessage.BuildFrameShape: its checksum clause is about the corrected checksum, for the reason given under FixMessage.Serialize.
- FixMessage.SerializeShape: its checksum clause is about the corrected checksum, for the reason given under FixMessage.Serialize.
- Framer.BuildTrailed: its three trailer digits are the corrected checksum, for the reason given under FixMessage.Serialize.
- Interplay.LogonReachesServer: stated for a frame that reads whole. A CompID holding `10=` makes the framer hand over a strict prefix (`Framer.Delivered`), and what the server then does with it is not derived.
- Interplay.LogonHandshake: stated for frames that read whole on both legs, for the reason given under Interplay.LogonReachesServer.
- Interplay.NewOrderReachesServer: stated for a frame that reads whole. A ClOrdID or symbol holding `10=` makes the framer cut the order short before OrderQty(38), and the resulting NumberFormatException is not derived.
- Interplay.AckReachesClient: stated for a frame that reads whole, for the reason given under Interplay.LogonReachesServer.
- Interplay.NewOrderRoundTrip: stated for frames that read whole on both legs, for the reason given under Interplay.NewOrderReachesServer.
- Interplay.ReportReachesClient: stated for a frame that reads whole, for the reason given under Interplay.LogonReachesServer.
- Interplay.ClientMirrorsStatus: stated for a frame that reads whole, for the reason given under Interplay.LogonReachesServer.
- Interplay.CancelRequestFaultsServer: stated for a frame that reads whole. A ClOrdID, symbol or CompID holding `10=` makes the framer hand over a strict prefix (`Framer.Delivered`). That prefix still starts with `35=F` and still lacks 37, so the code throws the same way, but the model does not derive this.

## Findings

| source | as written | input that shows it | evidently intended | confidence | as-written member | corrected member |
|---|---|---|---|---|---|---|
| fix_protocol_app.java:805-811 | the char sum is accumulated in an `int`, which wraps past 2^31 - 1, and `%` keeps the sign, so the CheckSum can be negative and `%03d` prints four chars | 16,909,321 DEL (127) chars: the sum is 2^31 + 119, and the checksum is -137 | the sum modulo 256, always three digits (FIX 4.4 Standard Message Trailer) | not executed | FixMessage.ChecksumOverflowWitness | FixMessage.Checksum |

/**
 Reading and writing single holding registers through the persistent connection, and what the
 copies of a write request can do to the inverter when the dongle forwards any of them.
 */
module HoldingRegisters {
  import opened Wrappers
  import opened Bytes
  import opened Frames
  import opened Packets
  import opened Scanner
  import opened Persistent

  type Regs = map<int, u16>

  datatype WriteResult = Written | NotWritten | WriteRaised

  datatype ReadResult = ReadBack(value: u16) | NotRead | ReadRaised

  function WriteEcho(register: int): Match {
    (f: LuxFrame) => f.isError || (f.deviceFunction == WRITE_SINGLE && f.register == register)
  }

  function WriteMultiEcho(start: int): Match {
    (f: LuxFrame) => f.isError || (f.deviceFunction == WRITE_MULTI && f.register == start)
  }

  function ReadReply(register: int): Match {
    (f: LuxFrame) => f.isError || (f.IsReadHold() && f.register == register && f.values != [])
  }

  /**
   The request was sent on these terms: nothing but copies of it, one per attempt, until a reply
   or an exception.  Success is a reply that is no error, whatever value it echoes.
   */
  ghost predicate WriteEnded(script: seq<Attempt>, matches: Match, copies: nat, r: WriteResult) {
    match r
    case Written => exists f :: Replied(script, matches, copies - 1, f) && !f.isError
    case NotWritten =>
      || (copies == |script| && AllSilent(script, copies, matches))
      || exists f :: Replied(script, matches, copies - 1, f) && f.isError
    case WriteRaised => copies < |script| && !script[copies].connects && AllSilent(script, copies, matches)
  }

  /** A value or register that does not fit the request raises before anything is sent. */
  method WriteHoldingRegister(conn: PersistentConnection, datalog: string, inverter: string, register: int, value: int,
                              script: seq<Attempt>)
    returns (r: WriteResult)
    requires conn.Valid() && |script| == conn.maxRetries + 1
    modifies conn
    ensures conn.Valid()
    ensures if 0 <= value <= 0xFFFF && 0 <= register <= 0xFFFF then
              && OnlyCopies(old(conn.sent), conn.sent, WriteRequest(datalog, inverter, register, value).Encode())
              && WriteEnded(script, WriteEcho(register), |conn.sent| - |old(conn.sent)|, r)
            else r.WriteRaised? && conn.sent == old(conn.sent)
    // The first thing heard decides: a refusal, or the echo of a write to this register.
    ensures 0 <= value <= 0xFFFF && 0 <= register <= 0xFFFF ==>
              forall reply | HeardFirst(script[0], reply) && reply[21] >= 128 ::
                r == NotWritten && |conn.sent| == |old(conn.sent)| + 1
    ensures 0 <= value <= 0xFFFF && 0 <= register <= 0xFFFF ==>
              forall reply | HeardFirst(script[0], reply) && reply[21] == 6 && |reply| >= 34
                             && reply[32] as int + 256 * reply[33] as int == register ::
                r == Written && |conn.sent| == |old(conn.sent)| + 1
  {
    hide AnsweredBy, Silent, OnlyCopies, Packet.Encode, AllSilent, Replied, HeardFirst, WriteEnded;
    var request := BuildWriteRequest(datalog, inverter, register, value);
    if request.Failure? {
      return WriteRaised;
    }
    var outcome, attempts := conn.Transact(request.value, WriteEcho(register), script);
    SentIsLonger(old(conn.sent), conn.sent, request.value);
    match outcome {
      case Raised => r := WriteRaised;
      case NoAnswer => r := NotWritten;
      case Answer(frame) => r := if frame.isError then NotWritten else Written;
    }
    WriteConcludes(script, WriteEcho(register), attempts, outcome, r);
    forall reply | HeardFirst(script[0], reply) && reply[21] >= 128
      ensures r == NotWritten && attempts == 1
    {
      RefusalEndsWrite(script, register, attempts, r, reply);
    }
    forall reply | HeardFirst(script[0], reply) && reply[21] == 6 && |reply| >= 34
                   && reply[32] as int + 256 * reply[33] as int == register
      ensures r == Written && attempts == 1
    {
      EchoEndsWrite(script, register, attempts, r, reply);
    }
  }

  lemma WriteConcludes(script: seq<Attempt>, matches: Match, attempts: nat, outcome: Outcome, r: WriteResult)
    requires outcome.Answer? ==> Replied(script, matches, attempts - 1, outcome.frame)
    requires !outcome.Answer? ==> AllSilent(script, attempts, matches)
    requires outcome.NoAnswer? ==> attempts == |script|
    requires outcome.Raised? ==> attempts < |script| && !script[attempts].connects
    requires r == match outcome
                  case Raised => WriteRaised
                  case NoAnswer => NotWritten
                  case Answer(frame) => if frame.isError then NotWritten else Written
    ensures WriteEnded(script, matches, attempts, r)
  {
    hide Replied, AllSilent;
  }

  // ---- the first thing heard ---------------------------------------------------------------

  /** The attempt gets the request out, and the first it receives is one TranslatedData frame. */
  predicate HeardFirst(a: Attempt, reply: ByteString)
    ensures HeardFirst(a, reply) ==> |reply| >= 22
  {
    && a.connects && a.sends && a.events != [] && a.events[0] == Chunk(reply)
    && WellFormed(reply) && |reply| >= 22 && reply[7] == 0xC2
  }

  lemma HeardFirstFrame(a: Attempt, reply: ByteString)
    requires HeardFirst(a, reply)
    ensures Parse(reply).Some? && AllData(a.events, 1) && Heard(a.events, 1) == [Parse(reply).value]
  {
    hide WellFormed;
    FoundAlone(reply);
    hide FramesIn, Parse;
    assert BytesOf(a.events, 1) == reply;
  }

  /** If it matches it is the answer of the first attempt, and there is no other. */
  lemma FirstHeardAnswers(script: seq<Attempt>, matches: Match, reply: ByteString, n: int, g: LuxFrame)
    requires script != [] && HeardFirst(script[0], reply) && Parse(reply).Some? && matches(Parse(reply).value)
    ensures n > 0 ==> !AllSilent(script, n, matches)
    ensures Replied(script, matches, n, g) ==> n == 0 && g == Parse(reply).value
  {
    HeardFirstFrame(script[0], reply);
    hide Parse, Heard, HeardFirst;
    var f := Parse(reply).value;
    assert Heard(script[0].events, 1)[0] == f;
    assert script[0].sends by { HeardSends(script[0], reply); }
    assert !NoneMatches(Heard(script[0].events, 1), matches);
    assert !Silent(script[0].events, matches);
    if Replied(script, matches, n, g) && n == 0 {
      var k: nat :| AnsweredAt(script[0].events, matches, g, k);
      assert k == 1;
    }
  }

  lemma HeardSends(a: Attempt, reply: ByteString)
    requires HeardFirst(a, reply)
    ensures a.sends && a.connects && a.events != []
  {
  }

  lemma EchoFields(reply: ByteString)
    requires |reply| >= 22 && WellFormed(reply) && reply[7] == 0xC2
    ensures Parse(reply).Some?
    ensures var f := Parse(reply).value;
      && (f.isError <==> reply[21] >= 128) && f.deviceFunction == reply[21]
      && (reply[21] < 128 && |reply| >= 34 ==> f.register as int == reply[32] as int + 256 * reply[33] as int)
  {
    ParsedError(reply);
    hide Parse;
  }

  /** It ends the request: an error as a failure, anything else as success. */
  lemma FirstHeardEnds(script: seq<Attempt>, matches: Match, copies: nat, r: WriteResult, reply: ByteString)
    requires script != [] && HeardFirst(script[0], reply) && Parse(reply).Some? && matches(Parse(reply).value)
    requires WriteEnded(script, matches, copies, r)
    ensures copies == 1 && r == if Parse(reply).value.isError then NotWritten else Written
  {
    var f := Parse(reply).value;
    HeardSends(script[0], reply);
    FirstHeardAnswers(script, matches, reply, copies, f);
    hide Parse, HeardFirst, Replied, AllSilent;
    if r.Written? {
      var g :| Replied(script, matches, copies - 1, g) && !g.isError;
      FirstHeardAnswers(script, matches, reply, copies - 1, g);
    } else if r.NotWritten? && exists g :: Replied(script, matches, copies - 1, g) && g.isError {
      var g :| Replied(script, matches, copies - 1, g) && g.isError;
      FirstHeardAnswers(script, matches, reply, copies - 1, g);
    }
  }

  /** A refusal in the first attempt ends the write: nothing was written, and one copy was sent. */
  lemma RefusalEndsWrite(script: seq<Attempt>, register: int, copies: nat, r: WriteResult, reply: ByteString)
    requires script != [] && HeardFirst(script[0], reply) && reply[21] >= 128
    requires WriteEnded(script, WriteEcho(register), copies, r)
    ensures r == NotWritten && copies == 1
  {
    EchoFields(reply);
    hide Parse, WriteEnded;
    FirstHeardEnds(script, WriteEcho(register), copies, r, reply);
  }

  /** The echo of a write to this register ends it too, as written. */
  lemma EchoEndsWrite(script: seq<Attempt>, register: int, copies: nat, r: WriteResult, reply: ByteString)
    requires script != [] && HeardFirst(script[0], reply) && reply[21] == 6 && |reply| >= 34
    requires reply[32] as int + 256 * reply[33] as int == register
    requires WriteEnded(script, WriteEcho(register), copies, r)
    ensures r == Written && copies == 1
  {
    EchoFields(reply);
    hide Parse, WriteEnded;
    FirstHeardEnds(script, WriteEcho(register), copies, r, reply);
  }

  /** Anything else is not an answer to a write of this register. */
  lemma OtherFramesIgnored(register: int, reply: ByteString)
    requires |reply| >= 34 && WellFormed(reply) && reply[7] == 0xC2 && reply[21] < 128
    requires reply[21] != 6 || reply[32] as int + 256 * reply[33] as int != register
    ensures Parse(reply).Some? && !WriteEcho(register)(Parse(reply).value)
  {
    EchoFields(reply);
    hide Parse;
  }

  /** The same for a block of registers, which must be 1 to 123 values of 16 bits. */
  method WriteHoldingRegisters(conn: PersistentConnection, datalog: string, inverter: string, start: int,
                               values: seq<int>, script: seq<Attempt>)
    returns (r: WriteResult)
    requires conn.Valid() && |script| == conn.maxRetries + 1
    modifies conn
    ensures conn.Valid()
    ensures if BlockFits(start, values) then
              && OnlyCopies(old(conn.sent), conn.sent, WriteMultiRequest(datalog, inverter, start, values).Encode())
              && WriteEnded(script, WriteMultiEcho(start), |conn.sent| - |old(conn.sent)|, r)
            else r.WriteRaised? && conn.sent == old(conn.sent)
    ensures BlockFits(start, values) ==>
              forall reply | HeardFirst(script[0], reply) && reply[21] >= 128 ::
                r == NotWritten && |conn.sent| == |old(conn.sent)| + 1
    ensures BlockFits(start, values) ==>
              forall reply | HeardFirst(script[0], reply) && reply[21] == 16 && |reply| >= 34
                             && reply[32] as int + 256 * reply[33] as int == start ::
                r == Written && |conn.sent| == |old(conn.sent)| + 1
  {
    hide AnsweredBy, Silent, OnlyCopies, Packet.Encode, AllSilent, Replied, HeardFirst, WriteEnded;
    var request := BuildWriteMultiRequest(datalog, inverter, start, values);
    if request.Failure? {
      return WriteRaised;
    }
    var outcome, attempts := conn.Transact(request.value, WriteMultiEcho(start), script);
    SentIsLonger(old(conn.sent), conn.sent, request.value);
    match outcome {
      case Raised => r := WriteRaised;
      case NoAnswer => r := NotWritten;
      case Answer(frame) => r := if frame.isError then NotWritten else Written;
    }
    WriteConcludes(script, WriteMultiEcho(start), attempts, outcome, r);
    forall reply | HeardFirst(script[0], reply) && reply[21] >= 128
      ensures r == NotWritten && attempts == 1
    {
      BlockReplyEnds(script, start, attempts, r, reply);
    }
    forall reply | HeardFirst(script[0], reply) && reply[21] == 16 && |reply| >= 34
                   && reply[32] as int + 256 * reply[33] as int == start
      ensures r == Written && attempts == 1
    {
      BlockReplyEnds(script, start, attempts, r, reply);
    }
  }

  /** A refusal or the echo of a write of this block in the first attempt ends it. */
  lemma BlockReplyEnds(script: seq<Attempt>, start: int, copies: nat, r: WriteResult, reply: ByteString)
    requires script != [] && HeardFirst(script[0], reply)
    requires reply[21] >= 128
             || (reply[21] == 16 && |reply| >= 34 && reply[32] as int + 256 * reply[33] as int == start)
    requires WriteEnded(script, WriteMultiEcho(start), copies, r)
    ensures copies == 1 && r == if reply[21] >= 128 then NotWritten else Written
  {
    EchoFields(reply);
    hide Parse, WriteEnded;
    FirstHeardEnds(script, WriteMultiEcho(start), copies, r, reply);
  }

  predicate BlockFits(start: int, values: seq<int>) {
    && 0 <= start < 0x1_0000 && 1 <= |values| <= 123
    && forall i | 0 <= i < |values| :: 0 <= values[i] <= 0xFFFF
  }

  lemma SentIsLonger(before: seq<ByteString>, after: seq<ByteString>, request: ByteString)
    requires OnlyCopies(before, after, request)
    ensures |after| >= |before|
  {
  }

  lemma MatchOfAnswer(events: seq<Recv>, matches: Match, f: LuxFrame)
    requires AnsweredBy(events, matches, f)
    ensures matches(f)
  {
    var n: nat :| AnsweredAt(events, matches, f, n);
  }

  /**
   Reads one register back; the value is one that a frame received in this call reported for it.
   A register number that does not fit the request raises before anything is sent.
   */
  method ReadHoldingRegister(conn: PersistentConnection, datalog: string, inverter: string, register: int,
                             script: seq<Attempt>)
    returns (r: ReadResult)
    requires conn.Valid() && |script| == conn.maxRetries + 1
    modifies conn
    ensures conn.Valid()
    ensures if 0 <= register <= 0xFFFF then
              && OnlyCopies(old(conn.sent), conn.sent, ReadRequest(datalog, inverter, READ_HOLD, register, 1).Encode())
              && ReadEnded(script, register, |conn.sent| - |old(conn.sent)|, r)
            else r.ReadRaised? && conn.sent == old(conn.sent)
    // The value is that of the two bytes behind the byte count of the reply.
    ensures 0 <= register <= 0xFFFF ==>
              forall reply | HeardFirst(script[0], reply) && reply[21] == 3 && |reply| >= 39 && reply[34] >= 2
                             && reply[32] as int + 256 * reply[33] as int == register ::
                && r.ReadBack? && r.value as int == reply[35] as int + 256 * reply[36] as int
                && |conn.sent| == |old(conn.sent)| + 1
    ensures 0 <= register <= 0xFFFF ==>
              forall reply | HeardFirst(script[0], reply) && reply[21] >= 128 ::
                r == NotRead && |conn.sent| == |old(conn.sent)| + 1
  {
    hide AnsweredBy, Silent, OnlyCopies, AllSilent, Replied, DataPacket, Body, ReadEnded, HeardFirst;
    var request := BuildReadRequest(datalog, inverter, READ_HOLD, register, 1);
    if request.Failure? {
      return ReadRaised;
    }
    var outcome, attempts := conn.Transact(request.value, ReadReply(register), script);
    SentIsLonger(old(conn.sent), conn.sent, request.value);
    ReadUnanswered(script, register, attempts);
    match outcome {
      case Raised => r := ReadRaised;
      case NoAnswer => r := NotRead;
      case Answer(frame) =>
        ReadReplied(script, register, attempts, frame);
        r := if frame.isError then NotRead else ReadBack(frame.values[0]);
    }
    forall reply | HeardFirst(script[0], reply) && reply[21] == 3 && |reply| >= 39 && reply[34] >= 2
                   && reply[32] as int + 256 * reply[33] as int == register
      ensures r.ReadBack? && r.value as int == reply[35] as int + 256 * reply[36] as int && attempts == 1
    {
      ReplyEndsRead(script, register, attempts, r, reply);
    }
    forall reply | HeardFirst(script[0], reply) && reply[21] >= 128
      ensures r == NotRead && attempts == 1
    {
      ReplyEndsRead(script, register, attempts, r, reply);
    }
  }

  /** A reply about this register with at least one value in the first attempt ends the read, as a refusal does. */
  lemma ReplyEndsRead(script: seq<Attempt>, register: u16, copies: nat, r: ReadResult, reply: ByteString)
    requires script != [] && HeardFirst(script[0], reply)
    requires reply[21] >= 128
             || (reply[21] == 3 && |reply| >= 39 && reply[34] >= 2
                 && reply[32] as int + 256 * reply[33] as int == register as int)
    requires ReadEnded(script, register, copies, r)
    ensures copies == 1
    ensures if reply[21] >= 128 then r == NotRead
            else r.ReadBack? && r.value as int == reply[35] as int + 256 * reply[36] as int
  {
    EchoFields(reply);
    if reply[21] == 3 {
      ReplyFields(reply);
    }
    var matches := ReadReply(register);
    HeardSends(script[0], reply);
    hide Parse, HeardFirst, Replied, AllSilent;
    FirstHeardAnswers(script, matches, reply, copies, Parse(reply).value);
    if r.ReadBack? {
      var g :| Replied(script, matches, copies - 1, g) && !g.isError && g.values != [] && g.values[0] == r.value;
      FirstHeardAnswers(script, matches, reply, copies - 1, g);
    } else if r.NotRead? && exists g :: Replied(script, matches, copies - 1, g) && g.isError {
      var g :| Replied(script, matches, copies - 1, g) && g.isError;
      FirstHeardAnswers(script, matches, reply, copies - 1, g);
    }
  }

  lemma ReplyFields(reply: ByteString)
    requires |reply| >= 39 && WellFormed(reply) && reply[7] == 0xC2 && reply[21] == 3 && reply[34] >= 2
    ensures Parse(reply).Some?
    ensures var f := Parse(reply).value;
            f.IsReadHold() && f.values != [] && f.values[0] as int == reply[35] as int + 256 * reply[36] as int
  {
    ParsedHeader(reply);
    ParsedError(reply);
    ParsedValues(reply);
    hide Parse;
    var values := Parse(reply).value.values;
    assert values != [] ==> values[0] as int == reply[35 + 2 * 0] as int + 256 * reply[36 + 2 * 0] as int;
  }

  ghost predicate ReadEnded(script: seq<Attempt>, register: u16, copies: nat, r: ReadResult) {
    var matches := ReadReply(register);
    match r
    case ReadBack(value) =>
      exists f :: Replied(script, matches, copies - 1, f) && !f.isError && f.IsReadHold() && f.register == register
                  && f.values != [] && f.values[0] == value
    case NotRead =>
      || (copies == |script| && AllSilent(script, copies, matches))
      || exists f :: Replied(script, matches, copies - 1, f) && f.isError
    case ReadRaised => copies < |script| && !script[copies].connects && AllSilent(script, copies, matches)
  }

  lemma ReadUnanswered(script: seq<Attempt>, register: u16, copies: nat)
    ensures copies == |script| && AllSilent(script, copies, ReadReply(register)) ==>
              ReadEnded(script, register, copies, NotRead)
    ensures copies < |script| && !script[copies].connects && AllSilent(script, copies, ReadReply(register)) ==>
              ReadEnded(script, register, copies, ReadRaised)
  {
    hide AllSilent, Replied;
  }

  lemma ReadReplied(script: seq<Attempt>, register: u16, copies: nat, f: LuxFrame)
    requires Replied(script, ReadReply(register), copies - 1, f)
    ensures f.isError || f.values != []
    ensures ReadEnded(script, register, copies, if f.isError then NotRead else ReadBack(f.values[0]))
  {
    hide AnsweredBy, AllSilent;
    MatchOfAnswer(script[copies - 1].events, ReadReply(register), f);
  }

  /** An echo that counts as a written register is a write of that register. */
  lemma WrittenMeansEchoed(script: seq<Attempt>, register: int, copies: nat)
    requires WriteEnded(script, WriteEcho(register), copies, Written)
    ensures exists f :: Replied(script, WriteEcho(register), copies - 1, f) && !f.isError
                        && f.deviceFunction == WRITE_SINGLE && f.register == register
  {
    var f :| Replied(script, WriteEcho(register), copies - 1, f) && !f.isError;
    MatchOfAnswer(script[copies - 1].events, WriteEcho(register), f);
  }

  // ---- what the inverter does with what it is forwarded ------------------------------------

  /** What a frame tells the inverter to set; the values of a multi-register write begin at byte 37. */
  function Ordered(f: LuxFrame): Regs {
    if f.IsTranslatedData() && f.deviceFunction == WRITE_SINGLE && f.values != [] then
      Consecutive(f.register, f.values[..1])
    else if f.IsTranslatedData() && f.deviceFunction == WRITE_MULTI && 39 + 2 * f.writeCount as int <= |f.raw| then
      Consecutive(f.register, ValuesAt(f.raw, 37, f.writeCount as int))
    else map[]
  }

  function ObeyAll(regs: Regs, frames: seq<LuxFrame>): Regs
    decreases |frames|
  {
    if frames == [] then regs else ObeyAll(regs + Ordered(frames[0]), frames[1..])
  }

  /** The dongle forwards those copies that `forwarded` picks. */
  function AfterForwarding(regs: Regs, copies: seq<ByteString>, forwarded: seq<bool>): Regs
    requires |copies| == |forwarded|
    decreases |copies|
  {
    if copies == [] then regs
    else AfterForwarding(if forwarded[0] then ObeyAll(regs, FramesIn(copies[0])) else regs, copies[1..], forwarded[1..])
  }

  /** The request makes the inverter set exactly this block, whatever its registers hold. */
  ghost predicate Sets(request: ByteString, block: Regs) {
    forall regs :: ObeyAll(regs, FramesIn(request)) == regs + block
  }

  lemma OnePacket(p: Packet)
    requires p.InRange()
    ensures Sets(p.Encode(), Ordered(p.Meaning()))
  {
    BuiltStreamRoundTrip([p]);
    assert MeaningAll([p]) == [p.Meaning()];
    hide FramesIn, DataPacket, Packet.Encode, Packet.Meaning, Ordered;
    assert EncodeAll([p]) == [p.Encode()] && Flatten([p.Encode()]) == p.Encode();
    forall regs
      ensures ObeyAll(regs, FramesIn(p.Encode())) == regs + Ordered(p.Meaning())
    {
      assert ObeyAll(regs, [p.Meaning()]) == ObeyAll(regs + Ordered(p.Meaning()), [p.Meaning()][1..]);
    }
  }

  lemma WriteSets(datalog: string, inverter: string, register: u16, value: u16)
    ensures Sets(WriteRequest(datalog, inverter, register, value).Encode(), Consecutive(register, [value]))
  {
    var p := WriteRequest(datalog, inverter, register, value);
    OnePacket(p);
    hide Sets, Consecutive, Packet.Encode, SerialField;
    assert p.Meaning().values[..1] == [value];
  }

  lemma WriteMultiSets(datalog: string, inverter: string, start: u16, values: seq<u16>)
    requires 1 <= |values| <= 123
    ensures Sets(WriteMultiRequest(datalog, inverter, start, values).Encode(), Consecutive(start, values))
  {
    var p := WriteMultiRequest(datalog, inverter, start, values);
    OnePacket(p);
    WriteMultiValues(datalog, inverter, start, values);
    hide Sets, Consecutive, Packet.Encode, SerialField, ValuesAt;
  }

  lemma {:induction false} CopiesSet(regs: Regs, copies: seq<ByteString>, forwarded: seq<bool>,
                                     request: ByteString, block: Regs)
    requires |copies| == |forwarded| && Sets(request, block)
    requires forall c | c in copies :: c == request
    ensures AfterForwarding(regs, copies, forwarded) == if true in forwarded then regs + block else regs
    decreases |copies|
  {
    hide FramesIn, ObeyAll;
    if copies != [] {
      assert copies[0] in copies && forall c | c in copies[1..] :: c in copies;
      var next := if forwarded[0] then regs + block else regs;
      assert ObeyAll(regs, FramesIn(request)) == regs + block;
      CopiesSet(next, copies[1..], forwarded[1..], request, block);
      assert forwarded == [forwarded[0]] + forwarded[1..];
      assert regs + block + block == regs + block;
    }
  }

  /**
   However many of the identical copies of a write are forwarded, the register holds its old or
   the requested value and no other register changes; the requested one exactly when at least
   one copy was forwarded, or when it was there before.
   */
  lemma WriteIsOldOrNew(regs: Regs, copies: seq<ByteString>, forwarded: seq<bool>,
                        datalog: string, inverter: string, register: u16, value: u16)
    requires |copies| == |forwarded|
    requires forall c | c in copies :: c == WriteRequest(datalog, inverter, register, value).Encode()
    ensures AfterForwarding(regs, copies, forwarded)
            == if true in forwarded then regs[register as int := value] else regs
  {
    hide Packet.Encode, Sets, AfterForwarding;
    WriteSets(datalog, inverter, register, value);
    CopiesSet(regs, copies, forwarded, WriteRequest(datalog, inverter, register, value).Encode(),
              Consecutive(register, [value]));
    assert regs + Consecutive(register, [value]) == regs[register as int := value];
  }

  /** A multi-register write sets all its registers or none, and no others. */
  lemma BlockIsAllOrNothing(regs: Regs, copies: seq<ByteString>, forwarded: seq<bool>,
                            datalog: string, inverter: string, start: u16, values: seq<u16>)
    requires |copies| == |forwarded| && 1 <= |values| <= 123
    requires forall c | c in copies :: c == WriteMultiRequest(datalog, inverter, start, values).Encode()
    ensures AfterForwarding(regs, copies, forwarded)
            == if true in forwarded then regs + Consecutive(start, values) else regs
  {
    hide Packet.Encode, Sets, AfterForwarding;
    WriteMultiSets(datalog, inverter, start, values);
    CopiesSet(regs, copies, forwarded, WriteMultiRequest(datalog, inverter, start, values).Encode(),
              Consecutive(start, values));
  }

  lemma ReadSetsNothing(datalog: string, inverter: string, register: u16)
    ensures Sets(ReadRequest(datalog, inverter, READ_HOLD, register, 1).Encode(), map[])
  {
    var p := ReadRequest(datalog, inverter, READ_HOLD, register, 1);
    OnePacket(p);
    hide Sets, Packet.Encode, SerialField;
    assert Ordered(p.Meaning()) == map[];
  }

  /** Copies of a read request change nothing. */
  lemma ReadChangesNothing(regs: Regs, copies: seq<ByteString>, forwarded: seq<bool>,
                           datalog: string, inverter: string, register: u16)
    requires |copies| == |forwarded|
    requires forall c | c in copies :: c == ReadRequest(datalog, inverter, READ_HOLD, register, 1).Encode()
    ensures AfterForwarding(regs, copies, forwarded) == regs
  {
    hide Packet.Encode, Sets, AfterForwarding;
    ReadSetsNothing(datalog, inverter, register);
    CopiesSet(regs, copies, forwarded, ReadRequest(datalog, inverter, READ_HOLD, register, 1).Encode(), map[]);
    assert regs + map[] == regs;
  }
}

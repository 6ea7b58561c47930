/**
 The HID transport as a state machine: the reply ring as a sequence, the outstanding can-send
 request, and the NFC queue that tag reports consume. Whether the radio accepts a message, the
 stream mode and the bytes of an input report come with the events.
 */
module HidRuns {
  import opened Words
  import opened OctetStrings
  import opened Crc8
  import opened NfcPackets
  import NfcRuns

  const REPORT_SIZE := 49
  const RING_SIZE := 8

  type Reply = seq<Byte>
  type Report = s: seq<Byte> | |s| == REPORT_SIZE witness Zeros(49)

  datatype Mode = Silent | Simple | Full | Tagged

  /** What goes to the radio, without the leading 0xA1. */
  datatype Message = NoMessage | ReplyMessage(report: seq<Byte>) | InputMessage(report: seq<Byte>) | TagMessage(report: seq<Byte>)

  datatype Hid = Hid(connected: bool, pending: bool, replies: seq<Reply>, inputs: Word, nfc: State)

  datatype Event =
    | Opened(success: bool)
    | Closed
    | CanSend(mode: Mode, built: Report, ok: bool)
    | Timer
    | Answer(data: seq<Byte>)
    | Nfc(op: NfcRuns.Op)

  /** `send_next_report` up to the radio: a waiting reply goes first. */
  function Offer(s: Hid, mode: Mode, built: Report): Message {
    if s.replies != [] then ReplyMessage(s.replies[0])
    else match mode
      case Simple => InputMessage(built[..12])
      case Full => InputMessage(built)
      case Tagged => TagMessage([0x31] + built[1..] + Peek(s.nfc))
      case Silent => NoMessage
  }

  /** The reports of the stream modes: 12 bytes, 49 bytes, 49 bytes and an NFC packet, or nothing. */
  ghost predicate IsOffer(s: Hid, mode: Mode, built: Report, m: Message) {
    && (s.replies != [] ==> m == ReplyMessage(s.replies[0]))
    && (s.replies == [] && mode == Simple ==> m.InputMessage? && |m.report| == 12 && m.report <= built)
    && (s.replies == [] && mode == Full ==> m.InputMessage? && m.report == built)
    && (s.replies == [] && mode == Silent ==> m == NoMessage)
    && (s.replies == [] && mode == Tagged ==>
          && m.TagMessage? && |m.report| == 49 + 313 && m.report[0] == 0x31 && m.report[1..49] == built[1..49]
          && (s.nfc.queue != [] ==> m.report[49..] == s.nfc.queue[0])
          && (s.nfc.queue == [] ==>
                && m.report[49] == 0xff && (forall i :: 50 <= i < 361 ==> m.report[i] == 0)
                && m.report[361] == Crc(m.report[49..361])))
  }

  lemma OfferMeans(s: Hid, mode: Mode, built: Report)
    requires s.nfc.queue != [] ==> |s.nfc.queue[0]| == 313
    ensures IsOffer(s, mode, built, Offer(s, mode, built))
  {
    if s.replies == [] && mode == Tagged {
      var p := Peek(s.nfc);
      var r := [0x31] + built[1..] + p;
      assert r[49..] == p && r[1..49] == built[1..49];
      assert forall i {:trigger r[i]} :: 49 <= i < |r| ==> r[i] == p[i - 49];
      assert r[49..361] == p[..312];
    }
  }

  function Delivered(s: Hid, m: Message): Hid {
    match m
    case NoMessage => s
    case ReplyMessage(_) => if s.replies == [] then s else s.(replies := s.replies[1..])
    case InputMessage(_) => s.(inputs := (s.inputs + 1) % W)
    case TagMessage(_) => s.(inputs := (s.inputs + 1) % W, nfc := Commit(s.nfc))
  }

  predicate Takes(s: Hid, data: seq<Byte>) {
    s.connected && 0 < |data| <= REPORT_SIZE && |s.replies| < RING_SIZE
  }

  function Next(s: Hid, e: Event): Hid {
    match e
    case Opened(success) =>
      if success then s.(connected := true, pending := false, replies := [], inputs := 0, nfc := Reset(s.nfc)) else s
    case Closed =>
      s.(connected := false, pending := false, replies := [], inputs := 0)
    case CanSend(mode, built, ok) =>
      var t := s.(pending := false);
      if !s.connected || !s.pending then s
      else if ok then Delivered(t, Offer(t, mode, built))
      else t
    case Timer =>
      if s.connected then s.(pending := true) else s
    case Answer(data) =>
      if Takes(s, data) then s.(replies := s.replies + [data], pending := true) else s
    case Nfc(op) =>
      s.(nfc := NfcRuns.Next(s.nfc, op))
  }

  function Run(s: Hid, es: seq<Event>): Hid
    decreases |es|
  {
    if es == [] then s else Run(Next(s, es[0]), es[1..])
  }

  /** The message the radio accepted. */
  function Sent(s: Hid, e: Event): Message {
    if e.CanSend? && e.ok && s.connected && s.pending then Offer(s, e.mode, e.built) else NoMessage
  }

  // ----- Replies -----

  /** Events that start or end a connection. */
  predicate Boundary(e: Event) {
    e == Closed || e == Opened(true)
  }

  predicate SameConnection(es: seq<Event>) {
    forall i :: 0 <= i < |es| ==> !Boundary(es[i])
  }

  function SentReply(s: Hid, e: Event): seq<Reply> {
    match Sent(s, e)
    case ReplyMessage(report) => [report]
    case _ => []
  }

  function TakenReply(s: Hid, e: Event): seq<Reply> {
    if e.Answer? && Takes(s, e.data) then [e.data] else []
  }

  function SentReplies(s: Hid, es: seq<Event>): seq<Reply>
    decreases |es|
  {
    if es == [] then [] else SentReply(s, es[0]) + SentReplies(Next(s, es[0]), es[1..])
  }

  function TakenReplies(s: Hid, es: seq<Event>): seq<Reply>
    decreases |es|
  {
    if es == [] then [] else TakenReply(s, es[0]) + TakenReplies(Next(s, es[0]), es[1..])
  }

  lemma ReplyStep(s: Hid, e: Event)
    requires !Boundary(e)
    ensures SentReply(s, e) + Next(s, e).replies == s.replies + TakenReply(s, e)
  {
  }

  /** Within a connection no reply is lost, duplicated or reordered, whatever sends fail. */
  lemma {:induction false} RepliesConserved(s: Hid, es: seq<Event>)
    requires SameConnection(es)
    ensures SentReplies(s, es) + Run(s, es).replies == s.replies + TakenReplies(s, es)
    decreases |es|
  {
    if es != [] {
      var t := Next(s, es[0]);
      assert !Boundary(es[0]);
      ReplyStep(s, es[0]);
      RepliesConserved(t, es[1..]);
      NfcRuns.Chain(SentReply(s, es[0]), SentReplies(t, es[1..]), Run(t, es[1..]).replies,
                    t.replies, TakenReplies(t, es[1..]), s.replies, TakenReply(s, es[0]));
    }
  }

  /** From the opening of a connection: sent so far, then waiting, are exactly the accepted replies. */
  lemma ConnectionReplies(s: Hid, es: seq<Event>)
    requires SameConnection(es)
    ensures var t := Next(s, Opened(true));
      SentReplies(t, es) + Run(t, es).replies == TakenReplies(t, es)
  {
    RepliesConserved(Next(s, Opened(true)), es);
  }

  /** Nothing else is transmitted while a reply waits. */
  lemma RepliesFirst(s: Hid, e: Event)
    ensures s.replies != [] && Sent(s, e) != NoMessage ==> Sent(s, e) == ReplyMessage(s.replies[0])
    ensures Sent(s, e).InputMessage? || Sent(s, e).TagMessage? ==> s.replies == []
  {
  }

  // ----- Requests -----

  /** Can-send requests made by an event. */
  function Requests(s: Hid, e: Event): nat {
    if s.pending then 0
    else if e == Timer && s.connected then 1
    else if e.Answer? && Takes(s, e.data) then 1
    else 0
  }

  /** Requests still unanswered: the stack answers one per event, and may forget them with the connection. */
  function Unanswered(forgets: bool, n: nat, s: Hid, e: Event): nat {
    if Boundary(e) then if forgets then 0 else n
    else (if e.CanSend? && n > 0 then n - 1 else n) + Requests(s, e)
  }

  /** The stack announces CAN_SEND_NOW only when asked. */
  predicate Honest(forgets: bool, n: nat, s: Hid, es: seq<Event>)
    decreases |es|
  {
    es == [] ||
    ((es[0].CanSend? ==> n > 0) && Honest(forgets, Unanswered(forgets, n, s, es[0]), Next(s, es[0]), es[1..]))
  }

  function UnansweredAfter(forgets: bool, n: nat, s: Hid, es: seq<Event>): nat
    decreases |es|
  {
    if es == [] then n else UnansweredAfter(forgets, Unanswered(forgets, n, s, es[0]), Next(s, es[0]), es[1..])
  }

  /** The flag is the one outstanding request. */
  ghost predicate OneRequest(n: nat, s: Hid) {
    (s.pending ==> s.connected) && n == if s.pending then 1 else 0
  }

  ghost predicate OneRequestThroughout(forgets: bool, n: nat, s: Hid, es: seq<Event>)
    decreases |es|
  {
    && OneRequest(n, s)
    && (es != [] ==> OneRequestThroughout(forgets, Unanswered(forgets, n, s, es[0]), Next(s, es[0]), es[1..]))
  }

  /** No connection begins or ends while a request is unanswered. */
  predicate IdleBoundaries(n: nat, s: Hid, es: seq<Event>)
    decreases |es|
  {
    es == [] ||
    ((Boundary(es[0]) ==> n == 0) && IdleBoundaries(Unanswered(false, n, s, es[0]), Next(s, es[0]), es[1..]))
  }

  /**
   The flag is the one outstanding request throughout a run, exactly if the stack forgets requests
   where a connection begins or ends, or has none there.
   */
  lemma {:induction false} AtMostOneRequest(forgets: bool, n: nat, s: Hid, es: seq<Event>)
    requires OneRequest(n, s) && Honest(forgets, n, s, es)
    ensures OneRequestThroughout(forgets, n, s, es) <==> forgets || IdleBoundaries(n, s, es)
    decreases |es|
  {
    if es != [] {
      var m, t := Unanswered(forgets, n, s, es[0]), Next(s, es[0]);
      if OneRequest(m, t) {
        AtMostOneRequest(forgets, m, t, es[1..]);
      } else {
        assert !forgets && Boundary(es[0]) && n > 0;
      }
    }
  }

  /** Otherwise a second request can go out before the first is answered. */
  lemma SecondRequest(s: Hid)
    ensures var t := Next(s, Opened(true));
      OneRequest(0, t) && UnansweredAfter(false, 0, t, [Timer, Opened(true), Timer]) == 2
  {
    var t := Next(s, Opened(true));
    var es := [Timer, Opened(true), Timer];
    var u := Next(t, Timer);
    assert es[1..] == [Opened(true), Timer] && es[1..][1..] == [Timer] && es[1..][1..][1..] == [];
    assert UnansweredAfter(false, 0, t, es) == UnansweredAfter(false, 1, u, es[1..]);
    assert UnansweredAfter(false, 1, u, es[1..]) == UnansweredAfter(false, 1, Next(u, Opened(true)), es[1..][1..]);
  }

  // ----- NFC packets -----

  /** What an event does to the NFC queue. */
  function NfcOps(s: Hid, e: Event): seq<NfcRuns.Op> {
    if e.Nfc? then [e.op]
    else if e == Opened(true) then [NfcRuns.DoReset]
    else if Sent(s, e).TagMessage? then [NfcRuns.DoCommit]
    else []
  }

  function AllNfcOps(s: Hid, es: seq<Event>): seq<NfcRuns.Op>
    decreases |es|
  {
    if es == [] then [] else NfcOps(s, es[0]) + AllNfcOps(Next(s, es[0]), es[1..])
  }

  /** The queued packet that a transmitted tag report carries, if the queue is not empty. */
  function Carried(s: Hid, e: Event): seq<Packet> {
    match Sent(s, e)
    case TagMessage(report) => if s.nfc.queue != [] then [report[REPORT_SIZE..]] else []
    case _ => []
  }

  function AllCarried(s: Hid, es: seq<Event>): seq<Packet>
    decreases |es|
  {
    if es == [] then [] else Carried(s, es[0]) + AllCarried(Next(s, es[0]), es[1..])
  }

  /** Only the transport commits. */
  predicate NoForeignCommit(es: seq<Event>) {
    forall i :: 0 <= i < |es| ==> es[i] != Nfc(NfcRuns.DoCommit)
  }

  lemma NfcStep(s: Hid, e: Event)
    requires e != Nfc(NfcRuns.DoCommit)
    ensures Next(s, e).nfc == NfcRuns.Run(s.nfc, NfcOps(s, e))
    ensures Carried(s, e) == NfcRuns.Committed(s.nfc, NfcOps(s, e))
  {
    var ops := NfcOps(s, e);
    if ops != [] {
      assert ops[1..] == [];
      assert NfcRuns.Run(s.nfc, ops) == NfcRuns.Next(s.nfc, ops[0]);
      assert NfcRuns.Committed(s.nfc, ops) == NfcRuns.Taken(s.nfc, ops[0]) + [];
    }
    if Sent(s, e).TagMessage? {
      assert Sent(s, e).report[REPORT_SIZE..] == Peek(s.nfc);
    }
  }

  lemma {:induction false} RunAppend(s: State, a: seq<NfcRuns.Op>, b: seq<NfcRuns.Op>)
    ensures NfcRuns.Run(s, a + b) == NfcRuns.Run(NfcRuns.Run(s, a), b)
    ensures NfcRuns.Committed(s, a + b) == NfcRuns.Committed(s, a) + NfcRuns.Committed(NfcRuns.Run(s, a), b)
    decreases |a|
  {
    if a == [] {
      assert a + b == b;
    } else {
      assert (a + b)[1..] == a[1..] + b;
      RunAppend(NfcRuns.Next(s, a[0]), a[1..], b);
    }
  }

  /** An NFC packet leaves the queue only with the transmitted report that carries it, and then it does. */
  lemma {:induction false} CommittedIsCarried(s: Hid, es: seq<Event>)
    requires NoForeignCommit(es)
    ensures Run(s, es).nfc == NfcRuns.Run(s.nfc, AllNfcOps(s, es))
    ensures AllCarried(s, es) == NfcRuns.Committed(s.nfc, AllNfcOps(s, es))
    decreases |es|
  {
    if es != [] {
      NfcStep(s, es[0]);
      CommittedIsCarried(Next(s, es[0]), es[1..]);
      RunAppend(s.nfc, NfcOps(s, es[0]), AllNfcOps(Next(s, es[0]), es[1..]));
    }
  }

  /** End to end: the packets of an accepted read reach the radio first, in order and unchanged. */
  lemma TagReachesRadio(s: Hid, packet: seq<Byte>, es: seq<Event>)
    requires NfcPackets.IsRead(s.nfc, packet) && NoForeignCommit(es)
    ensures var t := Next(s, Nfc(NfcRuns.DoCommand(packet)));
      NfcRuns.NeverFlushes(t.nfc, AllNfcOps(t, es)) ==>
        TagRead(s.nfc.tag) <= AllCarried(t, es) + Run(t, es).nfc.queue
  {
    var t := Next(s, Nfc(NfcRuns.DoCommand(packet)));
    CommittedIsCarried(t, es);
    NfcRuns.ReadStays(s.nfc, packet, AllNfcOps(t, es));
  }

  // ----- Progress -----

  /** A send that was asked for and that the radio accepted. */
  predicate Succeeds(s: Hid, e: Event) {
    e.CanSend? && e.ok && s.connected && s.pending
  }

  function Successes(s: Hid, es: seq<Event>): nat
    decreases |es|
  {
    if es == [] then 0 else (if Succeeds(s, es[0]) then 1 else 0) + Successes(Next(s, es[0]), es[1..])
  }

  lemma {:induction false} EachSuccessSendsOne(s: Hid, es: seq<Event>)
    requires SameConnection(es)
    ensures |SentReplies(s, es)| >= if Successes(s, es) <= |s.replies| then Successes(s, es) else |s.replies|
    decreases |es|
  {
    if es != [] {
      assert !Boundary(es[0]);
      ReplyStep(s, es[0]);
      EachSuccessSendsOne(Next(s, es[0]), es[1..]);
    }
  }

  /**
   Whatever failures, answers and NFC commands lie between: after n successful sends of a
   connection the first n of the replies that waited are out, in order.
   */
  lemma RepliesDrain(s: Hid, es: seq<Event>, n: nat)
    requires SameConnection(es) && n <= |s.replies| && n <= Successes(s, es)
    ensures s.replies[..n] <= SentReplies(s, es)
  {
    EachSuccessSendsOne(s, es);
    RepliesConserved(s, es);
    FirstOnes(SentReplies(s, es), Run(s, es).replies, s.replies, TakenReplies(s, es), n);
  }

  lemma FirstOnes(a: seq<Reply>, b: seq<Reply>, c: seq<Reply>, d: seq<Reply>, n: nat)
    requires a + b == c + d && n <= |a| && n <= |c|
    ensures c[..n] <= a
  {
    assert (a + b)[..n] == a[..n] && (c + d)[..n] == c[..n];
  }

  /** With an honest stack every send that the radio accepts is a successful one. */
  lemma {:induction false} HonestSendsSucceed(n: nat, s: Hid, es: seq<Event>)
    requires OneRequest(n, s) && Honest(false, n, s, es) && SameConnection(es)
    ensures Successes(s, es) == AcceptedSends(es)
    decreases |es|
  {
    if es != [] {
      assert !Boundary(es[0]);
      assert SameConnection(es[1..]);
      HonestSendsSucceed(Unanswered(false, n, s, es[0]), Next(s, es[0]), es[1..]);
    }
  }

  function AcceptedSends(es: seq<Event>): nat {
    if es == [] then 0 else (if es[0].CanSend? && es[0].ok then 1 else 0) + AcceptedSends(es[1..])
  }
}

/**
 `main/btstack_hid.c`: the reply ring, the can-send request and the NFC report, proved against
 the state machine of `HidRuns`. The radio, the stream mode and the input report that
 `input_report_build_*` writes are parameters.
 */
module BtstackHid {
  import opened Words
  import opened OctetStrings
  import opened Crc8
  import opened NfcPackets
  import opened HidRuns
  import NfcMcu
  import Ring

  class Transport {
    const replies: array<Reply>
    var replyHead: nat
    var replyCount: nat
    var connected: bool
    var sendPending: bool
    var inputReportCount: Word
    const mcu: NfcMcu.Mcu

    ghost predicate Valid()
      reads this, replies, mcu, mcu.tag, mcu.queue
    {
      && replies.Length == RING_SIZE && replyHead < RING_SIZE && replyCount <= RING_SIZE
      && replies != mcu.queue && mcu.Valid()
      && forall i :: 0 <= i < RING_SIZE ==> |replies[i]| <= REPORT_SIZE
    }

    ghost function Abs(): Hid
      requires Valid()
      reads this, replies, mcu, mcu.tag, mcu.queue
    {
      Hid(connected, sendPending, Ring.Contents(replies[..], replyHead, replyCount), inputReportCount, mcu.Abs())
    }

    constructor (nfc: NfcMcu.Mcu)
      requires nfc.Valid()
      ensures Valid() && mcu == nfc && fresh(replies)
      ensures Abs() == Hid(false, false, [], 0, nfc.Abs())
    {
      replies := new Reply[RING_SIZE](_ => []);
      replyHead, replyCount, connected, sendPending, inputReportCount := 0, 0, false, false, 0;
      mcu := nfc;
    }

    /** The head reply is done. */
    method DropReply()
      requires Valid() && replyCount > 0
      modifies this`replyHead, this`replyCount
      ensures Valid() && Abs() == old(Abs()).(replies := old(Abs()).replies[1..])
    {
      ghost var before := Abs();
      Ring.Pop(replies[..], replyHead, replyCount);
      replyHead := (replyHead + 1) % RING_SIZE;
      replyCount := replyCount - 1;
      assert Abs().replies == before.replies[1..];
    }

    /** The message to offer, and whether it carries an NFC packet. */
    method BuildMessage(mode: Mode, built: Report) returns (msg: Message, mcuReport: bool)
      requires Valid()
      ensures msg == Offer(Abs(), mode, built)
      ensures mcuReport <==> msg.TagMessage?
      ensures IsOffer(Abs(), mode, built, msg)
    {
      OfferMeans(Abs(), mode, built);
      mcuReport := false;
      if replyCount != 0 {
        msg := ReplyMessage(replies[replyHead]);
      } else if mode == Simple {
        msg := InputMessage(built[..12]);
      } else if mode == Full {
        msg := InputMessage(built);
      } else if mode == Tagged {
        var packet := mcu.NfcPeek();
        msg := TagMessage([0x31] + built[1..] + packet);
        mcuReport := true;
      } else {
        msg := NoMessage;
      }
    }

    /**
     `send_next_report`. radioAccepts is the status of the send; msg is what the radio was
     offered, NoMessage if nothing was.
     */
    method SendNextReport(mode: Mode, built: Report, radioAccepts: bool) returns (msg: Message)
      requires Valid()
      modifies this, mcu
      ensures Valid() && replies[..] == old(replies[..])
      ensures msg == Offer(old(Abs()), mode, built)
      ensures var t := old(Abs()).(pending := false);
        Abs() == if radioAccepts then Delivered(t, msg) else t
      // what is offered
      ensures var s := old(Abs());
        && (s.replies != [] ==> msg == ReplyMessage(s.replies[0]))
        && (s.replies == [] && mode == Simple ==> msg.InputMessage? && |msg.report| == 12 && msg.report <= built)
        && (s.replies == [] && mode == Full ==> msg.InputMessage? && msg.report == built)
        && (s.replies == [] && mode == Silent ==> msg == NoMessage)
        && (s.replies == [] && mode == Tagged ==>
              && msg.TagMessage? && |msg.report| == 49 + 313
              && msg.report[0] == 0x31 && msg.report[1..49] == built[1..49]
              && (s.nfc.queue != [] ==> msg.report[49..] == s.nfc.queue[0])
              && (s.nfc.queue == [] ==>
                    && msg.report[49] == 0xff && (forall i :: 50 <= i < 361 ==> msg.report[i] == 0)
                    && msg.report[361] == Crc(msg.report[49..361])))
      // what becomes of it
      ensures var s, sent := old(Abs()), radioAccepts && msg != NoMessage;
        && !Abs().pending && Abs().connected == s.connected
        && Abs().replies == (if sent && s.replies != [] then s.replies[1..] else s.replies)
        && Abs().inputs == (if sent && s.replies == [] then (s.inputs + 1) % W else s.inputs)
        && (if sent && s.replies == [] && mode == Tagged && s.nfc.queue != []
            then Abs().nfc == s.nfc.(queue := s.nfc.queue[1..]) else Abs().nfc == s.nfc)
    {
      var isReply := replyCount != 0;
      var mcuReport;
      msg, mcuReport := BuildMessage(mode, built);
      sendPending := false;
      if msg == NoMessage || !radioAccepts {
        return; // a waiting reply stays at the head
      }
      if mcuReport {
        mcu.NfcCommit();
      }
      if isReply {
        DropReply();
      } else {
        inputReportCount := (inputReportCount + 1) % W;
      }
    }

    /** HID_SUBEVENT_CAN_SEND_NOW */
    method CanSendNow(mode: Mode, built: Report, radioAccepts: bool) returns (sent: Message)
      requires Valid()
      modifies this, mcu
      ensures Valid() && Abs() == Next(old(Abs()), CanSend(mode, built, radioAccepts))
      ensures sent == Sent(old(Abs()), CanSend(mode, built, radioAccepts))
      ensures !(old(connected) && old(sendPending)) ==> sent == NoMessage && Abs() == old(Abs())
      ensures old(connected) && old(sendPending) ==> !sendPending
      ensures old(connected) && old(sendPending) && radioAccepts && old(replyCount) > 0 ==>
        sent == ReplyMessage(old(Abs()).replies[0])
      ensures !radioAccepts ==> sent == NoMessage
    {
      sent := NoMessage;
      if connected && sendPending {
        var msg := SendNextReport(mode, built, radioAccepts);
        sent := if radioAccepts then msg else NoMessage;
      }
    }

    /** `input_timer_handler`; requested tells whether it asked for CAN_SEND_NOW. */
    method InputTimer() returns (requested: bool)
      requires Valid()
      modifies this`sendPending
      ensures Valid() && Abs() == Next(old(Abs()), Timer)
      ensures Requests(old(Abs()), Timer) == if requested then 1 else 0
      ensures requested <==> connected && !old(sendPending)
      ensures sendPending == (connected || old(sendPending))
    {
      requested := false;
      if connected && !sendPending {
        sendPending := true;
        requested := true;
      }
    }

    /** HID_SUBEVENT_CONNECTION_OPENED; `switch_proto_init` resets the NFC side. */
    method ConnectionOpened(success: bool)
      requires Valid()
      modifies this, mcu
      ensures Valid() && Abs() == Next(old(Abs()), Opened(success))
      ensures success ==> connected && !sendPending && Abs().replies == [] && inputReportCount == 0
      ensures success ==> mcu.powerState == 0 && mcu.pollState == 0 && mcu.Abs().queue == []
      ensures !success ==> Abs() == old(Abs())
    {
      if !success {
        return;
      }
      connected, sendPending := true, false;
      inputReportCount := 0;
      replyHead, replyCount := 0, 0;
      mcu.NfcReset();
    }

    /** HID_SUBEVENT_CONNECTION_CLOSED */
    method ConnectionClosed()
      requires Valid()
      modifies this
      ensures Valid() && Abs() == Next(old(Abs()), Closed)
      ensures !connected && !sendPending && Abs().replies == [] && inputReportCount == 0 && mcu.Abs() == old(mcu.Abs())
    {
      connected, sendPending := false, false;
      inputReportCount := 0;
      replyHead, replyCount := 0, 0;
    }

    /** `btstack_hid_send_input_report` */
    method SendInputReport(data: seq<Byte>) returns (requested: bool)
      requires Valid()
      modifies this`replyCount, this`sendPending, replies
      ensures Valid() && Abs() == Next(old(Abs()), Answer(data))
      ensures Requests(old(Abs()), Answer(data)) == if requested then 1 else 0
      ensures var taken := connected && 1 <= |data| <= 49 && old(replyCount) < 8;
        && Abs().replies == (if taken then old(Abs()).replies + [data] else old(Abs()).replies)
        && sendPending == (taken || old(sendPending))
        && (requested <==> taken && !old(sendPending))
    {
      requested := false;
      if !connected || |data| == 0 {
        return;
      }
      if |data| > REPORT_SIZE || replyCount == RING_SIZE {
        return;
      }
      var tail := (replyHead + replyCount) % RING_SIZE;
      ghost var slots := replies[..];
      replies[tail] := data;
      Ring.Push(slots, replies[..], replyHead, replyCount, data);
      replyCount := replyCount + 1;
      if !sendPending {
        sendPending := true;
        requested := true;
      }
    }
  }
}

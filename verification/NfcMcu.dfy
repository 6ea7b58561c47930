/**
 `main/nfc_mcu.c`: the emulated NFC microcontroller, a transactional queue of four packets in
 a ring. Each operation is proved to take the abstract state, whose queue is a sequence, to
 the state that `NfcPackets` gives.

 A pointer with a length is a sequence; a null pointer behaves like an empty one.
 */
module NfcMcu {
  import opened Words
  import opened OctetStrings
  import opened Crc8
  import opened NfcPackets
  import Ring

  function Put(p: Packet, off: nat, s: seq<Byte>): (r: Packet)
    requires off + |s| <= |p|
    ensures |r| == |p|
  {
    p[..off] + s + p[off + |s|..]
  }

  lemma PutOnZeros(prefix: seq<Byte>, k: nat, s: seq<Byte>)
    requires |s| <= k
    ensures Put(prefix + Zeros(k), |prefix|, s) == prefix + s + Zeros(k - |s|)
  {
  }

  lemma SealingMeans(p: Packet, body: seq<Byte>)
    requires |body| < SIZE && p == body + Zeros(SIZE - |body|)
    ensures p[312 := Crc(p[..312])] == Sealed(body)
  {
    assert p[..312] == body + Zeros(312 - |body|);
  }

  lemma StatusBuilt(power: Byte)
    ensures (if power == 0 then Put(Zeros(SIZE), 0, [0xff]) else Put(Zeros(SIZE), 0, [1, 0, 0, 0, 8, 0, 0x1b])[7 := power])
         == StatusBody(power) + Zeros(SIZE - |StatusBody(power)|)
  {
    PutOnZeros([], SIZE, [0xff]);
    PutOnZeros([], SIZE, [1, 0, 0, 0, 8, 0, 0x1b]);
  }

  lemma EmptyPollBuilt(poll: Byte)
    ensures Put(Zeros(SIZE), 0, [0x2a, 0, 5, 0, 0, 9, 0x31])[7 := poll] == EmptyPoll(poll) + Zeros(SIZE - 8)
  {
    PutOnZeros([], SIZE, [0x2a, 0, 5, 0, 0, 9, 0x31]);
  }

  lemma FoundPollBuilt(poll: Byte, tag: Tag)
    ensures Put(Put(Put(Zeros(SIZE), 0, [0x2a, 0, 5, 0, 0, 9, 0x31]), 8, Found()), 16, Uid(tag))[7 := poll]
         == FoundPoll(poll, tag) + Zeros(SIZE - 23)
  {
    var header: seq<Byte> := [0x2a, 0, 5, 0, 0, 9, 0x31];
    PutOnZeros([], SIZE, header);
    assert [] + header == header;
    assert header + Zeros(SIZE - 7) == header + [0] + Zeros(SIZE - 8);
    PutOnZeros(header + [0], SIZE - 8, Found());
    PutOnZeros(header + [0] + Found(), SIZE - 16, Uid(tag));
    assert (header + [0])[7 := poll] == PollHeader(poll);
  }

  lemma FirstBuilt(tag: Tag)
    ensures Put(Put(Put(Put(Zeros(SIZE), 0, Wire()), 15, Uid(tag)), 22, Meta()), 67, tag[..245])
         == First(tag) + Zeros(1)
  {
    PutOnZeros([], SIZE, Wire());
    assert [] + Wire() == Wire();
    PutOnZeros(Wire(), SIZE - 15, Uid(tag));
    PutOnZeros(Wire() + Uid(tag), SIZE - 22, Meta());
    PutOnZeros(Wire() + Uid(tag) + Meta(), SIZE - 67, tag[..245]);
  }

  lemma SecondBuilt(tag: Tag)
    ensures Put(Put(Zeros(SIZE), 0, SecondHeader()), 7, tag[245..]) == Second(tag) + Zeros(11)
  {
    PutOnZeros([], SIZE, SecondHeader());
    assert [] + SecondHeader() == SecondHeader();
    PutOnZeros(SecondHeader(), SIZE - 7, tag[245..]);
  }

  lemma ThirdBuilt(tag: Tag)
    ensures Put(Put(Zeros(SIZE), 0, [0x2a, 0, 5, 0, 0, 9, 0x31, 4] + Found()), 16, Uid(tag))
         == Third(tag) + Zeros(SIZE - 23)
  {
    var tail: seq<Byte> := [0x2a, 0, 5, 0, 0, 9, 0x31, 4] + Found();
    PutOnZeros([], SIZE, tail);
    assert [] + tail == tail;
    PutOnZeros(tail, SIZE - 16, Uid(tag));
  }

  lemma ThreeFragments(s: State)
    requires s.queue == []
    ensures Enqueue(Enqueue(Enqueue(s, First(s.tag)), Second(s.tag)), Third(s.tag)) == s.(queue := TagRead(s.tag))
  {
  }

  class Mcu {
    const tag: array<Byte>
    var present: bool
    var seen: bool
    var powerState: Byte
    var pollState: Byte
    const queue: array<Packet>
    var head: nat
    var count: nat
    var received: Word
    var rejected: Word
    var lastCmd: Byte
    var lastSub: Byte

    ghost predicate Valid()
      reads this, tag, queue
    {
      && tag.Length == TAG_SIZE && queue.Length == 4 && head < 4 && count <= 4
      && forall i :: 0 <= i < 4 ==> |queue[i]| == SIZE
    }

    /** The state with the ring read as a sequence. */
    ghost function Abs(): State
      requires Valid()
      reads this, tag, queue
    {
      State(tag[..], present, seen, powerState, pollState, Ring.Contents(queue[..], head, count),
            received, rejected, lastCmd, lastSub)
    }

    /** Static storage starts out zero. */
    constructor ()
      ensures Valid() && Abs() == Initial()
      ensures tag[..] == Zeros(540) && !present && !seen && powerState == 0 && pollState == 0 && count == 0
      ensures fresh(tag) && fresh(queue)
    {
      tag := new Byte[TAG_SIZE](_ => 0);
      queue := new Packet[4](_ => Zeros(SIZE));
      present, seen, powerState, pollState := false, false, 0, 0;
      head, count, received, rejected, lastCmd, lastSub := 0, 0, 0, 0, 0, 0;
      new;
      assert tag[..] == Zeros(TAG_SIZE);
    }

    method FlushQueue()
      requires Valid()
      modifies this`head, this`count
      ensures Valid() && Abs() == Flush(old(Abs()))
    {
      head, count := 0, 0;
    }

    /** The next free slot, zeroed, or -1. */
    method Reserve() returns (slot: int)
      requires Valid()
      modifies this`count, queue
      ensures Valid()
      ensures old(count) == 4 ==> slot == -1 && Abs() == old(Abs())
      ensures old(count) < 4 ==> slot == (head + old(count)) % 4 && count == old(count) + 1
      ensures old(count) < 4 ==> queue[..] == old(queue[..])[slot := Zeros(SIZE)]
    {
      if count == 4 {
        return -1;
      }
      slot := (head + count) % 4;
      count := count + 1;
      queue[slot] := Zeros(SIZE);
    }

    /** Writes the CRC of the packet built in the slot. */
    method Finish(slot: nat, p: Packet, ghost body: seq<Byte>, ghost before: State)
      requires Valid() && 0 < count && slot == (head + count - 1) % 4
      requires |body| < SIZE && p == body + Zeros(SIZE - |body|)
      requires |before.queue| == count - 1 && before.queue == Ring.Contents(queue[..], head, count - 1)
      requires Abs() == before.(queue := Abs().queue)
      modifies queue
      ensures Valid() && Abs() == Enqueue(before, body)
    {
      var crc := NfcCrc8(p[..312]);
      SealingMeans(p, body);
      ghost var slots := queue[..];
      queue[slot] := p[312 := crc];
      Ring.Push(slots, queue[..], head, count - 1, Sealed(body));
    }

    method SendStatus()
      requires Valid()
      modifies this`count, queue
      ensures Valid() && Abs() == Status(old(Abs()))
      ensures AppendsStatus(old(Abs()), Abs())
      ensures old(count) < 4 ==> count == old(count) + 1
      ensures old(count) < 4 && powerState == 0 ==> Abs().queue[old(count)][0] == 0xff
      ensures old(count) < 4 && powerState != 0 ==> Abs().queue[old(count)][..8] == [1, 0, 0, 0, 8, 0, 0x1b, powerState]
    {
      ghost var s := Abs();
      ghost var before := s;
      var slot := Reserve();
      if slot < 0 {
        return;
      }
      var p := queue[slot];
      if powerState == 0 {
        p := Put(p, 0, [0xff]);
      } else {
        p := Put(p, 0, [1, 0, 0, 0, 8, 0, 0x1b]);
        p := p[7 := powerState];
      }
      StatusBuilt(powerState);
      Finish(slot, p, StatusBody(powerState), before);
      StatusMeans(s);
    }

    method UidBytes() returns (uid: seq<Byte>)
      requires Valid()
      ensures uid == Uid(tag[..])
    {
      uid := tag[..3] + tag[4..8];
      assert tag[4..8] == tag[..][4..8];
    }

    method SendPoll()
      requires Valid()
      modifies this`count, this`pollState, this`seen, queue
      ensures Valid() && Abs() == Poll(old(Abs()))
      ensures AppendsPoll(old(Abs()), Abs())
      ensures old(count) < 4 ==> count == old(count) + 1
      ensures old(count) < 4 ==> Abs().queue[old(count)][..8] == [0x2a, 0, 5, 0, 0, 9, 0x31, pollState]
      ensures old(count) < 4 && present && old(pollState) != 0 ==>
        seen && pollState == (if old(seen) then 9 else 1) && Abs().queue[old(count)][16..23] == tag[..3] + tag[4..8]
    {
      ghost var s := Abs();
      ghost var before := s;
      var slot := Reserve();
      if slot < 0 {
        return;
      }
      var p := Put(queue[slot], 0, [0x2a, 0, 5, 0, 0, 9, 0x31]);
      ghost var body := EmptyPoll(pollState);
      if present && pollState != 0 {
        pollState := if seen then 9 else 1;
        seen := true;
        p := Put(p, 8, Found());
        var uid := UidBytes();
        p := Put(p, 16, uid);
        body, before := FoundPoll(pollState, tag[..]), before.(poll := pollState, seen := true);
        FoundPollBuilt(pollState, tag[..]);
      } else {
        EmptyPollBuilt(pollState);
      }
      p := p[7 := pollState];
      Finish(slot, p, body, before);
      PollMeans(s);
    }

    /** The fragments of a tag read, one method each. */
    method SendFirst(uid: seq<Byte>)
      requires Valid() && count < 4 && uid == Uid(tag[..])
      modifies this`count, queue
      ensures Valid() && Abs() == Enqueue(old(Abs()), First(tag[..]))
    {
      ghost var before := Abs();
      var slot := Reserve();
      var p := Put(queue[slot], 0, Wire());
      p := Put(p, 15, uid);
      p := Put(p, 22, Meta());
      p := Put(p, 67, tag[..245]);
      FirstBuilt(tag[..]);
      assert tag[..][..245] == tag[..245];
      Finish(slot, p, First(tag[..]), before);
    }

    method SendSecond()
      requires Valid() && count < 4
      modifies this`count, queue
      ensures Valid() && Abs() == Enqueue(old(Abs()), Second(tag[..]))
    {
      ghost var before := Abs();
      var slot := Reserve();
      var p := Put(queue[slot], 0, SecondHeader());
      p := Put(p, 7, tag[245..]);
      SecondBuilt(tag[..]);
      assert tag[..][245..] == tag[245..];
      Finish(slot, p, Second(tag[..]), before);
    }

    method SendThird(uid: seq<Byte>)
      requires Valid() && count < 4 && uid == Uid(tag[..])
      modifies this`count, queue
      ensures Valid() && Abs() == Enqueue(old(Abs()), Third(tag[..]))
    {
      ghost var before := Abs();
      var slot := Reserve();
      var p := Put(queue[slot], 0, [0x2a, 0, 5, 0, 0, 9, 0x31, 4] + Found());
      p := Put(p, 16, uid);
      ThirdBuilt(tag[..]);
      Finish(slot, p, Third(tag[..]), before);
    }

    /** The queue is emptied first, so that all three fragments find room. */
    method ReadTag()
      requires Valid()
      modifies this`head, this`count, queue
      ensures Valid() && Abs() == old(Abs()).(queue := TagRead(tag[..]))
    {
      FlushQueue();
      var uid := UidBytes();
      ghost var flushed := Abs();
      SendFirst(uid);
      SendSecond();
      SendThird(uid);
      ThreeFragments(flushed);
    }

    method HandleCommand(packet: seq<Byte>) returns (ok: bool)
      requires Valid()
      modifies this`head, this`count, this`pollState, this`seen, queue
      ensures Valid() && ok == Accepts(old(Abs()), packet)
      ensures ok <==>
        && |packet| >= 11 && packet[0] == 0x11
        && (|| packet[10] == 1
            || (&& packet[10] == 2 && |packet| >= 12 && powerState == 4
                && (|| packet[11] in {1, 2, 4}
                    || (packet[11] == 6 && |packet| >= 25 && present && forall i :: 18 <= i < 25 ==> packet[i] == 0))))
      ensures !ok ==> Abs() == old(Abs())
      ensures ok && packet[10] == 1 ==> AppendsStatus(old(Abs()), Abs())
      ensures ok && packet[10] == 2 && packet[11] == 1 ==> Abs() == old(Abs()).(poll := 1)
      ensures ok && packet[10] == 2 && packet[11] == 2 ==> Abs() == old(Abs()).(poll := 0, seen := false, queue := [])
      ensures ok && packet[10] == 2 && packet[11] == 4 ==> AppendsPoll(old(Abs()), Abs())
      ensures ok && packet[10] == 2 && packet[11] == 6 ==> Abs() == old(Abs()).(queue := TagRead(tag[..]))
      ensures Abs() == if ok then Perform(old(Abs()), packet) else old(Abs())
    {
      if |packet| < 11 || packet[0] != 0x11 {
        return false;
      }
      if packet[10] == 1 {
        SendStatus();
        return true;
      }
      if packet[10] != 2 || |packet| < 12 || powerState != 4 {
        return false;
      }
      var data := packet[12..];
      if packet[11] == 1 {
        pollState := 1;
        return true;
      } else if packet[11] == 2 {
        pollState := 0;
        seen := false;
        FlushQueue();
        return true;
      } else if packet[11] == 4 {
        SendPoll();
        return true;
      } else if packet[11] == 6 {
        if |data| < 13 || !present {
          return false;
        }
        var i := 6;
        while i < 13
          invariant 6 <= i <= 13
          invariant forall k :: 18 <= k < 12 + i ==> packet[k] == 0
        {
          if data[i] != 0 {
            assert packet[12 + i] != 0;
            return false;
          }
          i := i + 1;
        }
        ReadTag();
        return true;
      }
      return false;
    }

    method NfcCommand(packet: seq<Byte>) returns (ok: bool)
      requires Valid()
      modifies this, queue
      ensures Valid() && Abs() == Command(old(Abs()), packet)
      ensures received == (old(received) + 1) % W && rejected == if ok then old(rejected) else (old(rejected) + 1) % W
      ensures lastCmd == if |packet| > 10 then packet[10] else 0
      ensures lastSub == if |packet| > 11 then packet[11] else 0
      ensures ok == Accepts(old(Abs()), packet)
    {
      received := (received + 1) % W;
      lastCmd := if |packet| > 10 then packet[10] else 0;
      lastSub := if |packet| > 11 then packet[11] else 0;
      assert Abs() == Count(old(Abs()), packet);
      ok := HandleCommand(packet);
      if !ok {
        rejected := (rejected + 1) % W;
      }
    }

    method NfcReset()
      requires Valid()
      modifies this
      ensures Valid() && Abs() == Reset(old(Abs()))
      ensures powerState == 0 && pollState == 0 && !seen && Abs().queue == []
      ensures received == 0 && rejected == 0 && lastCmd == 0 && lastSub == 0
      ensures present == old(present) && tag[..] == old(tag[..])
    {
      FlushQueue();
      powerState, pollState, seen := 0, 0, false;
      received, rejected, lastCmd, lastSub := 0, 0, 0, 0;
    }

    method NfcLoad(data: seq<Byte>) returns (ok: bool)
      requires Valid()
      modifies this, tag, queue
      ensures Valid() && Abs() == Load(old(Abs()), data)
      ensures |data| != 540 ==> Abs() == old(Abs())
      ensures |data| == 540 ==> tag[..] == data && present && powerState == old(powerState)
      ensures |data| == 540 && powerState == 0 ==> Abs().queue == [] && !seen
      ensures |data| == 540 && powerState != 0 && !(powerState == 4 && old(pollState) != 0) ==>
        |Abs().queue| == 1 && IsStatus(Abs().queue[0], powerState) && !seen && pollState == old(pollState)
      ensures |data| == 540 && powerState == 4 && old(pollState) != 0 ==>
        |Abs().queue| == 1 && IsPoll(Abs().queue[0], 1, data[..3] + data[4..8]) && seen && pollState == 1
      ensures ok == (|data| == TAG_SIZE)
    {
      if |data| != TAG_SIZE {
        return false;
      }
      forall i | 0 <= i < TAG_SIZE {
        tag[i] := data[i];
      }
      assert tag[..] == data;
      present, seen := true, false;
      FlushQueue();
      // the host still waits for an answer about the state
      if powerState == 4 && pollState != 0 {
        pollState := 1;
        SendPoll();
      } else if powerState != 0 {
        SendStatus();
      }
      return true;
    }

    method NfcUnload()
      requires Valid()
      modifies this, tag, queue
      ensures Valid() && Abs() == Unload(old(Abs()))
      ensures tag[..] == Zeros(540) && !present && !seen && powerState == old(powerState)
      ensures pollState == if old(pollState) != 0 then 1 else 0
      ensures pollState != 0 && powerState == 4 ==> |Abs().queue| == 1 && IsPoll(Abs().queue[0], 1, [])
      ensures !(pollState != 0 && powerState == 4) ==> Abs().queue == []
    {
      present, seen := false, false;
      forall i | 0 <= i < TAG_SIZE {
        tag[i] := 0;
      }
      assert tag[..] == Zeros(TAG_SIZE);
      FlushQueue();
      if pollState != 0 {
        pollState := 1;
        if powerState == 4 {
          SendPoll();
        }
      }
    }

    method NfcPower(value: Byte) returns (ok: bool)
      requires Valid()
      modifies this, queue
      ensures Valid() && Abs() == Power(old(Abs()), value)
      ensures value > 1 ==> Abs() == old(Abs())
      ensures value <= 1 ==> powerState == value && pollState == 0 && !seen
      ensures value <= 1 ==> |Abs().queue| == 1 && IsStatus(Abs().queue[0], value)
      ensures present == old(present) && tag[..] == old(tag[..])
      ensures ok == (value <= 1)
    {
      if value > 1 {
        return false;
      }
      FlushQueue();
      powerState, pollState, seen := value, 0, false;
      SendStatus();
      return true;
    }

    /** On success also the 34-byte reply. */
    method NfcConfig(args: seq<Byte>) returns (ok: bool, reply: seq<Byte>)
      requires Valid()
      modifies this, queue
      ensures Valid() && Abs() == Config(old(Abs()), args)
      ensures ok <==> |args| >= 3 && args[2] in {0, 1, 4}
      ensures ok && old(powerState) != 0 && args[2] != 0 ==>
        && powerState == args[2] && pollState == 0 && !seen
        && |Abs().queue| == 1 && IsStatus(Abs().queue[0], powerState)
      ensures !(ok && old(powerState) != 0 && args[2] != 0) ==> Abs() == old(Abs())
      ensures present == old(present) && tag[..] == old(tag[..])
      ensures ok ==> |reply| == 34 && [1, 0, 0xff, 0, 8, 0, 0x1b, 1] <= reply && Crc(reply) == 0
    {
      reply := [];
      if |args| < 3 || (args[2] != 0 && args[2] != 1 && args[2] != 4) {
        return false, reply;
      }
      if powerState != 0 && args[2] != 0 {
        powerState, pollState, seen := args[2], 0, false;
        FlushQueue();
        SendStatus();
      }
      reply := ConfigReply();
      return true, reply;
    }

    method ConfigReply() returns (reply: seq<Byte>)
      ensures |reply| == 34 && [1, 0, 0xff, 0, 8, 0, 0x1b, 1] <= reply && Crc(reply) == 0
    {
      reply := Put(Zeros(34), 0, [1, 0, 0xff, 0, 8, 0, 0x1b, 1]);
      var crc := NfcCrc8(reply[..33]);
      CrcOfSealed(reply[..33]);
      reply := reply[33 := crc];
      assert reply == reply[..33] + [crc];
    }

    method NfcPeek() returns (out: Packet)
      requires Valid()
      ensures out == Peek(Abs())
      ensures count > 0 ==> out == queue[head]
      ensures count == 0 ==> |out| == 313 && out[0] == 0xff && out[312] == Crc(out[..312])
      ensures count == 0 ==> forall i :: 1 <= i < 312 ==> out[i] == 0
    {
      if count != 0 {
        out := queue[head];
      } else {
        PutOnZeros([], SIZE, [0xff]);
        out := Put(Zeros(SIZE), 0, [0xff]);
        var crc := NfcCrc8(out[..312]);
        SealingMeans(out, [0xff]);
        out := out[312 := crc];
      }
    }

    method NfcCommit()
      requires Valid()
      modifies this`head, this`count
      ensures Valid() && Abs() == Commit(old(Abs()))
      ensures Abs().queue == if old(count) > 0 then old(Abs().queue)[1..] else []
    {
      ghost var before := Abs();
      if count != 0 {
        Ring.Pop(queue[..], head, count);
        head := (head + 1) % 4;
        count := count - 1;
        assert Abs().queue == before.queue[1..];
      }
    }
  }
}

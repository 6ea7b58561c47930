/** What holds over every run of the NFC microcontroller. */
module NfcRuns {
  import opened OctetStrings
  import opened Crc8
  import opened NfcPackets

  datatype Op =
    | DoReset
    | DoLoad(data: seq<Byte>)
    | DoUnload
    | DoPower(value: Byte)
    | DoConfig(args: seq<Byte>)
    | DoCommand(packet: seq<Byte>)
    | DoCommit

  function Next(s: State, op: Op): State {
    match op
    case DoReset => Reset(s)
    case DoLoad(data) => Load(s, data)
    case DoUnload => Unload(s)
    case DoPower(value) => Power(s, value)
    case DoConfig(args) => Config(s, args)
    case DoCommand(packet) => Command(s, packet)
    case DoCommit => Commit(s)
  }

  function Run(s: State, ops: seq<Op>): State
    decreases |ops|
  {
    if ops == [] then s else Run(Next(s, ops[0]), ops[1..])
  }

  // ----- The invariant -----

  /** A queued packet tells the current power state, or was built from the loaded tag, or carries neither. */
  ghost predicate UpToDate(power: Byte, present: bool, tag: Tag, p: Packet) {
    || p == Sealed(StatusBody(power))
    || p == Sealed(EmptyPoll(0)) || p == Sealed(EmptyPoll(1))
    || (present && (p == Sealed(FoundPoll(1, tag)) || p == Sealed(FoundPoll(9, tag)) || p in TagRead(tag)))
  }

  ghost predicate AllUpToDate(s: State) {
    forall p :: p in s.queue ==> UpToDate(s.power, s.present, s.tag, p)
  }

  ghost predicate Inv(s: State) {
    && s.power in {0, 1, 4} && s.poll in {0, 1, 9}
    && (s.poll != 0 ==> s.power == 4)
    && (s.poll == 9 ==> s.seen)
    && (s.seen ==> s.present)
    && |s.queue| <= 4
    && AllUpToDate(s)
  }

  lemma EnqueueInv(s: State, body: seq<Byte>)
    requires Inv(s) && |body| < SIZE && UpToDate(s.power, s.present, s.tag, Sealed(body))
    ensures Inv(Enqueue(s, body))
  {
  }

  lemma StatusInv(s: State)
    requires Inv(s)
    ensures Inv(Status(s))
  {
    EnqueueInv(s, StatusBody(s.power));
  }

  /** Polling may find the tag again: everything queued stays up to date. */
  lemma PollInv(s: State)
    requires Inv(s)
    ensures Inv(Poll(s))
  {
    if |s.queue| < 4 {
      if s.present && s.poll != 0 {
        var poll := if s.seen then 9 else 1;
        EnqueueInv(s.(poll := poll, seen := true), FoundPoll(poll, s.tag));
      } else {
        assert s.poll == 0 || s.poll == 1;
        EnqueueInv(s, EmptyPoll(s.poll));
      }
    }
  }

  lemma CommandInv(s: State, packet: seq<Byte>)
    requires Inv(s)
    ensures Inv(Command(s, packet))
  {
    var t := Count(s, packet);
    if Accepts(t, packet) {
      if packet[10] == 1 {
        StatusInv(t);
      } else if packet[11] == 4 {
        PollInv(t);
      }
    }
  }

  lemma NextInv(s: State, op: Op)
    requires Inv(s)
    ensures Inv(Next(s, op))
  {
    match op
    case DoReset =>
    case DoLoad(data) =>
      if |data| == TAG_SIZE {
        var t := Flush(s).(tag := data, present := true, seen := false);
        if t.power == 4 && t.poll != 0 {
          PollInv(t.(poll := 1));
        } else if t.power != 0 {
          StatusInv(t);
        }
      }
    case DoUnload =>
      var t := Flush(s).(tag := Zeros(TAG_SIZE), present := false, seen := false);
      if t.poll != 0 {
        PollInv(t.(poll := 1));
      }
    case DoPower(value) =>
      if value <= 1 {
        StatusInv(Flush(s).(power := value, poll := 0, seen := false));
      }
    case DoConfig(args) =>
      if AcceptsConfig(args) && s.power != 0 && args[2] != 0 {
        StatusInv(Flush(s).(power := args[2], poll := 0, seen := false));
      }
    case DoCommand(packet) =>
      CommandInv(s, packet);
    case DoCommit =>
  }

  /** The invariant holds in every reachable state. */
  lemma {:induction false} RunInv(s: State, ops: seq<Op>)
    requires Inv(s)
    ensures Inv(Run(s, ops))
    decreases |ops|
  {
    if ops != [] {
      NextInv(s, ops[0]);
      RunInv(Next(s, ops[0]), ops[1..]);
    }
  }

  lemma Reachable(ops: seq<Op>)
    ensures Inv(Run(Initial(), ops))
  {
    RunInv(Initial(), ops);
  }

  // ----- What the invariant means for the bytes on the wire -----

  /**
   No stale packet: a queued packet is a status packet with the current power state, a poll answer
   without a tag, one with the UID of the loaded tag, or one of the two fragments of the loaded tag.
   */
  lemma QueueIsCurrent(s: State, p: Packet)
    requires Inv(s) && p in s.queue
    ensures |p| == 313 && p[312] == Crc(p[..312]) && p[0] in {0xff, 0x01, 0x2a, 0x3a}
    ensures p[0] == 0xff ==> s.power == 0 && forall i :: 1 <= i < 312 ==> p[i] == 0
    ensures p[0] == 0x01 ==> p[..8] == [1, 0, 0, 0, 8, 0, 0x1b, s.power] && forall i :: 8 <= i < 312 ==> p[i] == 0
    ensures p[0] == 0x2a ==> p[..7] == [0x2a, 0, 5, 0, 0, 9, 0x31]
    ensures p[0] == 0x2a && p[15] == 0 ==> p[7] in {0, 1} && forall i :: 8 <= i < 312 ==> p[i] == 0
    ensures p[0] == 0x2a && p[15] != 0 ==>
      && s.present && p[7] in {1, 4, 9} && p[8..16] == [0, 0, 0, 1, 1, 2, 0, 7]
      && p[16..23] == s.tag[..3] + s.tag[4..8] && forall i :: 23 <= i < 312 ==> p[i] == 0
    ensures p[0] == 0x3a && p[3] == 1 ==>
      && s.present && p[..15] == [0x3a, 0, 7, 1, 0, 1, 0x31, 2, 0, 0, 0, 1, 2, 0, 7]
      && p[15..22] == s.tag[..3] + s.tag[4..8]
      && p[22..36] == [0, 0, 0, 0, 0x7d, 0xfd, 0xf0, 0x79, 0x36, 0x51, 0xab, 0xd7, 0x46, 0x6e]
      && p[36..48] == [0x39, 0xc1, 0x91, 0xba, 0xbe, 0xb8, 0x56, 0xce, 0xed, 0xf1, 0xce, 0x44]
      && p[48..62] == [0xcc, 0x75, 0xea, 0xfb, 0x27, 9, 0x4d, 8, 0x7a, 0xe8, 3, 0, 0x3b, 0x3c]
      && p[62..67] == [0x77, 0x78, 0x86, 0, 0] && p[67..312] == s.tag[..245]
    ensures p[0] == 0x3a && p[3] != 1 ==>
      && s.present && p[..7] == [0x3a, 0, 7, 2, 0, 9, 0x27] && p[7..302] == s.tag[245..]
      && forall i :: 302 <= i < 312 ==> p[i] == 0
  {
    assert UpToDate(s.power, s.present, s.tag, p);
    if p == Sealed(StatusBody(s.power)) {
      StatusBytes(s.power);
    } else if p == Sealed(EmptyPoll(0)) || p == Sealed(EmptyPoll(1)) {
      EmptyPollBytes(0);
      EmptyPollBytes(1);
    } else if p == Sealed(First(s.tag)) {
      FirstBytes(s.tag);
    } else if p == Sealed(Second(s.tag)) {
      SecondBytes(s.tag);
    } else {
      FoundPollBytes(1, s.tag);
      FoundPollBytes(9, s.tag);
      FoundPollBytes(4, s.tag);
    }
  }

  /** Whatever the history, the packet on offer carries a valid CRC. */
  lemma PeekIsSealed(ops: seq<Op>)
    ensures var p := Peek(Run(Initial(), ops)); IsSealed(p) && Crc(p) == 0
  {
    var s := Run(Initial(), ops);
    var p := Peek(s);
    Reachable(ops);
    if s.queue != [] {
      QueueIsCurrent(s, p);
    }
    assert p == p[..312] + [Crc(p[..312])];
    CrcOfSealed(p[..312]);
  }

  // ----- The queue as a bounded first-in first-out buffer -----

  /** Operations that empty the queue. */
  predicate Flushes(s: State, op: Op) {
    match op
    case DoReset => true
    case DoLoad(data) => |data| == TAG_SIZE
    case DoUnload => true
    case DoPower(value) => value <= 1
    case DoConfig(args) => AcceptsConfig(args) && s.power != 0 && args[2] != 0
    case DoCommand(packet) => Accepts(s, packet) && packet[10] == 2 && packet[11] in {2, 6}
    case DoCommit => false
  }

  predicate NeverFlushes(s: State, ops: seq<Op>)
    decreases |ops|
  {
    ops == [] || (!Flushes(s, ops[0]) && NeverFlushes(Next(s, ops[0]), ops[1..]))
  }

  /** A commit takes out the packet that peek shows before it. */
  function Taken(s: State, op: Op): seq<Packet> {
    if op == DoCommit && s.queue != [] then [Peek(s)] else []
  }

  function Committed(s: State, ops: seq<Op>): seq<Packet>
    decreases |ops|
  {
    if ops == [] then [] else Taken(s, ops[0]) + Committed(Next(s, ops[0]), ops[1..])
  }

  /** The packet a status or poll request appends, if there is room. */
  function Appended(s: State, op: Op): seq<Packet> {
    if !op.DoCommand? || !Accepts(s, op.packet) || |s.queue| >= 4 then []
    else if op.packet[10] == 1 then [Sealed(StatusBody(s.power))]
    else if op.packet[11] != 4 then []
    else if s.present && s.poll != 0 then [Sealed(FoundPoll(if s.seen then 9 else 1, s.tag))]
    else [Sealed(EmptyPoll(s.poll))]
  }

  function AppendedBy(s: State, ops: seq<Op>): seq<Packet>
    decreases |ops|
  {
    if ops == [] then [] else Appended(s, ops[0]) + AppendedBy(Next(s, ops[0]), ops[1..])
  }

  lemma CommandConserves(s: State, packet: seq<Byte>)
    requires !Flushes(s, DoCommand(packet))
    ensures var t := Command(s, packet); t.queue == s.queue + Appended(s, DoCommand(packet)) && t.tag == s.tag
  {
    var t := Count(s, packet);
    assert Accepts(t, packet) <==> Accepts(s, packet);
    if Accepts(s, packet) && packet[10] != 1 {
      assert packet[11] == 1 || packet[11] == 4;
    }
  }

  lemma StepConserves(s: State, op: Op)
    requires !Flushes(s, op)
    ensures Taken(s, op) + Next(s, op).queue == s.queue + Appended(s, op)
    ensures Next(s, op).tag == s.tag
  {
    if op.DoCommand? {
      CommandConserves(s, op.packet);
    }
  }

  lemma Chain<T>(out: seq<T>, outs: seq<T>, last: seq<T>, next: seq<T>, ins: seq<T>, first: seq<T>, i: seq<T>)
    requires outs + last == next + ins && out + next == first + i
    ensures out + outs + last == first + (i + ins)
  {
    assert out + outs + last == out + (next + ins) == first + i + ins;
  }

  /** Without a flush nothing is lost, duplicated or reordered. */
  lemma {:induction false} Conservation(s: State, ops: seq<Op>)
    requires NeverFlushes(s, ops)
    ensures Committed(s, ops) + Run(s, ops).queue == s.queue + AppendedBy(s, ops)
    decreases |ops|
  {
    if ops != [] {
      var t := Next(s, ops[0]);
      StepConserves(s, ops[0]);
      Conservation(t, ops[1..]);
      Chain(Taken(s, ops[0]), Committed(t, ops[1..]), Run(t, ops[1..]).queue,
            t.queue, AppendedBy(t, ops[1..]), s.queue, Appended(s, ops[0]));
    }
  }

  function Commits(ops: seq<Op>): nat {
    if ops == [] then 0 else (if ops[0] == DoCommit then 1 else 0) + Commits(ops[1..])
  }

  /** Every commit takes a packet while there is one. */
  lemma {:induction false} CommitsDrain(s: State, ops: seq<Op>, n: nat)
    requires NeverFlushes(s, ops) && n <= |s.queue| && n <= Commits(ops)
    ensures |Committed(s, ops)| >= n
    decreases |ops|
  {
    if ops != [] {
      var t := Next(s, ops[0]);
      StepConserves(s, ops[0]);
      if ops[0] == DoCommit {
        CommitsDrain(t, ops[1..], if n > 0 then n - 1 else 0);
      } else {
        assert |t.queue| == |s.queue| + |Appended(s, ops[0])|;
        CommitsDrain(t, ops[1..], n);
      }
    }
  }

  /**
   An accepted read leaves exactly the three packets of the tag, which rebuild it; and any three
   commits later, whatever polls and status requests came between, have handed out those three
   first and unchanged.
   */
  lemma ReadStays(s: State, packet: seq<Byte>, ops: seq<Op>)
    requires IsRead(s, packet)
    ensures var t := Command(s, packet);
      && t.queue == TagRead(s.tag)
      && t.queue[0][67..312] + t.queue[1][7..302] == s.tag
      && (NeverFlushes(t, ops) ==> TagRead(s.tag) <= Committed(t, ops) + Run(t, ops).queue)
      && (NeverFlushes(t, ops) && Commits(ops) >= 3 ==> TagRead(s.tag) <= Committed(t, ops))
  {
    var t := Command(s, packet);
    FirstBytes(s.tag);
    SecondBytes(s.tag);
    if NeverFlushes(t, ops) {
      Conservation(t, ops);
      assert TagRead(s.tag) <= t.queue + AppendedBy(t, ops);
      if Commits(ops) >= 3 {
        CommitsDrain(t, ops, 3);
        ShortPrefix(TagRead(s.tag), Committed(t, ops), Run(t, ops).queue);
      }
    }
  }

  lemma ShortPrefix<T>(p: seq<T>, a: seq<T>, b: seq<T>)
    requires p <= a + b && |p| <= |a|
    ensures p <= a
  {
    assert forall i :: 0 <= i < |p| ==> p[i] == (a + b)[i] == a[i];
  }

  // ----- What the state says about the operations before it -----

  predicate Loads(op: Op) {
    op.DoLoad? && |op.data| == 540
  }

  /** Operation j is the last load, and no unload came later. */
  ghost predicate LastLoad(ops: seq<Op>, j: nat) {
    j < |ops| && Loads(ops[j]) && forall i :: j < i < |ops| ==> !Loads(ops[i]) && ops[i] != DoUnload
  }

  lemma TagStep(s: State, op: Op)
    ensures Loads(op) ==> Next(s, op).tag == op.data && Next(s, op).present
    ensures op == DoUnload ==> Next(s, op).tag == Zeros(540) && !Next(s, op).present
    ensures !Loads(op) && op != DoUnload ==> Next(s, op).tag == s.tag && Next(s, op).present == s.present
  {
  }

  lemma {:induction false} TagAfter(s: State, ops: seq<Op>)
    ensures forall j: nat :: LastLoad(ops, j) ==> Run(s, ops).tag == ops[j].data && Run(s, ops).present
    ensures (forall j: nat :: !LastLoad(ops, j)) ==>
      || (Run(s, ops).tag == Zeros(540) && !Run(s, ops).present)
      || (Run(s, ops).tag == s.tag && Run(s, ops).present == s.present)
    decreases |ops|
  {
    if ops != [] {
      var t, rest := Next(s, ops[0]), ops[1..];
      TagStep(s, ops[0]);
      TagAfter(t, rest);
      forall j: nat | j > 0 ensures LastLoad(ops, j) <==> LastLoad(rest, j - 1) {
        LaterLoad(ops, j);
      }
      if LastLoad(ops, 0) {
        assert forall j: nat :: !LastLoad(rest, j);
        StaysLoaded(t, rest);
      } else if j: nat :| LastLoad(rest, j) {
        assert LastLoad(ops, j + 1);
      } else if Loads(ops[0]) {
        var i :| 0 < i < |ops| && (Loads(ops[i]) || ops[i] == DoUnload);
        Unloaded(t, rest, i - 1);
      }
    }
  }

  lemma LaterLoad(ops: seq<Op>, j: nat)
    requires j > 0 && ops != []
    ensures LastLoad(ops, j) <==> LastLoad(ops[1..], j - 1)
  {
    if LastLoad(ops, j) {
      assert forall i :: 0 <= i < |ops| - 1 ==> ops[1..][i] == ops[i + 1];
    }
    if LastLoad(ops[1..], j - 1) {
      forall i | j < i < |ops| ensures !Loads(ops[i]) && ops[i] != DoUnload {
        assert ops[i] == ops[1..][i - 1];
      }
    }
  }

  lemma {:induction false} StaysLoaded(s: State, ops: seq<Op>)
    requires forall i :: 0 <= i < |ops| ==> !Loads(ops[i]) && ops[i] != DoUnload
    ensures Run(s, ops).tag == s.tag && Run(s, ops).present == s.present
    decreases |ops|
  {
    if ops != [] {
      TagStep(s, ops[0]);
      StaysLoaded(Next(s, ops[0]), ops[1..]);
    }
  }

  /** An unload, or a load that is not the last word, without a last load: the tag is gone. */
  lemma {:induction false} Unloaded(s: State, ops: seq<Op>, i: nat)
    requires i < |ops| && (Loads(ops[i]) || ops[i] == DoUnload) && forall j: nat :: !LastLoad(ops, j)
    ensures Run(s, ops).tag == Zeros(540) && !Run(s, ops).present
    decreases |ops|
  {
    var t, rest := Next(s, ops[0]), ops[1..];
    TagStep(s, ops[0]);
    forall j: nat ensures !LastLoad(rest, j) {
      LaterLoad(ops, j + 1);
    }
    if k :| 0 <= k < |rest| && (Loads(rest[k]) || rest[k] == DoUnload) {
      Unloaded(t, rest, k);
    } else {
      assert !LastLoad(ops, 0);
      assert forall k :: 0 < k < |ops| ==> ops[k] == rest[k - 1];
      StaysLoaded(t, rest);
    }
  }

  /** A tag is present exactly if a load of 540 bytes was not followed by an unload, and it is the last one. */
  lemma LoadedExactly(ops: seq<Op>)
    ensures Run(Initial(), ops).present <==> exists j: nat :: LastLoad(ops, j)
    ensures forall j: nat :: LastLoad(ops, j) ==> Run(Initial(), ops).tag == ops[j].data
    ensures (forall j: nat :: !LastLoad(ops, j)) ==> forall i :: 0 <= i < 540 ==> Run(Initial(), ops).tag[i] == 0
  {
    TagAfter(Initial(), ops);
  }

  /** The power state, and whether a search for tags is on, follow from these operations alone. */
  function Controlled(power: Byte, searching: bool, op: Op): (Byte, bool) {
    match op
    case DoReset => (0, false)
    case DoPower(value) => if value <= 1 then (value, false) else (power, searching)
    case DoConfig(args) =>
      if |args| >= 3 && args[2] in {1, 4} && power != 0 then (args[2], false) else (power, searching)
    case DoCommand(packet) =>
      if |packet| < 12 || packet[0] != 0x11 || packet[10] != 2 || power != 4 then (power, searching)
      else if packet[11] == 1 then (power, true)
      else if packet[11] == 2 then (power, false)
      else (power, searching)
    case _ => (power, searching)
  }

  function ControlledAll(power: Byte, searching: bool, ops: seq<Op>): (Byte, bool)
    decreases |ops|
  {
    if ops == [] then (power, searching)
    else
      var (p, d) := Controlled(power, searching, ops[0]);
      ControlledAll(p, d, ops[1..])
  }

  lemma ControlStep(s: State, op: Op)
    requires Inv(s)
    ensures (Next(s, op).power, Next(s, op).poll != 0) == Controlled(s.power, s.poll != 0, op)
  {
    if op.DoCommand? {
      CommandControls(s, op.packet);
    }
  }

  lemma CommandControls(s: State, packet: seq<Byte>)
    requires Inv(s)
    ensures (Command(s, packet).power, Command(s, packet).poll != 0) == Controlled(s.power, s.poll != 0, DoCommand(packet))
  {
    var t := Count(s, packet);
    if Accepts(t, packet) && packet[10] == 2 && packet[11] == 4 {
      PollInv(t);
    }
  }

  lemma {:induction false} PowerAndSearch(s: State, ops: seq<Op>)
    requires Inv(s)
    ensures (Run(s, ops).power, Run(s, ops).poll != 0) == ControlledAll(s.power, s.poll != 0, ops)
    decreases |ops|
  {
    if ops != [] {
      ControlStep(s, ops[0]);
      NextInv(s, ops[0]);
      PowerAndSearch(Next(s, ops[0]), ops[1..]);
    }
  }

  /**
   After any history an accepted read, which needs a loaded tag, leaves three packets that rebuild
   the data of the last load; and any three commits later, whatever polls and status requests came
   between, have handed out those three first and unchanged.
   */
  lemma ReadSurvives(before: seq<Op>, packet: seq<Byte>, after: seq<Op>) returns (j: nat)
    requires IsRead(Run(Initial(), before), packet)
    ensures LastLoad(before, j)
    ensures var t := Next(Run(Initial(), before), DoCommand(packet));
      && |t.queue| == 3
      && t.queue[0][67..312] + t.queue[1][7..302] == before[j].data
      && t.queue[2][16..23] == before[j].data[..3] + before[j].data[4..8]
      && (NeverFlushes(t, after) ==> t.queue <= Committed(t, after) + Run(t, after).queue)
      && (NeverFlushes(t, after) && Commits(after) >= 3 ==> t.queue <= Committed(t, after))
  {
    var s := Run(Initial(), before);
    LoadedExactly(before);
    j :| LastLoad(before, j);
    ReadStays(s, packet, after);
    FoundPollBytes(4, s.tag);
  }
}

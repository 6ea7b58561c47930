/** The packets of the emulated NFC microcontroller, and its state with the queue as a sequence. */
module NfcPackets {
  import opened OctetStrings
  import opened Words
  import opened Crc8

  const SIZE := 313
  const TAG_SIZE := 540

  type Packet = seq<Byte>

  function Zeros(n: nat): (r: seq<Byte>)
    ensures |r| == n
  {
    seq(n, i => 0)
  }

  /** A packet: the body, zeros up to byte 312, and the CRC of all that. */
  function Sealed(body: seq<Byte>): (p: Packet)
    requires |body| < SIZE
    ensures |p| == SIZE && body <= p && p[312] == Crc(p[..312])
    ensures forall i :: |body| <= i < 312 ==> p[i] == 0
  {
    var padded := body + Zeros(312 - |body|);
    assert (padded + [Crc(padded)])[..312] == padded;
    padded + [Crc(padded)]
  }

  ghost predicate IsSealed(p: Packet) {
    |p| == SIZE && p[312] == Crc(p[..312])
  }

  type Tag = s: seq<Byte> | |s| == TAG_SIZE witness Zeros(540)

  function Uid(tag: Tag): (r: seq<Byte>)
    ensures |r| == 7
  {
    tag[..3] + tag[4..8]
  }

  function StatusBody(power: Byte): seq<Byte> {
    if power == 0 then [0xff] else [1, 0, 0, 0, 8, 0, 0x1b, power]
  }

  function PollHeader(poll: Byte): seq<Byte> {
    [0x2a, 0, 5, 0, 0, 9, 0x31, poll]
  }

  function Found(): seq<Byte> {
    [0, 0, 0, 1, 1, 2, 0, 7]
  }

  /** A poll answer without a tag, and one that carries the UID. */
  function EmptyPoll(poll: Byte): seq<Byte> {
    PollHeader(poll)
  }

  function FoundPoll(poll: Byte, tag: Tag): (r: seq<Byte>)
    ensures |r| == 23
  {
    PollHeader(poll) + Found() + Uid(tag)
  }

  function Wire(): seq<Byte> {
    [0x3a, 0x00, 0x07, 0x01, 0x00, 0x01, 0x31, 0x02, 0x00, 0x00, 0x00, 0x01, 0x02, 0x00, 0x07]
  }

  function Meta(): (r: seq<Byte>)
    ensures |r| == 45
  {
    [0, 0, 0, 0, 0x7d, 0xfd, 0xf0, 0x79, 0x36, 0x51, 0xab, 0xd7, 0x46, 0x6e]
    + [0x39, 0xc1, 0x91, 0xba, 0xbe, 0xb8, 0x56, 0xce, 0xed, 0xf1, 0xce, 0x44]
    + [0xcc, 0x75, 0xea, 0xfb, 0x27, 9, 0x4d, 8, 0x7a, 0xe8, 3, 0, 0x3b, 0x3c]
    + [0x77, 0x78, 0x86, 0, 0]
  }

  /** The three packets of a tag read. */
  function First(tag: Tag): (r: seq<Byte>)
    ensures |r| == 312
  {
    Wire() + Uid(tag) + Meta() + tag[..245]
  }

  function SecondHeader(): seq<Byte> {
    [0x3a, 0, 7, 2, 0, 9, 0x27]
  }

  function Second(tag: Tag): (r: seq<Byte>)
    ensures |r| == 302
  {
    SecondHeader() + tag[245..]
  }

  function Third(tag: Tag): seq<Byte> {
    FoundPoll(4, tag)
  }

  function TagRead(tag: Tag): seq<Packet> {
    [Sealed(First(tag)), Sealed(Second(tag)), Sealed(Third(tag))]
  }

  // ----- The state -----

  datatype State = State(tag: Tag, present: bool, seen: bool, power: Byte, poll: Byte, queue: seq<Packet>,
                         received: Word, rejected: Word, lastCmd: Byte, lastSub: Byte)

  function Initial(): State {
    State(Zeros(TAG_SIZE), false, false, 0, 0, [], 0, 0, 0, 0)
  }

  function Flush(s: State): State {
    s.(queue := [])
  }

  /** `reserve` and `finish`: a full queue takes nothing. */
  function Enqueue(s: State, body: seq<Byte>): State
    requires |body| < SIZE
  {
    if |s.queue| >= 4 then s else s.(queue := s.queue + [Sealed(body)])
  }

  function Status(s: State): State {
    Enqueue(s, StatusBody(s.power))
  }

  function Poll(s: State): State {
    if |s.queue| >= 4 then s
    else if s.present && s.poll != 0 then
      var poll := if s.seen then 9 else 1;
      Enqueue(s.(poll := poll, seen := true), FoundPoll(poll, s.tag))
    else
      Enqueue(s, EmptyPoll(s.poll))
  }

  function Reset(s: State): State {
    Flush(s).(power := 0, poll := 0, seen := false, received := 0, rejected := 0, lastCmd := 0, lastSub := 0)
  }

  function Load(s: State, data: seq<Byte>): State {
    if |data| != TAG_SIZE then s
    else
      var t := Flush(s).(tag := data, present := true, seen := false);
      if t.power == 4 && t.poll != 0 then Poll(t.(poll := 1))
      else if t.power != 0 then Status(t)
      else t
  }

  function Unload(s: State): State {
    var t := Flush(s).(tag := Zeros(TAG_SIZE), present := false, seen := false);
    if t.poll == 0 then t
    else if t.power == 4 then Poll(t.(poll := 1))
    else t.(poll := 1)
  }

  function Power(s: State, value: Byte): State {
    if value > 1 then s else Status(Flush(s).(power := value, poll := 0, seen := false))
  }

  predicate AcceptsConfig(args: seq<Byte>) {
    |args| >= 3 && args[2] in {0, 1, 4}
  }

  function Config(s: State, args: seq<Byte>): State {
    if AcceptsConfig(args) && s.power != 0 && args[2] != 0 then
      Status(Flush(s).(power := args[2], poll := 0, seen := false))
    else s
  }

  predicate IsRead(s: State, packet: seq<Byte>) {
    && |packet| >= 25 && packet[0] == 0x11 && packet[10] == 2 && packet[11] == 6
    && s.power == 4 && s.present
    && forall i :: 18 <= i < 25 ==> packet[i] == 0
  }

  predicate Accepts(s: State, packet: seq<Byte>) {
    && |packet| >= 11 && packet[0] == 0x11
    && (|| packet[10] == 1
        || (packet[10] == 2 && |packet| >= 12 && s.power == 4 && packet[11] in {1, 2, 4})
        || IsRead(s, packet))
  }

  /** What an accepted command does. */
  function Perform(s: State, packet: seq<Byte>): State
    requires Accepts(s, packet)
  {
    if packet[10] == 1 then Status(s)
    else if packet[11] == 1 then s.(poll := 1)
    else if packet[11] == 2 then Flush(s).(poll := 0, seen := false)
    else if packet[11] == 4 then Poll(s)
    else s.(queue := TagRead(s.tag))
  }

  function Count(s: State, packet: seq<Byte>): State {
    s.(received := (s.received + 1) % W,
       lastCmd := if |packet| > 10 then packet[10] else 0,
       lastSub := if |packet| > 11 then packet[11] else 0)
  }

  function Command(s: State, packet: seq<Byte>): State {
    var t := Count(s, packet);
    if Accepts(t, packet) then Perform(t, packet) else t.(rejected := (t.rejected + 1) % W)
  }

  function Peek(s: State): Packet {
    if s.queue != [] then s.queue[0] else Sealed([0xff])
  }

  function Commit(s: State): State {
    if s.queue != [] then s.(queue := s.queue[1..]) else s
  }

  // ----- The packets, byte by byte -----

  /** Sealed, with zeros from byte n to the CRC. */
  ghost predicate EndsAt(p: Packet, n: nat) {
    IsSealed(p) && forall i :: n <= i < 312 ==> p[i] == 0
  }

  ghost predicate IsStatus(p: Packet, power: Byte) {
    if power == 0 then EndsAt(p, 1) && p[0] == 0xff
    else EndsAt(p, 8) && p[..8] == [1, 0, 0, 0, 8, 0, 0x1b, power]
  }

  /** uid is empty if no tag was found. */
  ghost predicate IsPoll(p: Packet, poll: Byte, uid: seq<Byte>) {
    && IsSealed(p) && p[..8] == [0x2a, 0, 5, 0, 0, 9, 0x31, poll]
    && if uid == [] then EndsAt(p, 8) else EndsAt(p, 23) && p[8..16] == [0, 0, 0, 1, 1, 2, 0, 7] && p[16..23] == uid
  }

  lemma StatusBytes(power: Byte)
    ensures IsStatus(Sealed(StatusBody(power)), power)
    ensures Sealed(StatusBody(power))[0] == if power == 0 then 0xff else 1
  {
    Starts(Sealed(StatusBody(power)), StatusBody(power));
  }

  lemma EmptyPollBytes(poll: Byte)
    ensures IsPoll(Sealed(EmptyPoll(poll)), poll, [])
    ensures var p := Sealed(EmptyPoll(poll)); p[0] == 0x2a && p[..7] == [0x2a, 0, 5, 0, 0, 9, 0x31] && p[7] == poll
  {
    Starts(Sealed(EmptyPoll(poll)), EmptyPoll(poll));
  }

  lemma FoundPollBytes(poll: Byte, tag: Tag)
    ensures IsPoll(Sealed(FoundPoll(poll, tag)), poll, tag[..3] + tag[4..8])
    ensures var p := Sealed(FoundPoll(poll, tag));
      p[0] == 0x2a && p[..7] == [0x2a, 0, 5, 0, 0, 9, 0x31] && p[7] == poll && p[15] == 7
  {
    var b := FoundPoll(poll, tag);
    Starts(Sealed(b), b);
    assert b[..8] == PollHeader(poll) && b[8..16] == Found() && b[16..23] == Uid(tag);
  }

  // ----- What the operations do, field by field -----

  /** One status packet behind the others, if there is room. */
  ghost predicate AppendsStatus(s: State, t: State) {
    if |s.queue| >= 4 then t == s
    else
      && t == s.(queue := t.queue) && |t.queue| == |s.queue| + 1 && s.queue <= t.queue
      && IsStatus(t.queue[|s.queue|], s.power)
  }

  /** One poll answer behind the others, if there is room: with the UID while a tag is searched for and present. */
  ghost predicate AppendsPoll(s: State, t: State) {
    if |s.queue| >= 4 then t == s
    else
      && t == s.(queue := t.queue, poll := t.poll, seen := t.seen) && |t.queue| == |s.queue| + 1 && s.queue <= t.queue
      && if s.present && s.poll != 0 then
           && t.seen && t.poll == (if s.seen then 9 else 1)
           && IsPoll(t.queue[|s.queue|], t.poll, s.tag[..3] + s.tag[4..8])
         else
           && t.seen == s.seen && t.poll == s.poll && IsPoll(t.queue[|s.queue|], s.poll, [])
  }

  lemma StatusMeans(s: State)
    ensures AppendsStatus(s, Status(s))
  {
    StatusBytes(s.power);
  }

  lemma PollMeans(s: State)
    ensures AppendsPoll(s, Poll(s))
  {
    if s.present && s.poll != 0 {
      FoundPollBytes(if s.seen then 9 else 1, s.tag);
    } else {
      EmptyPollBytes(s.poll);
    }
  }

  lemma FirstBytes(tag: Tag)
    ensures var p := Sealed(First(tag));
      && IsSealed(p) && p[0] == 0x3a && p[3] == 1
      && p[..15] == [0x3a, 0, 7, 1, 0, 1, 0x31, 2, 0, 0, 0, 1, 2, 0, 7]
      && p[15..22] == tag[..3] + tag[4..8]
      && p[22..36] == [0, 0, 0, 0, 0x7d, 0xfd, 0xf0, 0x79, 0x36, 0x51, 0xab, 0xd7, 0x46, 0x6e]
      && p[36..48] == [0x39, 0xc1, 0x91, 0xba, 0xbe, 0xb8, 0x56, 0xce, 0xed, 0xf1, 0xce, 0x44]
      && p[48..62] == [0xcc, 0x75, 0xea, 0xfb, 0x27, 9, 0x4d, 8, 0x7a, 0xe8, 3, 0, 0x3b, 0x3c]
      && p[62..67] == [0x77, 0x78, 0x86, 0, 0]
      && p[67..312] == tag[..245]
  {
    var b, m := First(tag), Meta();
    Starts(Sealed(b), b);
    assert b[..15] == Wire() && b[15..22] == Uid(tag) && b[22..67] == m && b[67..312] == tag[..245];
    assert b[22..36] == m[..14] && b[36..48] == m[14..26] && b[48..62] == m[26..40] && b[62..67] == m[40..];
  }

  lemma SecondBytes(tag: Tag)
    ensures var p := Sealed(Second(tag));
      EndsAt(p, 302) && p[0] == 0x3a && p[3] == 2 && p[..7] == [0x3a, 0, 7, 2, 0, 9, 0x27] && p[7..302] == tag[245..]
  {
    var b := Second(tag);
    Starts(Sealed(b), b);
    assert b[..7] == SecondHeader() && b[7..302] == tag[245..];
  }

  /** Slices of the body are slices of the packet. */
  lemma Starts(p: Packet, body: seq<Byte>)
    requires body <= p
    ensures forall i, j {:trigger p[i..j]} :: 0 <= i <= j <= |body| ==> p[i..j] == body[i..j]
    ensures forall j {:trigger p[..j]} :: 0 <= j <= |body| ==> p[..j] == body[..j]
  {
    assert p[..|body|] == body;
    forall i, j | 0 <= i <= j <= |body| ensures p[i..j] == body[i..j] {
      assert p[i..j] == p[..|body|][i..j];
    }
  }
}

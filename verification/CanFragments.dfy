/** How comm_can_send_buffer cuts a payload into CAN frames. */
module CanFragments {
  import opened MachineWords
  import opened Crc16

  /** RX_BUFFER_SIZE, and the numbers of the buffer commands in CAN_PACKET_ID. */
  const RX_BUFFER_SIZE := 512
  const FILL_RX_BUFFER := 5
  const FILL_RX_BUFFER_LONG := 6
  const PROCESS_RX_BUFFER := 7
  const PROCESS_SHORT_BUFFER := 8

  /** An extended frame. Only the first dlc data bytes mean anything. */
  datatype Frame = Frame(eid: nat, data8: seq<Byte>, dlc: nat)

  type CanFrame = f: Frame | |f.data8| == 8 && f.dlc <= 8 witness Frame(0, [0, 0, 0, 0, 0, 0, 0, 0], 0)

  function Identifier(id: Byte, command: nat): nat {
    id + 256 * command
  }

  function Content(f: CanFrame): seq<Byte> {
    f.data8[..f.dlc]
  }

  ghost predicate Carries(f: CanFrame, id: Byte, command: nat, content: seq<Byte>) {
    f.eid == Identifier(id, command) && Content(f) == content
  }

  // ----- The fragments of a payload -----

  /** Where fragment k starts: 37 fragments of seven bytes, then fragments of six. */
  function Start(k: nat): nat {
    if k <= 37 then 7 * k else 259 + 6 * (k - 37)
  }

  function Finish(data: seq<Byte>, k: nat): nat {
    if Start(k + 1) <= |data| then Start(k + 1) else |data|
  }

  function Piece(data: seq<Byte>, k: nat): seq<Byte>
    requires Start(k) <= |data|
  {
    data[Start(k)..Finish(data, k)]
  }

  /** The offset takes one byte in the short format and two in the long one. */
  function Offset(k: nat): seq<Byte> {
    if k < 37 then [Start(k)] else [Start(k) / 256 % 256, Start(k) % 256]
  }

  ghost predicate IsFragment(f: CanFrame, id: Byte, data: seq<Byte>, k: nat) {
    && Start(k) < |data|
    && Carries(f, id, if k < 37 then FILL_RX_BUFFER else FILL_RX_BUFFER_LONG, Offset(k) + Piece(data, k))
  }

  ghost predicate IsProcess(f: CanFrame, id: Byte, self: Byte, send: Byte, data: seq<Byte>) {
    && f.dlc == 6
    && Carries(f, id, PROCESS_RX_BUFFER,
               [self, send, |data| / 256 % 256, |data| % 256, f.data8[4], f.data8[5]])
    && ChecksumMatches(data, f.data8[4], f.data8[5])
  }

  ghost predicate IsShort(f: CanFrame, id: Byte, self: Byte, send: Byte, data: seq<Byte>) {
    |data| <= 6 && Carries(f, id, PROCESS_SHORT_BUFFER, [self, send] + data)
  }

  /** n fragments cover len bytes, and one fewer does not. */
  predicate Covers(n: nat, len: nat) {
    n > 0 && Start(n - 1) < len <= Start(n)
  }

  ghost predicate AreFragments(frames: seq<CanFrame>, id: Byte, data: seq<Byte>) {
    forall k :: 0 <= k < |frames| ==> IsFragment(frames[k], id, data, k)
  }

  ghost predicate IsMessage(frames: seq<CanFrame>, id: Byte, self: Byte, send: Byte, data: seq<Byte>) {
    && frames != []
    && Covers(|frames| - 1, |data|)
    && AreFragments(frames[..|frames| - 1], id, data)
    && IsProcess(frames[|frames| - 1], id, self, send, data)
  }

  // ----- The fragments partition the payload -----

  lemma StartsIncrease(j: nat, k: nat)
    ensures j < k <==> Start(j) < Start(k)
  {
  }

  function Owner(p: nat): nat {
    if p < 259 then p / 7 else 37 + (p - 259) / 6
  }

  /** Every byte is in exactly one fragment. */
  lemma OwnerIsUnique(p: nat, k: nat)
    ensures Start(k) <= p < Start(k + 1) <==> k == Owner(p)
  {
  }

  function Joined(data: seq<Byte>, n: nat): seq<Byte>
    requires n > 0 ==> Start(n - 1) <= |data|
  {
    if n == 0 then [] else Joined(data, n - 1) + Piece(data, n - 1)
  }

  /** The fragments one after the other are the payload: none overlaps and none is missing. */
  lemma FragmentsPartition(data: seq<Byte>, n: nat)
    requires Covers(n, |data|)
    ensures Joined(data, n) == data
  {
    JoinedPrefix(data, n);
  }

  lemma {:induction false} JoinedPrefix(data: seq<Byte>, n: nat)
    requires n > 0 ==> Start(n - 1) <= |data|
    ensures Joined(data, n) == data[..if n > 0 then Finish(data, n - 1) else 0]
  {
    if n > 0 {
      JoinedPrefix(data, n - 1);
    }
  }

  /** A payload that fits the receiver's buffer needs at most 81 frames. */
  lemma MessageSize(frames: seq<CanFrame>, id: Byte, self: Byte, send: Byte, data: seq<Byte>)
    requires IsMessage(frames, id, self, send, data)
    ensures |data| <= 512 ==> |frames| <= 81
    ensures |frames| <= 81 <==> |data| <= 517
  {
  }

  // ----- The frames in numbers -----

  function Min(a: int, b: int): int {
    if a < b then a else b
  }

  /** Command 8: the sender, the mode, and the payload. */
  lemma ShortInNumbers(f: CanFrame, id: Byte, self: Byte, send: Byte, data: seq<Byte>)
    requires IsShort(f, id, self, send, data)
    ensures f.eid == id + 8 * 256 && f.dlc == |data| + 2
    ensures f.data8[0] == self && f.data8[1] == send && f.data8[2..f.dlc] == data
  {
    var c := Content(f);
    assert f.data8[0] == c[0] && f.data8[1] == c[1] && f.data8[2..f.dlc] == c[2..];
  }

  /** Command 5: one byte of offset and seven bytes of the payload, or what is left of it. */
  lemma FragmentInNumbers(f: CanFrame, id: Byte, data: seq<Byte>, k: nat)
    requires IsFragment(f, id, data, k) && k < 37
    ensures var n := Min(7, |data| - 7 * k);
            && n > 0 && f.eid == id + 5 * 256 && f.dlc == 1 + n
            && f.data8[0] == 7 * k && f.data8[1..1 + n] == data[7 * k..7 * k + n]
  {
    var c := Content(f);
    assert f.data8[0] == c[0] && f.data8[1..f.dlc] == c[1..];
  }

  /** Command 6: two bytes of offset, high one first, and six bytes of the payload. */
  lemma LongFragmentInNumbers(f: CanFrame, id: Byte, data: seq<Byte>, k: nat)
    requires IsFragment(f, id, data, k) && k >= 37
    ensures var i := 259 + 6 * (k - 37);
            var n := Min(6, |data| - i);
            && n > 0 && f.eid == id + 6 * 256 && f.dlc == 2 + n
            && f.data8[0] == i / 256 % 256 && f.data8[1] == i % 256 && f.data8[2..2 + n] == data[i..i + n]
  {
    var c := Content(f);
    assert f.data8[0] == c[0] && f.data8[1] == c[1] && f.data8[2..f.dlc] == c[2..];
  }

  /** Command 7: the sender, the mode, the length and the checksum, high bytes first. */
  lemma ProcessInNumbers(f: CanFrame, id: Byte, self: Byte, send: Byte, data: seq<Byte>)
    requires IsProcess(f, id, self, send, data)
    ensures f.eid == id + 7 * 256 && f.dlc == 6 && f.data8[0] == self && f.data8[1] == send
    ensures f.data8[2] == |data| / 256 % 256 && f.data8[3] == |data| % 256
    ensures Checksum(data) == ByteBits(f.data8[4]) + ByteBits(f.data8[5])
  {
    var c := Content(f);
    assert f.data8[0] == c[0] && f.data8[1] == c[1] && f.data8[2] == c[2] && f.data8[3] == c[3];
  }

  // ----- comm_can_send_buffer -----

  /** The frames that are transmitted, in order. */
  method SendBuffer(self: Byte, id: Byte, data: seq<Byte>, send: Byte) returns (frames: seq<CanFrame>)
    ensures |data| <= 6 ==> |frames| == 1 && IsShort(frames[0], id, self, send, data)
    ensures |data| > 6 ==> IsMessage(frames, id, self, send, data)
  {
    var sendBuffer := new Byte[8](_ => 0);
    if |data| <= 6 {
      sendBuffer[0], sendBuffer[1] := self, send;
      Memcpy(sendBuffer, 2, data, 0, |data|);
      var f := Transmit(Identifier(id, PROCESS_SHORT_BUFFER), sendBuffer, |data| + 2);
      return [f];
    }
    frames := SendFragments(id, data, sendBuffer);
    var f := SendProcess(self, id, data, send, sendBuffer);
    frames := frames + [f];
  }

  method Transmit(eid: nat, sendBuffer: array<Byte>, len: nat) returns (f: CanFrame)
    requires sendBuffer.Length == 8
    ensures f.eid == eid && Content(f) == if len > 8 then sendBuffer[..] else sendBuffer[..len]
    ensures f.data8 == sendBuffer[..]
  {
    var len' := if len > 8 then 8 else len;
    f := Frame(eid, sendBuffer[..], len');
  }

  method Memcpy(sendBuffer: array<Byte>, at: nat, data: seq<Byte>, i: nat, len: nat)
    requires at + len <= sendBuffer.Length && i + len <= |data|
    modifies sendBuffer
    ensures sendBuffer[..at + len] == old(sendBuffer[..at]) + data[i..i + len]
  {
    forall j | 0 <= j < len {
      sendBuffer[at + j] := data[i + j];
    }
  }

  method SendFragment(id: Byte, data: seq<Byte>, i: nat, ghost k: nat, sendBuffer: array<Byte>) returns (f: CanFrame)
    requires sendBuffer.Length == 8 && i == Start(k) < |data| && k < 37
    modifies sendBuffer
    ensures IsFragment(f, id, data, k)
  {
    var sendLen := 7;
    sendBuffer[0] := i % 256;
    if i + 7 > |data| {
      sendLen := |data| - i;
    }
    assert data[i..i + sendLen] == Piece(data, k);
    Memcpy(sendBuffer, 1, data, i, sendLen);
    f := Transmit(Identifier(id, FILL_RX_BUFFER), sendBuffer, sendLen + 1);
  }

  method SendLongFragment(id: Byte, data: seq<Byte>, i: nat, ghost k: nat, sendBuffer: array<Byte>)
    returns (f: CanFrame)
    requires sendBuffer.Length == 8 && i == Start(k) < |data| && k >= 37
    modifies sendBuffer
    ensures IsFragment(f, id, data, k)
  {
    var sendLen := 6;
    sendBuffer[0], sendBuffer[1] := i / 256 % 256, i % 256;
    if i + 6 > |data| {
      sendLen := |data| - i;
    }
    assert data[i..i + sendLen] == Piece(data, k);
    Memcpy(sendBuffer, 2, data, i, sendLen);
    f := Transmit(Identifier(id, FILL_RX_BUFFER_LONG), sendBuffer, sendLen + 2);
  }

  /** The two loops over the payload. */
  method SendFragments(id: Byte, data: seq<Byte>, sendBuffer: array<Byte>) returns (frames: seq<CanFrame>)
    requires sendBuffer.Length == 8 && |data| > 6
    modifies sendBuffer
    ensures Covers(|frames|, |data|) && AreFragments(frames, id, data)
  {
    frames := [];
    var endA := 0;
    var i := 0;
    while i < |data|
      invariant i == endA == Start(|frames|) && |frames| <= 37
      invariant |frames| > 0 ==> Start(|frames| - 1) < |data|
      invariant AreFragments(frames, id, data)
    {
      if i > 255 {
        break;
      }
      endA := i + 7;
      var f := SendFragment(id, data, i, |frames|, sendBuffer);
      frames := frames + [f];
      i := i + 7;
    }
    i := endA;
    while i < |data|
      invariant i == Start(|frames|) && |frames| > 0 && Start(|frames| - 1) < |data|
      invariant |frames| < 37 ==> i >= |data|
      invariant AreFragments(frames, id, data)
    {
      var f := SendLongFragment(id, data, i, |frames|, sendBuffer);
      frames := frames + [f];
      i := i + 6;
    }
  }

  method SendProcess(self: Byte, id: Byte, data: seq<Byte>, send: Byte, sendBuffer: array<Byte>) returns (f: CanFrame)
    requires sendBuffer.Length == 8
    modifies sendBuffer
    ensures IsProcess(f, id, self, send, data)
  {
    var crc := Compute(data);
    ChecksumBytes(crc);
    var high, low := (crc >> 8) as Byte, (crc & 0xFF) as Byte;
    FillProcess(self, send, |data|, high, low, sendBuffer);
    f := Transmit(Identifier(id, PROCESS_RX_BUFFER), sendBuffer, 6);
  }

  method FillProcess(self: Byte, send: Byte, len: nat, high: Byte, low: Byte, sendBuffer: array<Byte>)
    requires sendBuffer.Length == 8
    modifies sendBuffer
    ensures sendBuffer[..6] == [self, send, len / 256 % 256, len % 256, high, low]
  {
    sendBuffer[0], sendBuffer[1] := self, send;
    sendBuffer[2], sendBuffer[3] := len / 256 % 256, len % 256;
    sendBuffer[4], sendBuffer[5] := high, low;
  }
}

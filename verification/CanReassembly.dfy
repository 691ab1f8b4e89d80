/** The buffer commands of decode_msg in comm_can.c: a reassembly buffer filled in any order, and
    handed on if its checksum matches. */
module CanReassembly {
  import opened MachineWords
  import opened Crc16
  import opened CanFragments

  /** What is done with a payload, by the mode byte: a command whose reply goes back to a
      controller, a command without reply, or a payload passed on. */
  datatype Delivery =
    | Handle(payload: seq<Byte>, replyTo: Byte)
    | HandleSilently(payload: seq<Byte>)
    | PassOn(payload: seq<Byte>)

  datatype Decoder = Decoder(buffer: seq<Byte>, lastId: Byte, log: seq<Delivery>)

  type CanDecoder = d: Decoder | |d.buffer| == RX_BUFFER_SIZE
    witness Decoder(seq(RX_BUFFER_SIZE, _ => 0), 0, [])

  /** The configured identifiers of a controller with two motors; they may be equal. */
  datatype Ids = Ids(first: Byte, second: Byte)

  predicate Addressed(f: CanFrame, ids: Ids) {
    var id := f.eid % 256;
    id == 255 || id == ids.first || id == ids.second
  }

  function Command(f: CanFrame): nat {
    f.eid / 256
  }

  function LongOffset(f: CanFrame): nat {
    f.data8[0] as nat * 256 + f.data8[1]
  }

  /** The frames that stay inside the buffer: the long format is checked where it starts only. */
  predicate Fits(f: CanFrame) {
    && (Command(f) == FILL_RX_BUFFER ==> f.dlc >= 1)
    && (Command(f) == FILL_RX_BUFFER_LONG ==>
          f.dlc >= 2 && (LongOffset(f) < RX_BUFFER_SIZE ==> LongOffset(f) + f.dlc - 2 <= RX_BUFFER_SIZE))
    && (Command(f) == PROCESS_SHORT_BUFFER ==> f.dlc >= 2)
  }

  function Written(buffer: seq<Byte>, at: nat, bytes: seq<Byte>): (b: seq<Byte>)
    requires at + |bytes| <= |buffer|
    ensures |b| == |buffer|
  {
    buffer[..at] + bytes + buffer[at + |bytes|..]
  }

  /** COMM_JUMP_TO_BOOTLOADER, COMM_ERASE_NEW_APP, COMM_WRITE_NEW_APP_DATA,
      COMM_WRITE_NEW_APP_DATA_LZO and COMM_ERASE_BOOTLOADER. */
  predicate Restricted(command: Byte) {
    command == 1 || command == 2 || command == 3 || command == 81 || command == 73
  }

  /** A short frame in one of the three modes that is not restricted. */
  predicate HandsOn(f: CanFrame, replaced: bool) {
    !(replaced && Restricted(f.data8[2])) && f.data8[1] <= 2
  }

  /** The frames for which the code is defined: it writes inside the buffer, and hands on no payload of
      negative length. */
  predicate Defined(f: CanFrame, ids: Ids, replaced: bool) {
    Addressed(f, ids) ==>
      && (Command(f) == FILL_RX_BUFFER ==> f.dlc >= 1)
      && (Command(f) == FILL_RX_BUFFER_LONG && LongOffset(f) < RX_BUFFER_SIZE ==>
            f.dlc >= 2 && LongOffset(f) + f.dlc - 2 <= RX_BUFFER_SIZE)
      && (Command(f) == PROCESS_SHORT_BUFFER && HandsOn(f, replaced) ==> f.dlc >= 2)
  }

  function Dispatch(mode: Byte, payload: seq<Byte>, replyTo: Byte): seq<Delivery> {
    if mode == 0 then [Handle(payload, replyTo)]
    else if mode == 1 then [PassOn(payload)]
    else if mode == 2 then [HandleSilently(payload)]
    else []
  }

  function Process(d: CanDecoder, f: CanFrame, replaced: bool): CanDecoder {
    var len := f.data8[2] as nat * 256 + f.data8[3];
    var payload := if len <= RX_BUFFER_SIZE then d.buffer[..len] else [];
    if len > RX_BUFFER_SIZE || !ChecksumMatches(payload, f.data8[4], f.data8[5])
       || (replaced && Restricted(d.buffer[0]))
    then d.(lastId := f.data8[0])
    else d.(lastId := f.data8[0], log := d.log + Dispatch(f.data8[1], payload, f.data8[0]))
  }

  function ProcessShort(d: CanDecoder, f: CanFrame, replaced: bool): CanDecoder
    requires HandsOn(f, replaced) ==> f.dlc >= 2
  {
    if !HandsOn(f, replaced) then d.(lastId := f.data8[0])
    else d.(lastId := f.data8[0], log := d.log + Dispatch(f.data8[1], f.data8[2..f.dlc], f.data8[0]))
  }

  /** One frame, as far as it concerns the reassembly. */
  function Receive(d: CanDecoder, f: CanFrame, ids: Ids, replaced: bool): CanDecoder
    requires Defined(f, ids, replaced)
  {
    if !Addressed(f, ids) then d
    else if Command(f) == FILL_RX_BUFFER then
      d.(buffer := Written(d.buffer, f.data8[0], f.data8[1..f.dlc]))
    else if Command(f) == FILL_RX_BUFFER_LONG then
      if LongOffset(f) < RX_BUFFER_SIZE then d.(buffer := Written(d.buffer, LongOffset(f), f.data8[2..f.dlc])) else d
    else if Command(f) == PROCESS_RX_BUFFER then Process(d, f, replaced)
    else if Command(f) == PROCESS_SHORT_BUFFER then ProcessShort(d, f, replaced)
    else d
  }

  /** Frames for other controllers, and those that stay inside the buffer. */
  predicate Harmless(f: CanFrame, ids: Ids) {
    Addressed(f, ids) ==> Fits(f)
  }

  predicate AllHarmless(frames: seq<CanFrame>, ids: Ids) {
    forall i :: 0 <= i < |frames| ==> Harmless(frames[i], ids)
  }

  /** A frame for another controller does nothing, whatever it says. */
  lemma ForeignIgnored(d: CanDecoder, f: CanFrame, ids: Ids, replaced: bool)
    requires f.eid % 256 != 255 && f.eid % 256 != ids.first && f.eid % 256 != ids.second
    ensures Harmless(f, ids) && Defined(f, ids, replaced) && Receive(d, f, ids, replaced) == d
  {
  }

  function Run(d: CanDecoder, frames: seq<CanFrame>, ids: Ids, replaced: bool): CanDecoder
    requires AllHarmless(frames, ids)
  {
    if frames == [] then d
    else
      var n := |frames| - 1;
      assert Harmless(frames[n], ids);
      Receive(Run(d, frames[..n], ids, replaced), frames[n], ids, replaced)
  }

  // ----- decode_msg -----

  class Can {
    const rxBuffer: array<Byte>
    var rxBufferLastId: Byte
    /** The calls to commands_process_packet and commands_send_packet. */
    var delivered: seq<Delivery>

    ghost predicate Valid() {
      rxBuffer.Length == RX_BUFFER_SIZE
    }

    ghost function View(): CanDecoder
      requires Valid()
      reads this, rxBuffer
    {
      Decoder(rxBuffer[..], rxBufferLastId, delivered)
    }

    constructor ()
      ensures Valid() && View().log == []
    {
      rxBuffer := new Byte[RX_BUFFER_SIZE](_ => 0);
      rxBufferLastId, delivered := 0, [];
    }

    method Copy(at: nat, bytes: seq<Byte>)
      requires Valid() && at + |bytes| <= RX_BUFFER_SIZE
      modifies rxBuffer
      ensures rxBuffer[..] == Written(old(rxBuffer[..]), at, bytes)
    {
      forall j | 0 <= j < |bytes| {
        rxBuffer[at + j] := bytes[j];
      }
    }

    method Hand(mode: Byte, payload: seq<Byte>)
      modifies this`delivered
      ensures delivered == old(delivered) + Dispatch(mode, payload, rxBufferLastId)
    {
      if mode == 0 {
        delivered := delivered + [Handle(payload, rxBufferLastId)];
      } else if mode == 1 {
        delivered := delivered + [PassOn(payload)];
      } else if mode == 2 {
        delivered := delivered + [HandleSilently(payload)];
      }
    }

    method ProcessRxBuffer(f: CanFrame, isReplaced: bool)
      requires Valid()
      modifies this
      ensures View() == Process(old(View()), f, isReplaced)
    {
      rxBufferLastId := f.data8[0];
      var len := f.data8[2] as nat * 256 + f.data8[3];
      if len > RX_BUFFER_SIZE {
        return;
      }
      var matches := CompareChecksum(rxBuffer[..len], f.data8[4], f.data8[5]);
      if matches {
        if isReplaced && Restricted(rxBuffer[0]) {
          return;
        }
        Hand(f.data8[1], rxBuffer[..len]);
      }
    }

    /** decode_msg, or the finding that its behaviour is undefined. */
    method DecodeMsg(f: CanFrame, ids: Ids, isReplaced: bool) returns (defined: bool)
      requires Valid()
      modifies this, rxBuffer
      ensures defined <==> Defined(f, ids, isReplaced)
      ensures defined ==> View() == Receive(old(View()), f, ids, isReplaced)
    {
      defined := true;
      var id, cmd := f.eid % 256, f.eid / 256;
      if id != 255 && id != ids.first && id != ids.second {
        return;
      }
      if cmd == FILL_RX_BUFFER {
        if f.dlc < 1 {
          return false;
        }
        Copy(f.data8[0], f.data8[1..f.dlc]);
      } else if cmd == FILL_RX_BUFFER_LONG {
        var rxbufInd := f.data8[0] as nat * 256 + f.data8[1];
        if rxbufInd < RX_BUFFER_SIZE {
          if f.dlc < 2 || rxbufInd + f.dlc - 2 > RX_BUFFER_SIZE {
            return false;
          }
          Copy(rxbufInd, f.data8[2..f.dlc]);
        }
      } else if cmd == PROCESS_RX_BUFFER {
        ProcessRxBuffer(f, isReplaced);
      } else if cmd == PROCESS_SHORT_BUFFER {
        rxBufferLastId := f.data8[0];
        if isReplaced && Restricted(f.data8[2]) {
          return;
        }
        if f.dlc >= 2 {
          Hand(f.data8[1], f.data8[2..f.dlc]);
        } else if f.data8[1] <= 2 {
          return false;
        }
      }
    }
  }

  // ----- Fragments in any order -----

  /** Fragment k of the payload is in the buffer. */
  predicate Filled(buffer: seq<Byte>, data: seq<Byte>, k: nat)
    requires |data| <= |buffer|
  {
    Start(k) < |data| ==> buffer[Start(k)..Finish(data, k)] == Piece(data, k)
  }

  lemma FragmentFits(f: CanFrame, id: Byte, data: seq<Byte>, k: nat)
    requires IsFragment(f, id, data, k) && |data| <= RX_BUFFER_SIZE
    ensures Fits(f)
    ensures f.eid % 256 == id
  {
    FragmentContent(f, id, data, k);
  }

  lemma FragmentContent(f: CanFrame, id: Byte, data: seq<Byte>, k: nat)
    requires IsFragment(f, id, data, k)
    ensures f.eid % 256 == id
    ensures Command(f) == if k < 37 then FILL_RX_BUFFER else FILL_RX_BUFFER_LONG
    ensures k < 37 ==> f.dlc >= 1 && f.data8[0] == Start(k) && f.data8[1..f.dlc] == Piece(data, k)
    ensures k >= 37 ==> f.dlc >= 2 && LongOffset(f) == Start(k) % 0x10000 && f.data8[2..f.dlc] == Piece(data, k)
  {
    var c := Content(f);
    assert f.data8[0] == c[0];
    if k < 37 {
      assert c[1..] == Piece(data, k) && f.data8[1..f.dlc] == c[1..];
    } else {
      assert f.data8[1] == c[1];
      assert c[2..] == Piece(data, k) && f.data8[2..f.dlc] == c[2..];
    }
  }

  /** Inside the buffer, no offset is truncated, neither to one byte nor to two. */
  lemma FragmentInside(f: CanFrame, id: Byte, data: seq<Byte>, k: nat)
    requires IsFragment(f, id, data, k) && |data| <= RX_BUFFER_SIZE
    ensures k < 37 ==> f.data8[0] == Start(k)
    ensures k >= 37 ==> LongOffset(f) == Start(k) < RX_BUFFER_SIZE
    ensures Start(k) + |Piece(data, k)| <= RX_BUFFER_SIZE
  {
    FragmentContent(f, id, data, k);
    assert Start(k) % 0x10000 == Start(k);
  }

  /** The fragments of a payload stay inside the buffer exactly if the payload does. */
  lemma FragmentsFitExactly(frames: seq<CanFrame>, id: Byte, data: seq<Byte>)
    requires Covers(|frames|, |data|) && AreFragments(frames, id, data)
    ensures (forall k :: 0 <= k < |frames| ==> Fits(frames[k])) <==> |data| <= 512
  {
    if |data| <= RX_BUFFER_SIZE {
      forall k | 0 <= k < |frames| ensures Fits(frames[k]) {
        FragmentFits(frames[k], id, data, k);
      }
    } else {
      assert Start(79) == 511;
      StartsIncrease(|frames| - 1, 79);
      FragmentContent(frames[79], id, data, 79);
      assert !Fits(frames[79]);
    }
  }

  lemma WrittenElsewhere(buffer: seq<Byte>, at: nat, bytes: seq<Byte>, lo: nat, hi: nat)
    requires at + |bytes| <= |buffer| && lo <= hi <= |buffer|
    requires hi <= at || at + |bytes| <= lo
    ensures Written(buffer, at, bytes)[lo..hi] == buffer[lo..hi]
  {
    var b := Written(buffer, at, bytes);
    forall i | lo <= i < hi ensures b[i] == buffer[i] {
    }
  }

  lemma WrittenPiece(buffer: seq<Byte>, data: seq<Byte>, k: nat, j: nat)
    requires |data| <= |buffer| && Start(k) < |data|
    requires j == k || Filled(buffer, data, j)
    ensures Filled(Written(buffer, Start(k), Piece(data, k)), data, j)
  {
    if j != k && Start(j) < |data| {
      StartsIncrease(j, k);
      StartsIncrease(j + 1, k);
      StartsIncrease(k + 1, j);
      WrittenElsewhere(buffer, Start(k), Piece(data, k), Start(j), Finish(data, j));
    }
  }

  /** The buffer holds a payload whose fragments it holds. */
  lemma AllFilled(buffer: seq<Byte>, data: seq<Byte>, n: nat)
    requires |data| <= |buffer| && Covers(n, |data|)
    requires forall k: nat :: k < n ==> Filled(buffer, data, k)
    ensures buffer[..|data|] == data
  {
    forall p | 0 <= p < |data| ensures buffer[p] == data[p] {
      var k := Owner(p);
      OwnerIsUnique(p, k);
      StartsIncrease(n, k);
      StartsIncrease(k, n);
      assert Filled(buffer, data, k);
      assert buffer[Start(k)..Finish(data, k)][p - Start(k)] == Piece(data, k)[p - Start(k)];
    }
  }
}

/** The packet handler of packet.c: framing on the way out, and the receiver that is fed one byte
    at a time, over a buffer that slides. */
module PacketReceiver {
  import opened MachineWords
  import opened Crc16
  import opened Framing
  import opened PacketRuns

  /** A receiver that has delivered `log` and holds `now` will get where one that has delivered
      `log0` and holds `start` will. */
  ghost predicate Progress(start: seq<Byte>, log0: seq<seq<Byte>>, now: seq<Byte>, log: seq<seq<Byte>>) {
    && log0 + Scan(start).payloads == log + Scan(now).payloads
    && Scan(start).rest == Scan(now).rest
  }

  lemma ProgressStep(start: seq<Byte>, log0: seq<seq<Byte>>, now: seq<Byte>, log: seq<seq<Byte>>, v: Verdict)
    requires Progress(start, log0, now, log) && v == Decode(now)
    ensures v.Accept? ==> v.size <= |now| && Progress(start, log0, now[v.size..], log + [v.payload])
    ensures v.Reject? ==> now != [] && Progress(start, log0, now[1..], log)
    ensures v.Wait? ==> log0 + Scan(start).payloads == log && Scan(start).rest == now
  {
    ScanStep(now, v);
    if v.Accept? {
      assert log + ([v.payload] + Scan(now[v.size..]).payloads) == log + [v.payload] + Scan(now[v.size..]).payloads;
    }
  }

  /** The result of try_decode_packet, what it leaves in bytes_left, and what it delivers. */
  predicate Reports(v: Verdict, res: int, bytesLeft: nat, log: seq<seq<Byte>>, log': seq<seq<Byte>>) {
    && (v.Accept? ==> res == v.size && bytesLeft == 0 && log' == log + [v.payload])
    && (v.Reject? ==> res == -1 && bytesLeft == 0 && log' == log)
    && (v.Wait? ==> res == -2 && bytesLeft == v.missing && log' == log)
  }

  function Advanced(readPtr: nat, res: int): int {
    if res > 0 then readPtr + res else if res == -1 then readPtr + 1 else readPtr
  }

  lemma RoundKeeps(start: seq<Byte>, log0: seq<seq<Byte>>, buffer: seq<Byte>, readPtr: nat, writePtr: nat,
                   v: Verdict, res: int, bytesLeft: nat, log: seq<seq<Byte>>, log': seq<seq<Byte>>)
    requires readPtr <= writePtr <= |buffer| && v == Decode(buffer[readPtr..writePtr])
    requires Progress(start, log0, buffer[readPtr..writePtr], log) && Reports(v, res, bytesLeft, log, log')
    ensures readPtr <= Advanced(readPtr, res) <= writePtr
    ensures res > 0 || res == -1 || (res == -2 && v == Wait(bytesLeft))
    ensures Progress(start, log0, buffer[Advanced(readPtr, res)..writePtr], log')
  {
    var now := buffer[readPtr..writePtr];
    ProgressStep(start, log0, now, log, v);
    if res != -2 {
      assert buffer[Advanced(readPtr, res)..writePtr] == now[Advanced(readPtr, res) - readPtr..];
    }
  }

  lemma FrameBuilt(sent: seq<Byte>, data: seq<Byte>, high: Byte, low: Byte)
    requires 1 <= |data| <= MAX_PAYLOAD && ChecksumMatches(data, high, low)
    requires sent == Header(|data|) + data + [high, low, 3]
    ensures IsFrame(sent, data) && InNumbers(sent, data)
  {
    assert sent[|sent| - 3] == high && sent[|sent| - 2] == low;
    FrameInNumbers(sent, data);
  }

  class Handler {
    const rxBuffer: array<Byte>
    const txBuffer: array<Byte>
    var rxTimeout: nat
    var rxReadPtr: nat
    var rxWritePtr: nat
    var bytesLeft: nat
    /** The payloads that process_func was called with. */
    var delivered: seq<seq<Byte>>

    /** The buffer never holds more than a frame less one byte, and `bytesLeft` is what the
        decoder is waiting for. */
    ghost predicate Valid()
      reads this, rxBuffer
    {
      && rxBuffer.Length == BUFFER_LEN
      && txBuffer.Length == BUFFER_LEN && txBuffer != rxBuffer
      && rxReadPtr <= rxWritePtr <= BUFFER_LEN
      && Decode(Unread()).Wait?
      && bytesLeft <= Decode(Unread()).missing
      && (Unread() != [] ==> bytesLeft == Decode(Unread()).missing)
      && (Unread() == [] ==> rxReadPtr == 0)
    }

    ghost function Unread(): seq<Byte>
      requires rxBuffer.Length == BUFFER_LEN && rxReadPtr <= rxWritePtr <= BUFFER_LEN
      reads this, rxBuffer
    {
      rxBuffer[..][rxReadPtr..rxWritePtr]
    }

    ghost function State(): Receiver
      requires rxBuffer.Length == BUFFER_LEN && rxReadPtr <= rxWritePtr <= BUFFER_LEN
      reads this, rxBuffer
    {
      Receiver(Unread(), rxTimeout, delivered)
    }

    /** Unread bytes and those still awaited make at most one frame, so the buffer never runs
        full; and an empty buffer is read and written from its start. */
    lemma Bounded()
      requires Valid()
      ensures |Unread()| + bytesLeft <= MAX_FRAME && |Unread()| < MAX_FRAME < BUFFER_LEN
      ensures Unread() == [] ==> rxReadPtr == 0 && rxWritePtr == 0
    {
      DecodeBounds(Unread());
    }

    /** packet_init. */
    constructor ()
      ensures Valid() && State() == INITIAL
    {
      rxBuffer := new Byte[BUFFER_LEN](_ => 0);
      txBuffer := new Byte[BUFFER_LEN](_ => 0);
      rxTimeout, rxReadPtr, rxWritePtr, bytesLeft, delivered := 0, 0, 0, 0, [];
    }

    method WriteHeader(len: nat) returns (bInd: nat)
      requires Valid() && 1 <= len <= MAX_PAYLOAD
      modifies txBuffer
      ensures bInd == |Header(len)| && txBuffer[..bInd] == Header(len)
    {
      if len <= 255 {
        txBuffer[0], txBuffer[1] := 2, len;
        bInd := 2;
      } else {
        txBuffer[0], txBuffer[1], txBuffer[2] := 3, len / 256, len % 256;
        bInd := 3;
      }
    }

    method WritePayload(bInd: nat, data: seq<Byte>)
      requires txBuffer.Length == BUFFER_LEN && bInd + |data| <= BUFFER_LEN
      modifies txBuffer
      ensures txBuffer[..bInd + |data|] == old(txBuffer[..bInd]) + data
    {
      forall i | 0 <= i < |data| {
        txBuffer[bInd + i] := data[i];
      }
    }

    method WriteTrailer(bInd: nat, data: seq<Byte>) returns (high: Byte, low: Byte)
      requires txBuffer.Length == BUFFER_LEN && bInd + 3 <= BUFFER_LEN
      modifies txBuffer
      ensures txBuffer[..bInd + 3] == old(txBuffer[..bInd]) + [high, low, 3]
      ensures ChecksumMatches(data, high, low)
    {
      var crc := Crc16.Compute(data);
      ChecksumBytes(crc);
      high, low := (crc >> 8) as Byte, (crc & 0xFF) as Byte;
      Trailer(bInd, high, low);
    }

    method Trailer(bInd: nat, high: Byte, low: Byte)
      requires txBuffer.Length == BUFFER_LEN && bInd + 3 <= BUFFER_LEN
      modifies txBuffer
      ensures txBuffer[..bInd + 3] == old(txBuffer[..bInd]) + [high, low, 3]
    {
      txBuffer[bInd], txBuffer[bInd + 1], txBuffer[bInd + 2] := high, low, 3;
    }

    /** packet_send_packet: the bytes handed to send_func, or none for a payload it refuses. */
    method SendPacket(data: seq<Byte>) returns (sent: seq<Byte>)
      requires Valid()
      modifies txBuffer
      ensures Valid() && State() == old(State())
      ensures 1 <= |data| <= 512 ==> IsFrame(sent, data) && InNumbers(sent, data)
      ensures !(1 <= |data| <= 512) ==> sent == []
    {
      if |data| == 0 || |data| > MAX_PAYLOAD {
        return [];
      }
      var bInd := WriteHeader(|data|);
      WritePayload(bInd, data);
      bInd := bInd + |data|;
      var high, low := WriteTrailer(bInd, data);
      sent := txBuffer[..bInd + 3];
      FrameBuilt(sent, data, high, low);
    }

    /** packet_reset. */
    method Reset()
      requires rxBuffer.Length == txBuffer.Length == BUFFER_LEN && txBuffer != rxBuffer
      modifies this`rxReadPtr, this`rxWritePtr, this`bytesLeft
      ensures Valid() && Unread() == []
    {
      rxReadPtr, rxWritePtr, bytesLeft := 0, 0, 0;
    }

    /** packet_timerfunc, for this handler. */
    method Tick()
      requires Valid()
      modifies this`rxTimeout, this`rxReadPtr, this`rxWritePtr, this`bytesLeft
      ensures Valid()
      ensures State() == Next(old(State()), Event.Tick)
    {
      if rxTimeout > 0 {
        rxTimeout := rxTimeout - 1;
      } else {
        Reset();
      }
    }

    /** try_decode_packet on the first n unread bytes. The result is a frame's size, -1 or -2. */
    method TryDecode(n: nat, ghost v: Verdict) returns (res: int)
      requires rxBuffer.Length == BUFFER_LEN && rxReadPtr + n <= BUFFER_LEN
      requires v == Decode(rxBuffer[..][rxReadPtr..rxReadPtr + n])
      modifies this`bytesLeft, this`delivered
      ensures Reports(v, res, bytesLeft, old(delivered), delivered)
    {
      var buffer := rxBuffer[..][rxReadPtr..rxReadPtr + n];
      bytesLeft := 0;
      if n == 0 {
        bytesLeft := 1;
        return -2;
      }
      var isLen8b, isLen16b := buffer[0] == 2, buffer[0] == 3;
      var dataStart: nat := buffer[0];
      if !isLen8b && !isLen16b {
        return -1;
      }
      if n < dataStart {
        bytesLeft := dataStart - n;
        return -2;
      }
      var len: nat;
      if isLen8b {
        len := buffer[1];
        if len < 1 {
          return -1;
        }
      } else {
        len := buffer[1] as nat * 256 + buffer[2] as nat;
        if len < 255 {
          return -1;
        }
      }
      if len > MAX_PAYLOAD {
        return -1;
      }
      if n < len + dataStart + 3 {
        bytesLeft := len + dataStart + 3 - n;
        return -2;
      }
      if buffer[dataStart + len + 2] != 3 {
        return -1;
      }
      var payload := buffer[dataStart..dataStart + len];
      var matches := CompareChecksum(payload, buffer[dataStart + len], buffer[dataStart + len + 1]);
      if matches {
        delivered := delivered + [payload];
        return len + dataStart + 3;
      }
      return -1;
    }

    /** One round of the retry loop. */
    method DecodeOnce(n: nat, ghost start: seq<Byte>, ghost log0: seq<seq<Byte>>) returns (res: int)
      requires rxBuffer.Length == BUFFER_LEN && rxReadPtr <= rxWritePtr <= BUFFER_LEN && n == rxWritePtr - rxReadPtr
      requires Progress(start, log0, Unread(), delivered)
      modifies this`rxReadPtr, this`bytesLeft, this`delivered
      ensures rxReadPtr == Advanced(old(rxReadPtr), res) <= rxWritePtr
      ensures Progress(start, log0, Unread(), delivered)
      ensures res > 0 || res == -1 || (res == -2 && Decode(Unread()) == Wait(bytesLeft))
    {
      ghost var v, log := Decode(Unread()), delivered;
      res := TryDecode(n, v);
      RoundKeeps(start, log0, rxBuffer[..], rxReadPtr, rxWritePtr, v, res, bytesLeft, log, delivered);
      if res > 0 {
        rxReadPtr := rxReadPtr + res;
      } else if res == -1 {
        rxReadPtr := rxReadPtr + 1;
      }
    }

    /** The retry loop of packet_process_byte. */
    method DecodeAll()
      requires rxBuffer.Length == txBuffer.Length == BUFFER_LEN && txBuffer != rxBuffer
      requires rxReadPtr <= rxWritePtr <= BUFFER_LEN
      modifies this`rxReadPtr, this`rxWritePtr, this`bytesLeft, this`delivered
      ensures Valid()
      ensures Unread() == Scan(old(Unread())).rest
      ensures delivered == old(delivered) + Scan(old(Unread())).payloads
    {
      ghost var start, log0 := Unread(), delivered;
      var dataLen := rxWritePtr - rxReadPtr;
      while true
        invariant rxReadPtr <= rxWritePtr == old(rxWritePtr) && dataLen == rxWritePtr - rxReadPtr
        invariant Progress(start, log0, Unread(), delivered)
        decreases dataLen
      {
        var res := DecodeOnce(dataLen, start, log0);
        if res == -2 {
          break;
        }
        dataLen := dataLen - if res > 0 then res else 1;
      }
      ScanStep(Unread(), Decode(Unread()));
      if dataLen == 0 {
        rxReadPtr, rxWritePtr := 0, 0;
      }
    }

    /** Shifts the unread bytes to the start if there is no space behind them, and stores one more. */
    method Store(rxData: Byte)
      requires rxBuffer.Length == BUFFER_LEN && rxReadPtr <= rxWritePtr <= BUFFER_LEN
      requires rxWritePtr - rxReadPtr < BUFFER_LEN
      modifies this`rxReadPtr, this`rxWritePtr, rxBuffer
      ensures rxReadPtr <= rxWritePtr <= BUFFER_LEN && Unread() == old(Unread()) + [rxData]
    {
      var dataLen := rxWritePtr - rxReadPtr;
      if rxWritePtr >= BUFFER_LEN {
        forall i | 0 <= i < dataLen {
          rxBuffer[i] := rxBuffer[rxReadPtr + i];
        }
        rxReadPtr, rxWritePtr := 0, dataLen;
      }
      rxBuffer[rxWritePtr] := rxData;
      rxWritePtr := rxWritePtr + 1;
    }

    /** packet_process_byte: one step of the receiver that scans the unread bytes and the new one. */
    method ProcessByte(rxData: Byte)
      requires Valid()
      modifies this, rxBuffer
      ensures Valid() && State() == Next(old(State()), Received(rxData))
    {
      ghost var before := Unread();
      Bounded();
      rxTimeout := RX_TIMEOUT;
      var dataLen := rxWritePtr - rxReadPtr;
      if dataLen >= BUFFER_LEN {
        assert false;
      }
      Store(rxData);
      if bytesLeft > 1 {
        StillWaiting(before, rxData);
        bytesLeft := bytesLeft - 1;
        return;
      }
      DecodeAll();
    }
  }

  /** What makes it safe to skip the decoder: it would still be waiting. */
  lemma StillWaiting(s: seq<Byte>, b: Byte)
    requires Decode(s).Wait? && Decode(s).missing > 1
    ensures Decode(s + [b]) == Wait(Decode(s).missing - 1)
    ensures Scan(s + [b]) == Scanned([], s + [b])
  {
    DecodeExtends(s, [b]);
    ScanStep(s + [b], Decode(s + [b]));
  }
}

/** From comm_can_send_buffer to decode_msg: what is sent is what is handed on. */
module CanDelivery {
  import opened MachineWords
  import opened Crc16
  import opened CanFragments
  import opened CanReassembly

  ghost predicate Present(frames: seq<CanFrame>, id: Byte, data: seq<Byte>, k: nat) {
    exists i :: 0 <= i < |frames| && IsFragment(frames[i], id, data, k)
  }

  ghost predicate SomeFragment(f: CanFrame, id: Byte, data: seq<Byte>) {
    exists k: nat :: IsFragment(f, id, data, k)
  }

  /** The identifier of another controller. */
  predicate Foreign(id: nat, ids: Ids) {
    id != 255 && id != ids.first && id != ids.second
  }

  predicate LeavesBuffer(f: CanFrame) {
    Command(f) != FILL_RX_BUFFER && Command(f) != FILL_RX_BUFFER_LONG
  }

  ghost predicate Expected(f: CanFrame, ids: Ids, id: Byte, data: seq<Byte>) {
    Foreign(f.eid % 256, ids) || (Fits(f) && (SomeFragment(f, id, data) || LeavesBuffer(f)))
  }

  /** A receiver of a payload sees its fragments, in any order and any number of times, among any
      frames for other controllers and commands that do not fill the buffer. */
  ghost predicate Traffic(frames: seq<CanFrame>, ids: Ids, id: Byte, data: seq<Byte>) {
    forall i :: 0 <= i < |frames| ==> Expected(frames[i], ids, id, data)
  }

  /** The identifier is that of one motor or of all, and the payload fits the buffer. */
  predicate Accepts(ids: Ids, id: Byte, data: seq<Byte>) {
    |data| <= RX_BUFFER_SIZE && (id == 255 || id == ids.first || id == ids.second)
  }

  lemma Fills(d: CanDecoder, f: CanFrame, ids: Ids, replaced: bool, at: nat, piece: seq<Byte>)
    requires Fits(f) && Addressed(f, ids) && at + |piece| <= RX_BUFFER_SIZE
    requires || (Command(f) == FILL_RX_BUFFER && at == f.data8[0] && piece == f.data8[1..f.dlc])
             || (Command(f) == FILL_RX_BUFFER_LONG && at == LongOffset(f) < RX_BUFFER_SIZE
                 && piece == f.data8[2..f.dlc])
    ensures Receive(d, f, ids, replaced) == d.(buffer := Written(d.buffer, at, piece))
  {
  }

  lemma FragmentWritten(d: CanDecoder, f: CanFrame, ids: Ids, replaced: bool, id: Byte, data: seq<Byte>, k: nat)
    requires Accepts(ids, id, data) && IsFragment(f, id, data, k)
    ensures Fits(f) && Receive(d, f, ids, replaced) == d.(buffer := Written(d.buffer, Start(k), Piece(data, k)))
  {
    FragmentContent(f, id, data, k);
    FragmentInside(f, id, data, k);
    FragmentFits(f, id, data, k);
    Fills(d, f, ids, replaced, Start(k), Piece(data, k));
  }

  /** Receiving fragment k puts it into the buffer, and takes no other one out. */
  lemma FragmentReceived(d: CanDecoder, f: CanFrame, ids: Ids, replaced: bool, id: Byte, data: seq<Byte>,
                         k: nat, j: nat)
    requires Accepts(ids, id, data) && IsFragment(f, id, data, k)
    requires j == k || Filled(d.buffer, data, j)
    ensures Fits(f) && Filled(Receive(d, f, ids, replaced).buffer, data, j)
    ensures Receive(d, f, ids, replaced).log == d.log
  {
    FragmentWritten(d, f, ids, replaced, id, data, k);
    WrittenPiece(d.buffer, data, k, j);
  }

  lemma TrafficKeeps(d: CanDecoder, f: CanFrame, ids: Ids, replaced: bool, id: Byte, data: seq<Byte>, j: nat)
    requires Accepts(ids, id, data) && Expected(f, ids, id, data) && Filled(d.buffer, data, j)
    ensures Filled(Receive(d, f, ids, replaced).buffer, data, j)
  {
    if SomeFragment(f, id, data) {
      var k: nat :| IsFragment(f, id, data, k);
      FragmentReceived(d, f, ids, replaced, id, data, k, j);
    }
  }

  lemma TrafficPrefix(frames: seq<CanFrame>, n: nat, ids: Ids, id: Byte, data: seq<Byte>)
    requires n < |frames| && Traffic(frames, ids, id, data)
    ensures Traffic(frames[..n], ids, id, data) && Expected(frames[n], ids, id, data)
  {
  }

  /** One more frame: a fragment that was there stays there, and one that comes is there. */
  lemma FilledStep(d: CanDecoder, f: CanFrame, ids: Ids, replaced: bool, id: Byte, data: seq<Byte>, k: nat)
    requires Accepts(ids, id, data) && Expected(f, ids, id, data)
    requires Filled(d.buffer, data, k) || IsFragment(f, id, data, k)
    ensures Filled(Receive(d, f, ids, replaced).buffer, data, k)
  {
    if IsFragment(f, id, data, k) {
      FragmentReceived(d, f, ids, replaced, id, data, k, k);
    } else {
      TrafficKeeps(d, f, ids, replaced, id, data, k);
    }
  }

  lemma TrafficFits(frames: seq<CanFrame>, n: nat, ids: Ids, id: Byte, data: seq<Byte>)
    requires n <= |frames| && Traffic(frames, ids, id, data)
    ensures AllHarmless(frames[..n], ids)
  {
  }

  /** Fragment k is in the buffer once n of the frames have come. */
  ghost predicate Collected(d: CanDecoder, frames: seq<CanFrame>, ids: Ids, replaced: bool,
                            id: Byte, data: seq<Byte>, k: nat, n: nat)
    requires Accepts(ids, id, data) && Traffic(frames, ids, id, data) && n <= |frames|
  {
    TrafficFits(frames, n, ids, id, data);
    Filled(Run(d, frames[..n], ids, replaced).buffer, data, k)
  }

  lemma CollectedStep(d: CanDecoder, frames: seq<CanFrame>, ids: Ids, replaced: bool,
                      id: Byte, data: seq<Byte>, k: nat, n: nat)
    requires Accepts(ids, id, data) && Traffic(frames, ids, id, data) && n < |frames|
    requires Collected(d, frames, ids, replaced, id, data, k, n) || IsFragment(frames[n], id, data, k)
    ensures Collected(d, frames, ids, replaced, id, data, k, n + 1)
  {
    var more := frames[..n + 1];
    assert more[..n] == frames[..n] && more[n] == frames[n];
    TrafficPrefix(frames, n, ids, id, data);
    FilledStep(Run(d, frames[..n], ids, replaced), frames[n], ids, replaced, id, data, k);
  }

  lemma {:induction false} CollectedKept(d: CanDecoder, frames: seq<CanFrame>, ids: Ids, replaced: bool,
                                         id: Byte, data: seq<Byte>, k: nat, j: nat, n: nat)
    requires Accepts(ids, id, data) && Traffic(frames, ids, id, data) && j <= n <= |frames|
    requires Collected(d, frames, ids, replaced, id, data, k, j)
    ensures Collected(d, frames, ids, replaced, id, data, k, n)
  {
    if j < n {
      CollectedKept(d, frames, ids, replaced, id, data, k, j, n - 1);
      CollectedStep(d, frames, ids, replaced, id, data, k, n - 1);
    }
  }

  /** Once a fragment has come, it is in the buffer. */
  lemma FilledAfter(d: CanDecoder, frames: seq<CanFrame>, ids: Ids, replaced: bool,
                    id: Byte, data: seq<Byte>, k: nat, i: nat)
    requires Accepts(ids, id, data) && Traffic(frames, ids, id, data)
    requires i < |frames| && IsFragment(frames[i], id, data, k)
    ensures Filled(Run(d, frames, ids, replaced).buffer, data, k)
  {
    CollectedStep(d, frames, ids, replaced, id, data, k, i);
    CollectedKept(d, frames, ids, replaced, id, data, k, i + 1, |frames|);
    assert frames[..|frames|] == frames;
  }

  lemma ProcessContent(p: CanFrame, id: Byte, self: Byte, send: Byte, data: seq<Byte>)
    requires IsProcess(p, id, self, send, data) && |data| <= RX_BUFFER_SIZE
    ensures p.eid % 256 == id && Command(p) == PROCESS_RX_BUFFER
    ensures p.data8[0] == self && p.data8[1] == send && p.data8[2] as nat * 256 + p.data8[3] == |data|
  {
    var c := Content(p);
    assert p.data8[0] == c[0] && p.data8[1] == c[1] && p.data8[2] == c[2] && p.data8[3] == c[3];
  }

  /** A process frame hands on what has the payload's checksum. */
  lemma ProcessReceived(d: CanDecoder, p: CanFrame, ids: Ids, replaced: bool,
                        id: Byte, self: Byte, send: Byte, data: seq<Byte>)
    requires Accepts(ids, id, data) && IsProcess(p, id, self, send, data)
    ensures Fits(p)
    ensures var e, payload := Receive(d, p, ids, replaced), d.buffer[..|data|];
            && e.buffer == d.buffer
            && e.log == if Checksum(payload) == Checksum(data) && !(replaced && Restricted(d.buffer[0]))
                        then d.log + Dispatch(send, payload, self) else d.log
  {
    ProcessContent(p, id, self, send, data);
  }

  /** However the fragments arrive, and whatever the buffer held before, the process frame hands on
      exactly the payload. */
  lemma PayloadDelivered(d: CanDecoder, frames: seq<CanFrame>, p: CanFrame, ids: Ids, replaced: bool,
                         id: Byte, self: Byte, send: Byte, data: seq<Byte>, n: nat)
    requires |data| > 6 && Accepts(ids, id, data) && Traffic(frames, ids, id, data)
    requires Covers(n, |data|) && forall k: nat :: k < n ==> Present(frames, id, data, k)
    requires IsProcess(p, id, self, send, data)
    ensures Fits(p)
    ensures var before := Run(d, frames, ids, replaced);
            Receive(before, p, ids, replaced).log ==
            before.log + if replaced && Restricted(data[0]) then [] else Dispatch(send, data, self)
  {
    var before := Run(d, frames, ids, replaced);
    forall k: nat | k < n ensures Filled(before.buffer, data, k) {
      assert Present(frames, id, data, k);
      var i :| 0 <= i < |frames| && IsFragment(frames[i], id, data, k);
      FilledAfter(d, frames, ids, replaced, id, data, k, i);
    }
    AllFilled(before.buffer, data, n);
    assert before.buffer[0] == data[0];
    ProcessReceived(before, p, ids, replaced, id, self, send, data);
  }

  /** A payload damaged inside sixteen consecutive bits or in an odd number of bits, by a frame lost or
      overtaken or otherwise, is never handed on. */
  lemma DamagedIsDropped(d: CanDecoder, p: CanFrame, ids: Ids, replaced: bool,
                         id: Byte, self: Byte, send: Byte, data: seq<Byte>)
    requires Accepts(ids, id, data) && IsProcess(p, id, self, send, data)
    requires Damaged(d.buffer[..|data|], data)
    ensures Fits(p) && Receive(d, p, ids, replaced).log == d.log
  {
    DamageDetected(d.buffer[..|data|], data);
    ProcessReceived(d, p, ids, replaced, id, self, send, data);
  }

  /** A payload longer than the buffer is not handed on, whatever the buffer holds. */
  lemma OverlongIsDropped(d: CanDecoder, p: CanFrame, ids: Ids, replaced: bool,
                          id: Byte, self: Byte, send: Byte, data: seq<Byte>)
    requires IsProcess(p, id, self, send, data) && 512 < |data| < 0x1_0000
    ensures Fits(p)
    ensures var e := Receive(d, p, ids, replaced); e.log == d.log && e.buffer == d.buffer
  {
    var c := Content(p);
    assert p.data8[2] == c[2] && p.data8[3] == c[3];
    assert p.data8[2] as nat * 256 + p.data8[3] == |data|;
  }

  // ----- Whole conversations -----

  lemma {:induction false} FragmentsDeliverNothing(d: CanDecoder, frames: seq<CanFrame>, ids: Ids, replaced: bool,
                                                   id: Byte, data: seq<Byte>)
    requires Accepts(ids, id, data) && Traffic(frames, ids, id, data)
    requires forall i :: 0 <= i < |frames| ==> SomeFragment(frames[i], id, data)
    ensures Run(d, frames, ids, replaced).log == d.log
  {
    if frames != [] {
      var n := |frames| - 1;
      FragmentsDeliverNothing(d, frames[..n], ids, replaced, id, data);
      assert SomeFragment(frames[n], id, data);
      var k: nat :| IsFragment(frames[n], id, data, k);
      FragmentReceived(Run(d, frames[..n], ids, replaced), frames[n], ids, replaced, id, data, k, k);
    }
  }

  lemma {:induction false} RunAppend(d: CanDecoder, a: seq<CanFrame>, b: seq<CanFrame>, ids: Ids, replaced: bool)
    requires AllHarmless(a, ids) && AllHarmless(b, ids)
    ensures Run(d, a + b, ids, replaced) == Run(Run(d, a, ids, replaced), b, ids, replaced)
    decreases |b|
  {
    if b == [] {
      assert a + b == a;
    } else {
      var n := |b| - 1;
      assert (a + b)[..|a| + n] == a + b[..n];
      RunAppend(d, a, b[..n], ids, replaced);
    }
  }

  /** One call of comm_can_send_buffer, by the controller `self`, for the controller `to`. */
  datatype Call = Call(to: Byte, self: Byte, send: Byte, data: seq<Byte>)

  ghost predicate Transmits(frames: seq<CanFrame>, c: Call) {
    if |c.data| <= 6 then |frames| == 1 && IsShort(frames[0], c.to, c.self, c.send, c.data)
    else IsMessage(frames, c.to, c.self, c.send, c.data)
  }

  /** A call for this controller is delivered, and one for another is not. */
  function Outcome(c: Call, ids: Ids): seq<Delivery> {
    if c.to == 255 || c.to == ids.first || c.to == ids.second then Dispatch(c.send, c.data, c.self) else []
  }

  /** Calls for this controller are no longer than its buffer. */
  predicate Deliverable(c: Call, ids: Ids) {
    Foreign(c.to, ids) || Accepts(ids, c.to, c.data)
  }

  lemma TransmittedHarmless(frames: seq<CanFrame>, ids: Ids, c: Call)
    requires Transmits(frames, c) && Accepts(ids, c.to, c.data)
    ensures Traffic(frames, ids, c.to, c.data)
  {
    var n := |frames| - 1;
    forall i | 0 <= i < |frames|
      ensures Expected(frames[i], ids, c.to, c.data)
    {
      if i < n {
        assert IsFragment(frames[..n][i], c.to, c.data, i);
        FragmentFits(frames[i], c.to, c.data, i);
      }
    }
  }

  /** A short payload arrives in one frame; a command that may not be executed locally is judged by
      the byte behind the mode, even if the payload is empty. */
  lemma ShortDelivered(d: CanDecoder, f: CanFrame, ids: Ids, replaced: bool, c: Call)
    requires IsShort(f, c.to, c.self, c.send, c.data) && Accepts(ids, c.to, c.data)
    ensures c.data != [] ==> f.data8[2] == c.data[0]
    ensures Fits(f)
    ensures Receive(d, f, ids, replaced).log ==
            d.log + if replaced && Restricted(f.data8[2]) then [] else Outcome(c, ids)
  {
    var content := Content(f);
    assert f.data8[0] == content[0] && f.data8[1] == content[1];
    assert f.data8[2..f.dlc] == content[2..] == c.data;
  }

  /** The fragments of a call and its process frame. */
  lemma LongDelivered(d: CanDecoder, fills: seq<CanFrame>, p: CanFrame, ids: Ids, c: Call)
    requires |c.data| > 6 && Accepts(ids, c.to, c.data)
    requires Covers(|fills|, |c.data|) && AreFragments(fills, c.to, c.data)
    requires IsProcess(p, c.to, c.self, c.send, c.data)
    ensures Fits(p) && Traffic(fills, ids, c.to, c.data)
    ensures Receive(Run(d, fills, ids, false), p, ids, false).log == d.log + Outcome(c, ids)
  {
    var n := |fills|;
    forall k: nat | k < n
      ensures Present(fills, c.to, c.data, k) && SomeFragment(fills[k], c.to, c.data) && Fits(fills[k])
    {
      assert IsFragment(fills[k], c.to, c.data, k);
      FragmentFits(fills[k], c.to, c.data, k);
    }
    FragmentsDeliverNothing(d, fills, ids, false, c.to, c.data);
    PayloadDelivered(d, fills, p, ids, false, c.to, c.self, c.send, c.data, n);
  }

  /** Every call is one delivery to the controller that it addresses. */
  lemma CallDelivered(d: CanDecoder, frames: seq<CanFrame>, ids: Ids, c: Call)
    requires Transmits(frames, c) && Accepts(ids, c.to, c.data)
    ensures Traffic(frames, ids, c.to, c.data)
    ensures Run(d, frames, ids, false).log == d.log + Outcome(c, ids)
  {
    TransmittedHarmless(frames, ids, c);
    var n := |frames| - 1;
    if |c.data| <= 6 {
      assert frames[..n] == [];
      ShortDelivered(d, frames[n], ids, false, c);
    } else {
      LongDelivered(d, frames[..n], frames[n], ids, c);
    }
  }

  // ----- Calls for other controllers -----

  lemma TransmittedTo(frames: seq<CanFrame>, c: Call, i: nat)
    requires Transmits(frames, c) && i < |frames|
    ensures frames[i].eid % 256 == c.to
  {
    var n := |frames| - 1;
    if |c.data| > 6 && i < n {
      assert IsFragment(frames[..n][i], c.to, c.data, i);
    }
  }

  /** Frames for other controllers leave buffer and deliveries alone. */
  lemma {:induction false} ForeignRun(d: CanDecoder, frames: seq<CanFrame>, ids: Ids, replaced: bool)
    requires forall i :: 0 <= i < |frames| ==> Foreign(frames[i].eid % 256, ids)
    ensures AllHarmless(frames, ids) && Run(d, frames, ids, replaced) == d
  {
    if frames != [] {
      var n := |frames| - 1;
      ForeignRun(d, frames[..n], ids, replaced);
      ForeignIgnored(d, frames[n], ids, replaced);
    }
  }

  /** A call for another controller, of any length. */
  lemma CallElsewhere(d: CanDecoder, frames: seq<CanFrame>, ids: Ids, replaced: bool, c: Call)
    requires Transmits(frames, c) && Foreign(c.to, ids)
    ensures AllHarmless(frames, ids) && Run(d, frames, ids, replaced) == d
  {
    forall i | 0 <= i < |frames| ensures Foreign(frames[i].eid % 256, ids) {
      TransmittedTo(frames, c, i);
    }
    ForeignRun(d, frames, ids, replaced);
  }

  lemma CallDecoded(d: CanDecoder, frames: seq<CanFrame>, ids: Ids, c: Call)
    requires Transmits(frames, c) && Deliverable(c, ids)
    ensures AllHarmless(frames, ids)
    ensures Run(d, frames, ids, false).log == d.log + Outcome(c, ids)
  {
    if Foreign(c.to, ids) {
      CallElsewhere(d, frames, ids, false, c);
    } else {
      CallDelivered(d, frames, ids, c);
    }
  }

  function Outcomes(calls: seq<Call>, ids: Ids): seq<Delivery> {
    if calls == [] then [] else Outcomes(calls[..|calls| - 1], ids) + Outcome(calls[|calls| - 1], ids)
  }

  function Frames(messages: seq<seq<CanFrame>>): seq<CanFrame> {
    if messages == [] then [] else Frames(messages[..|messages| - 1]) + messages[|messages| - 1]
  }

  lemma OneCall(message: seq<CanFrame>, c: Call, ids: Ids)
    ensures Frames([message]) == message && Outcomes([c], ids) == Outcome(c, ids)
  {
    var messages, calls := [message], [c];
    assert messages[..0] == [] && calls[..0] == [];
    assert Frames(messages[..0]) == [] && Outcomes(calls[..0], ids) == [];
  }

  /** Of all the calls made on the bus, one after the other, those for this controller are delivered
      to it in order, each exactly once, and no others. */
  lemma {:induction false} ConversationDelivered(d: CanDecoder, calls: seq<Call>, messages: seq<seq<CanFrame>>,
                                                 ids: Ids)
    requires |messages| == |calls|
    requires forall i :: 0 <= i < |calls| ==> Transmits(messages[i], calls[i]) && Deliverable(calls[i], ids)
    ensures AllHarmless(Frames(messages), ids)
    ensures Run(d, Frames(messages), ids, false).log == d.log + Outcomes(calls, ids)
  {
    if calls != [] {
      var n := |calls| - 1;
      ConversationDelivered(d, calls[..n], messages[..n], ids);
      var before := Run(d, Frames(messages[..n]), ids, false);
      CallDecoded(before, messages[n], ids, calls[n]);
      RunAppend(d, Frames(messages[..n]), messages[n], ids, false);
    }
  }
}

/** Runs of the serial receiver: bytes and timer calls in any order. */
module PacketRuns {
  import opened MachineWords
  import opened Framing

  /** PACKET_RX_TIMEOUT, in calls of packet_timerfunc. */
  const RX_TIMEOUT := 1000

  datatype Event = Received(b: Byte) | Tick

  datatype Receiver = Receiver(unread: seq<Byte>, timeout: nat, delivered: seq<seq<Byte>>)

  const INITIAL := Receiver([], 0, [])

  function Next(r: Receiver, e: Event): Receiver {
    if e == Tick then
      if r.timeout > 0 then r.(timeout := r.timeout - 1) else r.(unread := [])
    else
      var scanned := Scan(r.unread + [e.b]);
      Receiver(scanned.rest, RX_TIMEOUT, r.delivered + scanned.payloads)
  }

  function Run(r: Receiver, events: seq<Event>): Receiver
    decreases |events|
  {
    if events == [] then r else Run(Next(r, events[0]), events[1..])
  }

  function BytesOf(events: seq<Event>): seq<Byte>
    decreases |events|
  {
    if events == [] then []
    else (if events[0].Received? then [events[0].b] else []) + BytesOf(events[1..])
  }

  /** No RX_TIMEOUT + 1 timer calls in a row, counting those before the first event. */
  predicate Patient(events: seq<Event>, quiet: nat)
    decreases |events|
  {
    events == [] ||
    if events[0] == Tick then quiet < RX_TIMEOUT && Patient(events[1..], quiet + 1)
    else Patient(events[1..], 0)
  }

  /** r' is what r becomes by scanning its unread bytes and then those. */
  ghost predicate Scans(r: Receiver, bytes: seq<Byte>, r': Receiver) {
    && r'.unread == Scan(r.unread + bytes).rest
    && r'.delivered == r.delivered + Scan(r.unread + bytes).payloads
  }

  lemma ScansByte(r: Receiver, b: Byte, bytes: seq<Byte>, r': Receiver)
    requires Scans(Next(r, Received(b)), bytes, r')
    ensures Scans(r, [b] + bytes, r')
  {
    var first := r.unread + [b];
    assert r.unread + ([b] + bytes) == first + bytes;
    ScanAppend(first, bytes);
    var more := Scan(Scan(first).rest + bytes).payloads;
    assert r.delivered + (Scan(first).payloads + more) == r.delivered + Scan(first).payloads + more;
  }

  lemma NextWaits(r: Receiver, b: Byte)
    ensures Decode(Next(r, Received(b)).unread).Wait?
  {
    ScanRest(r.unread + [b]);
  }

  lemma {:induction false} PatientRun(r: Receiver, events: seq<Event>, quiet: nat)
    requires Decode(r.unread).Wait?
    requires Patient(events, quiet) && (r.unread == [] || r.timeout + quiet >= RX_TIMEOUT)
    ensures Scans(r, BytesOf(events), Run(r, events))
    decreases |events|
  {
    if events == [] {
      assert r.unread + [] == r.unread;
      ScanStep(r.unread, Decode(r.unread));
    } else if events[0] == Tick {
      PatientRun(Next(r, Tick), events[1..], quiet + 1);
      assert BytesOf(events) == BytesOf(events[1..]);
    } else {
      var b := events[0].b;
      NextWaits(r, b);
      PatientRun(Next(r, Received(b)), events[1..], 0);
      ScansByte(r, b, BytesOf(events[1..]), Run(r, events));
    }
  }

  /** Receiver refinement: however the bytes are spread over time, as long as the timeout does not
      strike, the payloads delivered are those of one scan over the whole stream. */
  lemma ReceiverScans(events: seq<Event>)
    requires Patient(events, 0)
    ensures Run(INITIAL, events).delivered == Scan(BytesOf(events)).payloads
    ensures Run(INITIAL, events).unread == Scan(BytesOf(events)).rest
  {
    PatientRun(INITIAL, events, 0);
    assert [] + BytesOf(events) == BytesOf(events);
  }

  /** Stream round trip: any list of frames is delivered as exactly their payloads, in order, with
      nothing left in the buffer. */
  lemma StreamRoundTrip(frames: seq<seq<Byte>>, payloads: seq<seq<Byte>>, events: seq<Event>)
    requires |frames| == |payloads|
    requires forall i :: 0 <= i < |frames| ==> IsFrame(frames[i], payloads[i])
    requires Patient(events, 0) && BytesOf(events) == Concat(frames)
    ensures Run(INITIAL, events).delivered == payloads
    ensures Run(INITIAL, events).unread == []
  {
    ReceiverScans(events);
    FramesScan(frames, payloads);
  }

  /** Resynchronisation: once MAX_FRAME bytes beyond the garbage have arrived, the first payload
      delivered is that of the frame behind it. */
  lemma Resynchronisation(garbage: seq<Byte>, frame: seq<Byte>, payload: seq<Byte>, tail: seq<Byte>, events: seq<Event>)
    requires IsFrame(frame, payload)
    requires forall k :: 0 <= k < |garbage| ==> !Decode((garbage + frame + tail)[k..]).Accept?
    requires Patient(events, 0) && BytesOf(events) <= garbage + frame + tail
    requires |garbage| + MAX_FRAME <= |BytesOf(events)|
    ensures Run(INITIAL, events).delivered != [] && Run(INITIAL, events).delivered[0] == payload
  {
    var n := |BytesOf(events)|;
    assert BytesOf(events) == (garbage + frame + tail)[..n];
    ReceiverScans(events);
    Resynchronises(garbage, frame, payload, tail, n);
  }

  /** The timeout: RX_TIMEOUT + 1 timer calls in a row drop an unfinished frame. */
  lemma {:induction false} SilenceResets(r: Receiver, n: nat)
    requires n > r.timeout
    ensures Run(r, seq(n, _ => Tick)) == Receiver([], 0, r.delivered)
    decreases n
  {
    var ticks := seq(n, _ => Tick);
    assert ticks[1..] == seq(n - 1, _ => Tick);
    if n > 1 {
      SilenceResets(Next(r, Tick), n - 1);
    }
  }

  /** In numbers: these bytes, received without a pause of more than a second, deliver the payload. */
  lemma FrameDelivered(f: seq<Byte>, payload: seq<Byte>, events: seq<Event>)
    requires 1 <= |payload| <= 512 && InNumbers(f, payload)
    requires Patient(events, 0) && BytesOf(events) == f
    ensures Run(INITIAL, events).delivered == [payload] && Run(INITIAL, events).unread == []
  {
    FrameInNumbers(f, payload);
    var frames := [f];
    assert Concat(frames[1..]) == [];
    assert Concat(frames) == f + Concat(frames[1..]) == f;
    StreamRoundTrip(frames, [payload], events);
  }

  /** After a byte, a pause of 1000 timer calls changes nothing but the timer, and one more drops the
      unread bytes. */
  lemma {:induction false} PauseInNumbers(r: Receiver, n: nat)
    requires r.timeout <= 1000
    ensures Run(r, seq(n, _ => Tick)).delivered == r.delivered
    ensures Run(r, seq(n, _ => Tick)).unread == if n <= r.timeout then r.unread else []
    ensures forall b :: Next(r, Received(b)).timeout == 1000
    decreases n
  {
    var ticks := seq(n, _ => Tick);
    if n > 0 {
      assert ticks[1..] == seq(n - 1, _ => Tick);
      PauseInNumbers(Next(r, Tick), n - 1);
    }
  }
}

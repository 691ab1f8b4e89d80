/** Calls all the way: sent by comm_can_send_buffer, stored by the read thread, decoded by the
    process thread. */
module CanLink {
  import opened CanFragments
  import opened CanReassembly
  import opened CanDelivery
  import Threads = CanFrameRing

  /** What decode_msg makes of the frames that the process thread has copied. */
  function Decoded(d: CanDecoder, t: Threads.Threads, ids: Ids): CanDecoder
    requires AllHarmless(t.copied, ids)
  {
    Run(d, t.copied, ids, false)
  }

  /** What decode_msg will have made of the frames copied so far and of those still under way. */
  function Eventually(d: CanDecoder, t: Threads.Threads, ids: Ids): CanDecoder
    requires t.Valid() && AllHarmless(t.All(), ids)
  {
    Run(d, t.All(), ids, false)
  }

  /** The frames of these calls, for this controller or for others, arrive in this order. */
  ghost predicate Conversation(steps: seq<Threads.Step>, messages: seq<seq<CanFrame>>, calls: seq<Call>, ids: Ids) {
    && |messages| == |calls| && Threads.Arrivals(steps) == Frames(messages)
    && forall i :: 0 <= i < |calls| ==> Transmits(messages[i], calls[i]) && Deliverable(calls[i], ids)
  }

  /** The frames of the calls behind any others. */
  lemma ConversationBehind(d: CanDecoder, before: seq<CanFrame>, messages: seq<seq<CanFrame>>, calls: seq<Call>,
                           ids: Ids)
    requires AllHarmless(before, ids) && |messages| == |calls|
    requires forall i :: 0 <= i < |calls| ==> Transmits(messages[i], calls[i]) && Deliverable(calls[i], ids)
    ensures AllHarmless(before + Frames(messages), ids)
    ensures Run(d, before + Frames(messages), ids, false).log == Run(d, before, ids, false).log + Outcomes(calls, ids)
  {
    ConversationDelivered(Run(d, before, ids, false), calls, messages, ids);
    RunAppend(d, before, Frames(messages), ids, false);
  }

  lemma DrainedAll(t: Threads.Threads)
    requires t.Valid() && Threads.Drained(t)
    ensures t.All() == t.copied
  {
  }

  /** However the arrival of any list of calls is interleaved with their processing, as long as the
      ring is never full: at every moment the frames copied and those under way amount to what was
      delivered before and then the payload of every call for this controller, in order and once each.
      When the ring has been emptied, all of it has been handed on. */
  lemma ConversationThroughRing(d: CanDecoder, t: Threads.Threads, steps: seq<Threads.Step>,
                                messages: seq<seq<CanFrame>>, calls: seq<Call>, ids: Ids)
    requires t.Valid() && Threads.Behind(t) && AllHarmless(t.All(), ids) && Threads.NeverFull(t, steps)
    requires Conversation(steps, messages, calls, ids)
    ensures var u := Threads.Run(t, steps);
            && AllHarmless(u.All(), ids)
            && Eventually(d, u, ids).log == Eventually(d, t, ids).log + Outcomes(calls, ids)
            && (Threads.Drained(u) ==> u.copied == u.All() && Decoded(d, u, ids) == Eventually(d, u, ids))
  {
    Threads.FramesInOrder(t, steps);
    ConversationBehind(d, t.All(), messages, calls, ids);
    var u := Threads.Run(t, steps);
    if Threads.Drained(u) {
      DrainedAll(u);
    }
  }

  /** And the process thread empties the ring on its own. */
  lemma ConversationArrives(d: CanDecoder, t: Threads.Threads, steps: seq<Threads.Step>,
                            messages: seq<seq<CanFrame>>, calls: seq<Call>, ids: Ids)
    returns (n: nat)
    requires t.Valid() && Threads.Behind(t) && AllHarmless(t.All(), ids) && Threads.NeverFull(t, steps)
    requires Conversation(steps, messages, calls, ids)
    ensures var u := Threads.Run(t, steps + Threads.Proceeds(n));
            && AllHarmless(u.copied, ids) && Decoded(d, u, ids).log == Eventually(d, t, ids).log + Outcomes(calls, ids)
  {
    n := Threads.DrainsAfter(t, steps);
    Threads.ProceedsKeepRoom(t, steps, n);
    ConversationThroughRing(d, t, steps + Threads.Proceeds(n), messages, calls, ids);
  }

  /** The frames of one call never fill the ring. */
  lemma MessageArrives(d: CanDecoder, t: Threads.Threads, steps: seq<Threads.Step>, ids: Ids, c: Call)
    returns (n: nat)
    requires t.Valid() && Threads.Drained(t) && AllHarmless(t.copied, ids)
    requires Transmits(Threads.Arrivals(steps), c) && |c.data| <= 512
    ensures var u := Threads.Run(t, steps + Threads.Proceeds(n));
            && AllHarmless(u.copied, ids) && Decoded(d, u, ids).log == Decoded(d, t, ids).log + Outcome(c, ids)
  {
    var frames := Threads.Arrivals(steps);
    if |c.data| > 6 {
      MessageSize(frames, c.to, c.self, c.send, c.data);
    }
    Threads.RoomForBurst(t, steps);
    assert t.All() == t.copied;
    OneCall(frames, c, ids);
    n := ConversationArrives(d, t, steps, [frames], [c], ids);
  }
}

/** The ring of received frames in comm_can.c: written by the read thread, read by the process
    thread, which takes the address of a slot first and copies the frame later. */
module CanFrameRing {
  import opened CanFragments

  /** RX_FRAMES_SIZE. */
  const RX_FRAMES_SIZE := 100

  datatype Ring = Ring(frames: seq<CanFrame>, read: nat, write: nat) {
    predicate Valid() {
      |frames| == RX_FRAMES_SIZE && read < RX_FRAMES_SIZE && write < RX_FRAMES_SIZE
    }

    function Count(): nat
      requires Valid()
    {
      (write - read + RX_FRAMES_SIZE) % RX_FRAMES_SIZE
    }

    /** The unread frames, oldest first. */
    function Unread(): (q: seq<CanFrame>)
      requires Valid()
      ensures |q| == Count()
    {
      seq(Count(), i requires 0 <= i < Count() => frames[(read + i) % RX_FRAMES_SIZE])
    }

    function Put(f: CanFrame): (r: Ring)
      requires Valid()
      ensures r.Valid()
    {
      Ring(frames[write := f], read, if write + 1 == RX_FRAMES_SIZE then 0 else write + 1)
    }

    function Take(): (r: Ring)
      requires Valid()
      ensures r.Valid()
    {
      if read == write then this
      else this.(read := if read + 1 == RX_FRAMES_SIZE then 0 else read + 1)
    }
  }

  /** The two critical sections. */
  class FrameRing {
    const rxFrames: array<CanFrame>
    var rxFrameRead: nat
    var rxFrameWrite: nat

    ghost predicate Valid()
      reads this, rxFrames
    {
      View().Valid()
    }

    ghost function View(): Ring
      reads this, rxFrames
    {
      Ring(rxFrames[..], rxFrameRead, rxFrameWrite)
    }

    constructor (fill: CanFrame)
      ensures Valid() && View().Unread() == []
    {
      rxFrames := new CanFrame[RX_FRAMES_SIZE](_ => fill);
      rxFrameRead, rxFrameWrite := 0, 0;
    }

    /** In cancom_read_thread, for a frame that canReceive has delivered. */
    method Put(rxmsg: CanFrame)
      requires Valid()
      modifies this`rxFrameWrite, rxFrames
      ensures View() == old(View()).Put(rxmsg)
    {
      rxFrames[rxFrameWrite] := rxmsg;
      rxFrameWrite := rxFrameWrite + 1;
      if rxFrameWrite == RX_FRAMES_SIZE {
        rxFrameWrite := 0;
      }
    }

    /** comm_can_get_rx_frame: the index of the slot, or none. */
    method Get() returns (slot: int)
      requires Valid()
      modifies this`rxFrameRead
      ensures View() == old(View()).Take()
      ensures slot == if old(View()).Unread() == [] then -1 else old(rxFrameRead)
      ensures slot >= 0 ==> slot < RX_FRAMES_SIZE
    {
      if rxFrameRead != rxFrameWrite {
        slot := rxFrameRead;
        rxFrameRead := rxFrameRead + 1;
        if rxFrameRead == RX_FRAMES_SIZE {
          rxFrameRead := 0;
        }
      } else {
        slot := -1;
      }
    }
  }

  // ----- One operation on the ring -----

  /** A frame is appended to the queue exactly if fewer than 99 are unread. Otherwise the ring
      comes out empty, and all of them are lost. */
  lemma PutAppends(r: Ring, f: CanFrame)
    requires r.Valid()
    ensures r.Put(f).Unread() == r.Unread() + [f] <==> r.Count() < 99
    ensures r.Count() == 99 ==> r.Put(f).Unread() == []
  {
    var p := r.Put(f);
    if r.Count() < 99 {
      assert p.Count() == r.Count() + 1;
      forall i | 0 <= i < p.Count() ensures p.Unread()[i] == (r.Unread() + [f])[i] {
      }
    } else {
      assert p.Count() == 0;
    }
  }

  lemma TakeCounts(r: Ring)
    requires r.Valid() && r.read != r.write
    ensures r.Take().Count() == r.Count() - 1
  {
  }

  lemma TakenAt(r: Ring, i: nat)
    requires r.Valid() && r.read != r.write
    ensures (r.Take().read + i) % RX_FRAMES_SIZE == (r.read + i + 1) % RX_FRAMES_SIZE
  {
  }

  lemma TakeRemoves(r: Ring)
    requires r.Valid()
    ensures r.Unread() == [] <==> r.read == r.write
    ensures r.Unread() != [] ==> r.Unread()[0] == r.frames[r.read] && r.Take().Unread() == r.Unread()[1..]
  {
    if r.read != r.write {
      var t := r.Take();
      TakeCounts(r);
      forall i: nat | i < t.Count() ensures t.Unread()[i] == r.Unread()[i + 1] {
        TakenAt(r, i);
      }
    }
  }

  // ----- Both threads -----

  /** The two threads in any interleaving: the read thread stores an arrived frame; the process
      thread takes a slot if it has none, and otherwise copies the frame out of the slot. */
  datatype Step = Arrive(f: CanFrame) | Proceed

  /** `taken` is the slot whose address the process thread holds, or -1. */
  datatype Threads = Threads(ring: Ring, taken: int, copied: seq<CanFrame>) {
    predicate Valid() {
      ring.Valid() && -1 <= taken < RX_FRAMES_SIZE
    }

    function Next(s: Step): (t: Threads)
      requires Valid()
      ensures t.Valid()
    {
      match s
      case Arrive(f) => this.(ring := ring.Put(f))
      case Proceed =>
        if taken >= 0 then this.(taken := -1, copied := copied + [ring.frames[taken]])
        else this.(ring := ring.Take(), taken := if ring.read == ring.write then -1 else ring.read)
    }

    /** Copied frames, the frame that is being copied, and the unread ones. */
    function All(): seq<CanFrame>
      requires Valid()
    {
      copied + (if taken >= 0 then [ring.frames[taken]] else []) + ring.Unread()
    }
  }

  function Run(t: Threads, steps: seq<Step>): (u: Threads)
    requires t.Valid()
    ensures u.Valid()
  {
    if steps == [] then t else Run(t, steps[..|steps| - 1]).Next(steps[|steps| - 1])
  }

  function Arrivals(steps: seq<Step>): seq<CanFrame> {
    if steps == [] then []
    else
      var s := steps[|steps| - 1];
      Arrivals(steps[..|steps| - 1]) + if s.Arrive? then [s.f] else []
  }

  /** Never more than 99 unread frames: every arrival finds fewer than that. */
  predicate NeverFull(t: Threads, steps: seq<Step>)
    requires t.Valid()
  {
    steps == [] ||
    var before := steps[..|steps| - 1];
    && NeverFull(t, before)
    && (steps[|steps| - 1].Arrive? ==> Run(t, before).ring.Count() < 99)
  }

  /** The slot that is being copied lies just behind the unread ones. */
  predicate Behind(t: Threads)
    requires t.Valid()
  {
    t.taken >= 0 ==> (t.taken + 1) % RX_FRAMES_SIZE == t.ring.read
  }

  lemma ArriveKeeps(t: Threads, f: CanFrame)
    requires t.Valid() && Behind(t) && t.ring.Count() < 99
    ensures Behind(t.Next(Arrive(f)))
    ensures t.taken >= 0 ==> t.Next(Arrive(f)).ring.frames[t.taken] == t.ring.frames[t.taken]
    ensures t.Next(Arrive(f)).All() == t.All() + [f]
  {
    var u := t.Next(Arrive(f));
    assert t.taken >= 0 ==> t.taken != t.ring.write;
    PutAppends(t.ring, f);
    assert u.ring.Unread() == t.ring.Unread() + [f];
  }

  lemma ProceedKeeps(t: Threads)
    requires t.Valid() && Behind(t)
    ensures Behind(t.Next(Proceed)) && t.Next(Proceed).All() == t.All()
  {
    if t.taken < 0 {
      TakeRemoves(t.ring);
    }
  }

  lemma StepKeeps(t: Threads, s: Step)
    requires t.Valid() && Behind(t)
    requires s.Arrive? ==> t.ring.Count() < 99
    ensures Behind(t.Next(s))
    ensures t.Next(s).All() == t.All() + if s.Arrive? then [s.f] else []
    ensures s.Arrive? && t.taken >= 0 ==> t.Next(s).ring.frames[t.taken] == t.ring.frames[t.taken]
  {
    if s.Arrive? {
      ArriveKeeps(t, s.f);
    } else {
      ProceedKeeps(t);
    }
  }

  /** An overflow loses frames, and no step ever brings one back. */
  lemma StepLoses(t: Threads, s: Step)
    requires t.Valid()
    ensures |t.Next(s).All()| <= |t.All()| + if s.Arrive? then 1 else 0
    ensures s.Arrive? && t.ring.Count() == 99 ==> |t.Next(s).All()| < |t.All()|
  {
    if s.Arrive? {
      PutAppends(t.ring, s.f);
    } else if t.taken < 0 {
      TakeRemoves(t.ring);
    }
  }

  lemma {:induction false} RunLoses(t: Threads, steps: seq<Step>)
    requires t.Valid()
    ensures |Run(t, steps).All()| <= |t.All()| + |Arrivals(steps)|
    ensures !NeverFull(t, steps) ==> |Run(t, steps).All()| < |t.All()| + |Arrivals(steps)|
  {
    if steps != [] {
      var before := steps[..|steps| - 1];
      RunLoses(t, before);
      StepLoses(Run(t, before), steps[|steps| - 1]);
    }
  }

  lemma {:induction false} RunKeeps(t: Threads, steps: seq<Step>)
    requires t.Valid() && Behind(t) && NeverFull(t, steps)
    ensures Behind(Run(t, steps))
    ensures Run(t, steps).All() == t.All() + Arrivals(steps)
  {
    if steps != [] {
      var before := steps[..|steps| - 1];
      RunKeeps(t, before);
      StepKeeps(Run(t, before), steps[|steps| - 1]);
    }
  }

  /** In every interleaving, frames come out in the order of arrival with none lost or overwritten
      while it is copied, exactly if never more than 99 are unread. */
  lemma FramesInOrder(t: Threads, steps: seq<Step>)
    requires t.Valid() && Behind(t)
    ensures Run(t, steps).All() == t.All() + Arrivals(steps) <==> NeverFull(t, steps)
  {
    RunLoses(t, steps);
    if NeverFull(t, steps) {
      RunKeeps(t, steps);
    }
  }

  /** No interleaving fills the ring if no more frames arrive than it has room for. */
  lemma {:induction false} RoomForBurst(t: Threads, steps: seq<Step>)
    requires t.Valid() && Behind(t) && t.ring.Count() + |Arrivals(steps)| <= 99
    ensures NeverFull(t, steps)
    ensures Run(t, steps).ring.Count() <= t.ring.Count() + |Arrivals(steps)|
  {
    if steps != [] {
      var before, s := steps[..|steps| - 1], steps[|steps| - 1];
      RoomForBurst(t, before);
      var u := Run(t, before);
      if s.Arrive? {
        PutAppends(u.ring, s.f);
      } else {
        TakeRemoves(u.ring);
      }
    }
  }

  function Proceeds(n: nat): (steps: seq<Step>)
    ensures |steps| == n
  {
    seq(n, _ => Proceed)
  }

  predicate Drained(t: Threads)
    requires t.Valid()
  {
    t.taken == -1 && t.ring.Unread() == []
  }

  lemma {:induction false} RunAppend(t: Threads, a: seq<Step>, b: seq<Step>)
    requires t.Valid()
    ensures Run(t, a + b) == Run(Run(t, a), b)
    ensures Arrivals(a + b) == Arrivals(a) + Arrivals(b)
    decreases |b|
  {
    if b == [] {
      assert a + b == a;
    } else {
      var n := |b| - 1;
      assert (a + b)[..|a| + n] == a + b[..n];
      RunAppend(t, a, b[..n]);
    }
  }

  lemma {:induction false} NothingArrives(n: nat)
    ensures Arrivals(Proceeds(n)) == []
  {
    if n > 0 {
      NothingArrives(n - 1);
      assert Proceeds(n)[..n - 1] == Proceeds(n - 1);
    }
  }

  /** Two steps of the process thread for every unread frame, and one for a frame already taken,
      empty the ring. */
  lemma {:induction false} Drains(t: Threads)
    requires t.Valid()
    ensures Drained(Run(t, Proceeds(2 * t.ring.Count() + if t.taken >= 0 then 1 else 0)))
    decreases 2 * t.ring.Count() + if t.taken >= 0 then 1 else 0
  {
    var n := 2 * t.ring.Count() + if t.taken >= 0 then 1 else 0;
    TakeRemoves(t.ring);
    if n > 0 {
      var u := t.Next(Proceed);
      assert Run(t, [Proceed]) == u by {
        assert [Proceed][..0] == [];
      }
      assert n - 1 == 2 * u.ring.Count() + if u.taken >= 0 then 1 else 0;
      Drains(u);
      RunAppend(t, [Proceed], Proceeds(n - 1));
      assert [Proceed] + Proceeds(n - 1) == Proceeds(n);
    }
  }

  lemma DrainsAfter(t: Threads, steps: seq<Step>) returns (n: nat)
    requires t.Valid()
    ensures Drained(Run(t, steps + Proceeds(n))) && Arrivals(steps + Proceeds(n)) == Arrivals(steps)
  {
    var u := Run(t, steps);
    n := 2 * u.ring.Count() + if u.taken >= 0 then 1 else 0;
    Drains(u);
    RunAppend(t, steps, Proceeds(n));
    NothingArrives(n);
  }

  lemma {:induction false} ProceedsKeepRoom(t: Threads, steps: seq<Step>, n: nat)
    requires t.Valid() && NeverFull(t, steps)
    ensures NeverFull(t, steps + Proceeds(n))
  {
    if n == 0 {
      assert steps + Proceeds(0) == steps;
    } else {
      ProceedsKeepRoom(t, steps, n - 1);
      assert (steps + Proceeds(n))[..|steps| + n - 1] == steps + Proceeds(n - 1);
    }
  }
}

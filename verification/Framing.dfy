/** The serial frame format of packet.c and a scanner for it over a whole stream. */
module Framing {
  import opened MachineWords
  import opened Crc16

  /** PACKET_MAX_PL_LEN, and BUFFER_LEN of packet.c. */
  const MAX_PAYLOAD := 512
  const BUFFER_LEN := 520

  /** The longest frame: start byte, two length bytes, payload, checksum, stop byte. */
  const MAX_FRAME := 518

  // ----- Frames -----

  function Header(n: nat): (h: seq<Byte>)
    requires 1 <= n <= MAX_PAYLOAD
    ensures |h| == if n <= 255 then 2 else 3
  {
    if n <= 255 then [2, n] else [3, n / 256, n % 256]
  }

  ghost predicate Encloses(f: seq<Byte>, header: seq<Byte>, payload: seq<Byte>) {
    && |f| >= 3
    && f == header + payload + [f[|f| - 3], f[|f| - 2], 3]
    && ChecksumMatches(payload, f[|f| - 3], f[|f| - 2])
  }

  /** What packet_send_packet sends for that payload. */
  ghost predicate IsFrame(f: seq<Byte>, payload: seq<Byte>) {
    1 <= |payload| <= MAX_PAYLOAD && Encloses(f, Header(|payload|), payload)
  }

  // ----- try_decode_packet -----

  datatype Verdict =
    | Accept(size: nat, payload: seq<Byte>)
    | Reject
    | Wait(missing: nat)

  /** The payload length that the bytes after the start byte announce. */
  function AnnouncedLength(s: seq<Byte>): nat
    requires |s| >= 3 || (|s| == 2 && s[0] == 2)
  {
    if s[0] == 2 then s[1] as nat else s[1] as nat * 256 + s[2]
  }

  function Decode(s: seq<Byte>): (v: Verdict) {
    if s == [] then Wait(1)
    else if s[0] != 2 && s[0] != 3 then Reject
    else
      var start := if s[0] == 2 then 2 else 3;
      if |s| < start then Wait(start - |s|)
      else
        var len := AnnouncedLength(s);
        if len < (if start == 2 then 1 else 255) || len > MAX_PAYLOAD then Reject
        else if |s| < len + start + 3 then Wait(len + start + 3 - |s|)
        else if s[start + len + 2] != 3 then Reject
        else if ChecksumMatches(s[start..start + len], s[start + len], s[start + len + 1])
          then Accept(len + start + 3, s[start..start + len])
        else Reject
  }

  lemma DecodeBounds(s: seq<Byte>)
    ensures Decode(s).Wait? ==> 1 <= Decode(s).missing && |s| + Decode(s).missing <= MAX_FRAME
    ensures Decode(s).Accept? ==> 5 < Decode(s).size <= |s|
    ensures Decode(s).Reject? ==> s != []
  {
  }

  /** A verdict is final, and a decoder that waits for n bytes learns nothing from fewer. */
  lemma DecodeExtends(s: seq<Byte>, t: seq<Byte>)
    ensures !Decode(s).Wait? ==> Decode(s + t) == Decode(s)
    ensures Decode(s).Wait? && |t| < Decode(s).missing ==> Decode(s + t) == Wait(Decode(s).missing - |t|)
  {
    if s == [] {
      assert s + t == t;
    } else if s[0] == 2 || s[0] == 3 {
      var start := if s[0] == 2 then 2 else 3;
      if start <= |s| {
        var len := AnnouncedLength(s);
        assert AnnouncedLength(s + t) == len;
        if len + start + 3 <= |s| {
          assert (s + t)[start..start + len] == s[start..start + len];
        }
      }
    }
  }

  /** A frame is accepted, whatever follows it. */
  lemma FrameDecodes(f: seq<Byte>, payload: seq<Byte>, t: seq<Byte>)
    requires IsFrame(f, payload)
    ensures Decode(f + t) == Accept(|f|, payload)
  {
    var n := |payload|;
    var h := Header(n);
    assert f[..|h|] == h;
    assert f[|h|..|h| + n] == payload;
    assert f[0] == h[0] && f[1] == h[1];
    assert AnnouncedLength(f) == n;
    DecodeExtends(f, t);
  }

  /** The header with two length bytes, for a length that a single byte can hold. */
  const LONG_HEADER_OF_255: seq<Byte> := [3, 0, 255]

  /** Nothing is accepted but frames as they are sent, and payloads of 255 bytes with the long
      header, which the sender never uses for them. */
  lemma AcceptedExactly(s: seq<Byte>, n: nat, payload: seq<Byte>)
    ensures Decode(s) == Accept(n, payload) <==>
            && n <= |s|
            && (IsFrame(s[..n], payload) || (|payload| == 255 && Encloses(s[..n], LONG_HEADER_OF_255, payload)))
  {
    if Decode(s).Accept? {
      AcceptedEncloses(s);
    }
    if n <= |s| {
      assert s[..n] + s[n..] == s;
      if IsFrame(s[..n], payload) {
        FrameDecodes(s[..n], payload, s[n..]);
      } else if |payload| == 255 && Encloses(s[..n], LONG_HEADER_OF_255, payload) {
        LongHeaderDecodes(s[..n], payload, s[n..]);
      }
    }
  }

  /** What was accepted is the payload with the header that it came with. */
  lemma AcceptedEncloses(s: seq<Byte>)
    requires Decode(s).Accept?
    ensures var v := Decode(s);
            && v.size <= |s| && 1 <= |v.payload| <= MAX_PAYLOAD
            && var header := if s[0] == 3 && |v.payload| == 255 then LONG_HEADER_OF_255 else Header(|v.payload|);
               Encloses(s[..v.size], header, v.payload)
  {
    var v := Decode(s);
    var start := if s[0] == 2 then 2 else 3;
    var f := s[..v.size];
    AcceptedParts(s);
    Parts(f, start, start + |v.payload|);
  }

  lemma Parts(f: seq<Byte>, h: nat, e: nat)
    requires h <= e && e + 3 == |f|
    ensures f == f[..h] + f[h..e] + [f[e], f[e + 1], f[e + 2]]
  {
  }

  lemma AcceptedParts(s: seq<Byte>)
    requires Decode(s).Accept?
    ensures var v, start := Decode(s), if s[0] == 2 then 2 else 3;
            && v.size == start + |v.payload| + 3 <= |s| && 1 <= |v.payload| <= MAX_PAYLOAD
            && s[..v.size][start..start + |v.payload|] == v.payload && s[v.size - 1] == 3
            && ChecksumMatches(v.payload, s[v.size - 3], s[v.size - 2])
            && s[..v.size][..start] ==
               if s[0] == 3 && |v.payload| == 255 then LONG_HEADER_OF_255 else Header(|v.payload|)
  {
    var v, start := Decode(s), if s[0] == 2 then 2 else 3;
    assert s[start..start + |v.payload|] == s[..v.size][start..start + |v.payload|];
    assert s[..v.size][..start] == s[..start];
  }

  lemma LongHeaderDecodes(f: seq<Byte>, payload: seq<Byte>, t: seq<Byte>)
    requires |payload| == 255 && Encloses(f, LONG_HEADER_OF_255, payload)
    ensures Decode(f + t) == Accept(|f|, payload)
  {
    assert f[3..3 + 255] == payload;
    assert f[0] == 3 && f[1] == 0 && f[2] == 255;
    DecodeExtends(f, t);
  }

  /** An accepted payload came in the frame that its sender would have sent exactly if it was not a
      payload of 255 bytes with the long header. */
  lemma AcceptedIsFrame(s: seq<Byte>)
    requires Decode(s).Accept?
    ensures var v := Decode(s);
            && v.size <= |s| && 1 <= |v.payload| <= MAX_PAYLOAD
            && (IsFrame(s[..v.size], v.payload) <==> !(s[0] == 3 && |v.payload| == 255))
  {
    AcceptedEncloses(s);
  }

  /** Such a payload exists: the decoder accepts a header that is one byte too long. */
  lemma LongHeaderAccepted() returns (f: seq<Byte>, payload: seq<Byte>)
    ensures |payload| == 255 && LONG_HEADER_OF_255 <= f
    ensures Decode(f) == Accept(|f|, payload) && !IsFrame(f, payload)
  {
    payload := ZeroBytes(255);
    f := LONG_HEADER_OF_255 + payload + [0, 0, 3];
    ZeroChecksum(255);
    LongHeaderDecodes(f, payload, []);
    assert f + [] == f;
  }

  // ----- The same in numbers -----

  /** A frame of 1 to 255 bytes starts with 2 and the length; a longer one with 3 and the length in two
      bytes, high one first. The checksum comes high byte first, and then a 3. */
  predicate InNumbers(f: seq<Byte>, payload: seq<Byte>) {
    var n := |payload|;
    if n <= 255 then
      && |f| == n + 5 && f[0] == 2 && f[1] == n && f[2..2 + n] == payload
      && Checksum(payload) == ByteBits(f[n + 2]) + ByteBits(f[n + 3]) && f[n + 4] == 3
    else
      && |f| == n + 6 && f[0] == 3 && f[1] == n / 256 && f[2] == n % 256 && f[3..3 + n] == payload
      && Checksum(payload) == ByteBits(f[n + 3]) + ByteBits(f[n + 4]) && f[n + 5] == 3
  }

  lemma SentInNumbers(f: seq<Byte>, payload: seq<Byte>)
    requires IsFrame(f, payload)
    ensures InNumbers(f, payload)
  {
    var n, h := |payload|, |Header(|payload|)|;
    BodyParts(f, Header(n), payload);
    assert f[0] == Header(n)[0] && f[1] == Header(n)[1];
  }

  lemma BodyParts(f: seq<Byte>, header: seq<Byte>, payload: seq<Byte>)
    requires Encloses(f, header, payload)
    ensures |f| == |header| + |payload| + 3 && f[|f| - 1] == 3
    ensures f[..|header|] == header && f[|header|..|header| + |payload|] == payload
  {
  }

  lemma NumbersAreFrame(f: seq<Byte>, payload: seq<Byte>)
    requires 1 <= |payload| <= 512 && InNumbers(f, payload)
    ensures IsFrame(f, payload)
  {
    var n, h := |payload|, |Header(|payload|)|;
    assert f[..h] == Header(n);
    Parts(f, h, h + n);
  }

  /** These are all the frames. */
  lemma FrameInNumbers(f: seq<Byte>, payload: seq<Byte>)
    ensures IsFrame(f, payload) <==> 1 <= |payload| <= 512 && InNumbers(f, payload)
  {
    if IsFrame(f, payload) {
      SentInNumbers(f, payload);
    }
    if 1 <= |payload| <= 512 && InNumbers(f, payload) {
      NumbersAreFrame(f, payload);
    }
  }

  /** What the decoder waits for: a length that the start byte promises, or the rest of a frame of that
      length. */
  lemma WaitsInNumbers(s: seq<Byte>)
    ensures |s| == 0 ==> Decode(s) == Wait(1)
    ensures |s| > 0 && s[0] != 2 && s[0] != 3 ==> Decode(s) == Reject
    ensures |s| > 0 && s[0] == 2 ==>
              if |s| == 1 then Decode(s) == Wait(1)
              else if s[1] == 0 then Decode(s) == Reject
              else Decode(s).Wait? <==> |s| < s[1] as nat + 5
    ensures |s| > 0 && s[0] == 3 ==>
              if |s| <= 2 then Decode(s) == Wait(3 - |s|)
              else if !(255 <= s[1] as nat * 256 + s[2] <= 512) then Decode(s) == Reject
              else Decode(s).Wait? <==> |s| < s[1] as nat * 256 + s[2] + 6
    ensures Decode(s).Wait? && |s| >= 2 && s[0] == 2 ==> |s| + Decode(s).missing == s[1] as nat + 5
    ensures Decode(s).Wait? && |s| >= 3 && s[0] == 3 ==> |s| + Decode(s).missing == s[1] as nat * 256 + s[2] + 6
  {
  }

  /** The payload [5] travels as 02 01 05 50 A5 03. */
  lemma FrameOfFive(t: seq<Byte>)
    ensures IsFrame([2, 1, 5, 0x50, 0xA5, 3], [5])
    ensures Decode([2, 1, 5, 0x50, 0xA5, 3] + t) == Accept(6, [5])
  {
    ChecksumOfFive();
    FrameInNumbers([2, 1, 5, 0x50, 0xA5, 3], [5]);
    FrameDecodes([2, 1, 5, 0x50, 0xA5, 3], [5], t);
  }

  // ----- Damaged frames -----

  /** What a frame carries between header and stop byte: the payload and its checksum. */
  function Body(f: seq<Byte>, payload: seq<Byte>): seq<Byte>
    requires 1 <= |payload| <= MAX_PAYLOAD && |f| == |Header(|payload|)| + |payload| + 3
  {
    f[|Header(|payload|)|..|f| - 1]
  }

  lemma BodyOfFrame(f: seq<Byte>, payload: seq<Byte>)
    requires IsFrame(f, payload)
    ensures |f| == |Header(|payload|)| + |payload| + 3 && Header(|payload|) <= f && f[|f| - 1] == 3
    ensures Body(f, payload) == payload + [f[|f| - 3], f[|f| - 2]]
  {
  }

  lemma BodySplits(g: seq<Byte>, payload: seq<Byte>)
    requires 1 <= |payload| <= MAX_PAYLOAD && |g| == |Header(|payload|)| + |payload| + 3
    ensures var n, h := |payload|, |Header(|payload|)|;
            Body(g, payload) == g[h..h + n] + [g[h + n], g[h + n + 1]]
  {
  }

  /** The stop byte or the checksum is wrong. */
  predicate Mismatch(g: seq<Byte>, n: nat)
    requires 1 <= n <= MAX_PAYLOAD && |g| == |Header(n)| + n + 3
  {
    var h := |Header(n)|;
    g[|g| - 1] != 3 || !ChecksumMatches(g[h..h + n], g[h + n], g[h + n + 1])
  }

  lemma BodyMismatch(f: seq<Byte>, payload: seq<Byte>, g: seq<Byte>)
    requires IsFrame(f, payload) && |g| == |f| == |Header(|payload|)| + |payload| + 3
    requires Damaged(Body(f, payload), Body(g, payload))
    ensures Mismatch(g, |payload|)
  {
    var n, h := |payload|, |Header(|payload|)|;
    BodyOfFrame(f, payload);
    BodySplits(g, payload);
    DamagedMismatch(payload, f[|f| - 3], f[|f| - 2], g[h..h + n], g[h + n], g[h + n + 1]);
  }

  lemma DecodeBehindHeader(g: seq<Byte>, n: nat)
    requires 1 <= n <= MAX_PAYLOAD && Header(n) <= g && |g| == |Header(n)| + n + 3
    ensures var h := |Header(n)|;
            Decode(g) == if g[h + n + 2] == 3 && ChecksumMatches(g[h..h + n], g[h + n], g[h + n + 1])
                         then Accept(|g|, g[h..h + n]) else Reject
  {
    assert g[0] == Header(n)[0] && g[1] == Header(n)[1];
    assert n > 255 ==> g[2] == Header(n)[2];
    assert AnnouncedLength(g) == n;
  }

  lemma MismatchRejected(g: seq<Byte>, n: nat, t: seq<Byte>)
    requires 1 <= n <= MAX_PAYLOAD && Header(n) <= g && |g| == |Header(n)| + n + 3 && Mismatch(g, n)
    ensures Decode(g + t) == Reject
  {
    DecodeBehindHeader(g, n);
    DecodeExtends(g, t);
  }

  /** A frame whose header arrives intact and whose payload, checksum or stop byte does not is
      rejected, if the damage to payload and checksum lies inside sixteen consecutive bits or flips
      an odd number of bits; whatever follows. */
  lemma DamagedRejected(f: seq<Byte>, payload: seq<Byte>, g: seq<Byte>, t: seq<Byte>)
    requires IsFrame(f, payload) && |g| == |f| == |Header(|payload|)| + |payload| + 3
    requires Header(|payload|) <= g
    requires Damaged(Body(f, payload), Body(g, payload)) || g[|g| - 1] != f[|f| - 1]
    ensures Decode(g + t) == Reject
  {
    BodyOfFrame(f, payload);
    if Damaged(Body(f, payload), Body(g, payload)) {
      BodyMismatch(f, payload, g);
    }
    MismatchRejected(g, |payload|, t);
  }

  // ----- The scanner -----

  datatype Scanned = Scanned(payloads: seq<seq<Byte>>, rest: seq<Byte>)

  /** Accepts a frame and goes on behind it, rejects and goes on one byte further, or stops
      where more bytes are needed. */
  function Scan(s: seq<Byte>): Scanned
    decreases |s|
  {
    match Decode(s)
    case Wait(_) => Scanned([], s)
    case Reject => DecodeBounds(s); Scan(s[1..])
    case Accept(n, payload) =>
      DecodeBounds(s);
      var tail := Scan(s[n..]);
      Scanned([payload] + tail.payloads, tail.rest)
  }

  lemma {:induction false} ScanRest(s: seq<Byte>)
    ensures Decode(Scan(s).rest).Wait?
    decreases |s|
  {
    DecodeBounds(s);
    match Decode(s)
    case Wait(_) =>
    case Reject => ScanRest(s[1..]);
    case Accept(n, _) => ScanRest(s[n..]);
  }

  lemma ScanStep(s: seq<Byte>, v: Verdict)
    requires v == Decode(s)
    ensures v.Accept? ==> 5 < v.size <= |s|
    ensures v.Reject? ==> s != []
    ensures v.Wait? ==> Scan(s) == Scanned([], s)
    ensures v.Reject? ==> Scan(s) == Scan(s[1..])
    ensures v.Accept? ==> Scan(s) == Join(Scanned([v.payload], []), Scan(s[v.size..]))
  {
    DecodeBounds(s);
  }

  function Join(a: Scanned, b: Scanned): Scanned {
    Scanned(a.payloads + b.payloads, b.rest)
  }

  ghost predicate Resumes(s: seq<Byte>, t: seq<Byte>) {
    Scan(s + t) == Join(Scan(s), Scan(Scan(s).rest + t))
  }

  lemma ResumesAfterReject(s: seq<Byte>, t: seq<Byte>)
    requires Decode(s).Reject? && s != [] && Resumes(s[1..], t)
    ensures Resumes(s, t)
  {
    ScanStep(s, Decode(s));
    RejectExtends(s, t);
  }

  /** And a rejected byte is rejected. */
  lemma RejectExtends(s: seq<Byte>, t: seq<Byte>)
    requires Decode(s).Reject? && s != []
    ensures Scan(s + t) == Scan(s[1..] + t)
  {
    DecodeExtends(s, t);
    ScanStep(s + t, Decode(s));
    assert (s + t)[1..] == s[1..] + t;
  }

  /** An accepted frame is accepted whatever follows it. */
  lemma AcceptExtends(s: seq<Byte>, t: seq<Byte>, v: Verdict)
    requires v == Decode(s) && v.Accept? && v.size <= |s|
    ensures Scan(s + t) == Join(Scanned([v.payload], []), Scan(s[v.size..] + t))
  {
    assert v == Decode(s + t) by {
      DecodeExtends(s, t);
    }
    ScanStep(s + t, v);
    assert (s + t)[v.size..] == s[v.size..] + t;
  }

  lemma ResumesAfterAccept(s: seq<Byte>, t: seq<Byte>, v: Verdict)
    requires v == Decode(s) && v.Accept? && v.size <= |s| && Resumes(s[v.size..], t)
    ensures Resumes(s, t)
  {
    var one, tail := Scanned([v.payload], []), s[v.size..];
    ScanStep(s, v);
    AcceptExtends(s, t, v);
    JoinAssociates(one, Scan(tail), Scan(Scan(tail).rest + t));
  }

  /** Scanning can stop anywhere and go on with the bytes left over. */
  lemma {:induction false} ScanAppend(s: seq<Byte>, t: seq<Byte>)
    ensures Resumes(s, t)
    decreases |s|
  {
    var v := Decode(s);
    ScanStep(s, v);
    if v.Reject? {
      ScanAppend(s[1..], t);
      ResumesAfterReject(s, t);
    } else if v.Accept? {
      ScanAppend(s[v.size..], t);
      ResumesAfterAccept(s, t, v);
    }
  }

  lemma JoinAssociates(a: Scanned, b: Scanned, c: Scanned)
    ensures Join(Join(a, b), c) == Join(a, Join(b, c))
  {
  }

  // ----- Streams of frames -----

  function Concat(frames: seq<seq<Byte>>): seq<Byte> {
    if frames == [] then [] else frames[0] + Concat(frames[1..])
  }

  lemma FrameScans(f: seq<Byte>, payload: seq<Byte>, t: seq<Byte>)
    requires IsFrame(f, payload)
    ensures Scan(f + t) == Join(Scanned([payload], []), Scan(t))
  {
    FrameDecodes(f, payload, t);
    ScanStep(f + t, Accept(|f|, payload));
    assert (f + t)[|f|..] == t;
  }

  lemma JoinFirst(payloads: seq<seq<Byte>>)
    requires payloads != []
    ensures Join(Scanned([payloads[0]], []), Scanned(payloads[1..], [])) == Scanned(payloads, [])
  {
  }

  /** Any list of frames is scanned into exactly their payloads, with nothing left over. */
  lemma {:induction false} FramesScan(frames: seq<seq<Byte>>, payloads: seq<seq<Byte>>)
    requires |frames| == |payloads|
    requires forall i :: 0 <= i < |frames| ==> IsFrame(frames[i], payloads[i])
    ensures Scan(Concat(frames)) == Scanned(payloads, [])
  {
    if frames != [] {
      FrameScans(frames[0], payloads[0], Concat(frames[1..]));
      FramesScan(frames[1..], payloads[1..]);
      JoinFirst(payloads);
    }
  }

  // ----- Resynchronisation -----

  lemma {:induction false} GarbageSkipped(stream: seq<Byte>, i: nat, n: nat)
    requires i <= n && n + MAX_FRAME <= |stream|
    requires forall k :: i <= k < n ==> !Decode(stream[k..]).Accept?
    ensures Scan(stream[i..]) == Scan(stream[n..])
    decreases n - i
  {
    if i < n {
      DecodeBounds(stream[i..]);
      assert stream[i..][1..] == stream[i + 1..];
      GarbageSkipped(stream, i + 1, n);
    }
  }

  /** If no frame starts inside the garbage, then as soon as MAX_FRAME bytes beyond it have
      arrived, the first payload delivered is that of the frame behind it. */
  lemma Resynchronises(garbage: seq<Byte>, frame: seq<Byte>, payload: seq<Byte>, tail: seq<Byte>, n: nat)
    requires IsFrame(frame, payload)
    requires forall k :: 0 <= k < |garbage| ==> !Decode((garbage + frame + tail)[k..]).Accept?
    requires |garbage| + MAX_FRAME <= n <= |garbage + frame + tail|
    ensures var received := (garbage + frame + tail)[..n];
            Scan(received) == Join(Scanned([payload], []), Scan(received[|garbage| + |frame|..]))
  {
    var stream := garbage + frame + tail;
    var received, g := stream[..n], |garbage|;
    FrameFits(frame, payload);
    forall k | 0 <= k < g ensures !Decode(received[k..]).Accept? {
      NoFrameInPrefix(stream, n, k);
    }
    GarbageSkipped(received, 0, g);
    BehindGarbage(garbage, frame, tail, n);
    FrameScans(frame, payload, received[g + |frame|..]);
  }

  lemma BehindGarbage(garbage: seq<Byte>, frame: seq<Byte>, tail: seq<Byte>, n: nat)
    requires |garbage| + |frame| <= n <= |garbage + frame + tail|
    ensures var received, g := (garbage + frame + tail)[..n], |garbage|;
            received[0..] == received && received[g..] == frame + received[g + |frame|..]
  {
  }

  lemma FrameFits(f: seq<Byte>, payload: seq<Byte>)
    requires IsFrame(f, payload)
    ensures |f| <= MAX_FRAME
  {
  }

  lemma NoFrameInPrefix(stream: seq<Byte>, n: nat, k: nat)
    requires k <= n <= |stream| && !Decode(stream[k..]).Accept?
    ensures !Decode(stream[..n][k..]).Accept?
  {
    assert stream[k..] == stream[..n][k..] + stream[n..];
    DecodeExtends(stream[..n][k..], stream[n..]);
  }
}

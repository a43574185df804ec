/** TCP framing: a big-endian length, then the payload; and the incremental reader that survives any
    way the socket splits the stream. */
module Framing {
  import opened Bytes

  const FRAME_HEADER_LEN: nat := 4
  const MAX_FRAME_PAYLOAD: nat := 16_384

  // ---------------------------------------------------------------------------------------------
  // Frames and streams
  // ---------------------------------------------------------------------------------------------

  function FrameOf(payload: seq<byte>): seq<byte> { BigEndian(|payload|, FRAME_HEADER_LEN) + payload }

  /** `encode_frame`; an oversized payload is an error. */
  method EncodeFrame(payload: seq<byte>) returns (frame: Option<seq<byte>>)
    ensures frame == if |payload| <= MAX_FRAME_PAYLOAD then Some(FrameOf(payload)) else None
  {
    if |payload| > MAX_FRAME_PAYLOAD { return None; }
    var out := BigEndian(|payload|, FRAME_HEADER_LEN);
    out := out + payload;
    return Some(out);
  }

  predicate GoodLength(n: nat) { 1 <= n <= MAX_FRAME_PAYLOAD }

  datatype Parse = Incomplete | Got(payload: seq<byte>, rest: seq<byte>) | BadLength

  /** The first frame of a stream. */
  function ParseFrame(b: seq<byte>): Parse {
    if |b| < FRAME_HEADER_LEN then Incomplete
    else
      var n := FromBigEndian(b[..FRAME_HEADER_LEN]);
      if !GoodLength(n) then BadLength
      else if |b| < FRAME_HEADER_LEN + n then Incomplete
      else Got(b[FRAME_HEADER_LEN..FRAME_HEADER_LEN + n], b[FRAME_HEADER_LEN + n..])
  }

  /** How a connection ends: closed between frames, closed inside one, refused for a declared length,
      or broken by a socket error. */
  datatype End = Clean | Truncated | Refused | Failed

  function ParseStream(b: seq<byte>): (seq<seq<byte>>, End)
    decreases |b|
  {
    match ParseFrame(b)
    case Got(p, rest) => var (ps, end) := ParseStream(rest); ([p] + ps, end)
    case Incomplete => ([], if b == [] then Clean else Truncated)
    case BadLength => ([], Refused)
  }

  function Concatenated(ps: seq<seq<byte>>): seq<byte> {
    if ps == [] then [] else FrameOf(ps[0]) + Concatenated(ps[1..])
  }

  /** A stream begins with the frame of `p` exactly when parsing yields `p`, for sendable lengths. */
  lemma ParseFrameExact(b: seq<byte>, p: seq<byte>, rest: seq<byte>)
    ensures ParseFrame(b) == Got(p, rest) <==> GoodLength(|p|) && b == FrameOf(p) + rest
  {
    if |b| >= FRAME_HEADER_LEN {
      var head, tail := b[..FRAME_HEADER_LEN], b[FRAME_HEADER_LEN..];
      assert b == head + tail;
      if GoodLength(|p|) {
        Fits(|p|);
        BigEndianInverse(|p|, head);
        assert b == FrameOf(p) + rest <==> head == BigEndian(|p|, FRAME_HEADER_LEN) && tail == p + rest by {
          SplitFrame(b, p, rest);
        }
      }
    }
  }

  lemma SplitFrame(b: seq<byte>, p: seq<byte>, rest: seq<byte>)
    requires |b| >= FRAME_HEADER_LEN && GoodLength(|p|)
    ensures b == FrameOf(p) + rest
       <==> b[..FRAME_HEADER_LEN] == BigEndian(|p|, FRAME_HEADER_LEN) && b[FRAME_HEADER_LEN..] == p + rest
  {
    var head := BigEndian(|p|, FRAME_HEADER_LEN);
    Glue(head, p, rest);
    assert b == b[..FRAME_HEADER_LEN] + b[FRAME_HEADER_LEN..];
    assert (head + (p + rest))[..FRAME_HEADER_LEN] == head && (head + (p + rest))[FRAME_HEADER_LEN..] == p + rest;
  }

  lemma Fits(n: nat)
    requires n <= MAX_FRAME_PAYLOAD
    ensures n < Pow256(4)
  {
    Pow256Widths();
  }

  /** The number that the first four octets declare, the most significant first. */
  ghost function Declared(b: seq<byte>): nat
    requires |b| >= 4
  {
    b[0] as int * 0x100_0000 + b[1] as int * 0x1_0000 + b[2] as int * 0x100 + b[3]
  }

  /** A stream is refused as soon as its header is there exactly when that declares 0 or more than 16,384; else
      it waits for as many octets as declared. */
  lemma HeaderDecides(b: seq<byte>)
    ensures ParseFrame(b) == BadLength <==> |b| >= 4 && !(0 < Declared(b) <= 16_384)
    ensures ParseFrame(b).Got? <==> |b| >= 4 && 0 < Declared(b) <= 16_384 && |b| >= 4 + Declared(b)
    ensures ParseFrame(b).Got? ==> ParseFrame(b).payload == b[4..4 + Declared(b)]
                                   && ParseFrame(b).rest == b[4 + Declared(b)..]
  {
    if |b| >= 4 {
      var h := b[..4];
      assert FromBigEndian(h[..3]) == 256 * FromBigEndian(h[..2]) + h[2] by { assert h[..3][..2] == h[..2]; }
      assert FromBigEndian(h[..2]) == 256 * FromBigEndian(h[..1]) + h[1] by { assert h[..2][..1] == h[..1]; }
      assert FromBigEndian(h[..1]) == h[0] by { assert h[..1][..0] == []; }
    }
  }

  /** More octets change neither a parsed frame nor a refusal. */
  lemma ParseFrameExtends(b: seq<byte>, more: seq<byte>)
    ensures ParseFrame(b) == BadLength ==> ParseFrame(b + more) == BadLength
    ensures ParseFrame(b).Got? ==> ParseFrame(b + more) == Got(ParseFrame(b).payload, ParseFrame(b).rest + more)
  {
    if |b| >= FRAME_HEADER_LEN {
      assert (b + more)[..FRAME_HEADER_LEN] == b[..FRAME_HEADER_LEN];
    }
  }

  /** A proper prefix of a frame is incomplete. */
  lemma CutFrame(p: seq<byte>, cut: nat)
    requires GoodLength(|p|) && cut < |FrameOf(p)|
    ensures ParseFrame(FrameOf(p)[..cut]) == Incomplete
  {
    var b := FrameOf(p)[..cut];
    if cut >= FRAME_HEADER_LEN {
      assert b[..FRAME_HEADER_LEN] == BigEndian(|p|, FRAME_HEADER_LEN);
      Fits(|p|);
      BigEndianInverse(|p|, b[..FRAME_HEADER_LEN]);
    }
  }

  /** A stream is read back as `ps` and a clean end exactly when it is the concatenation of the frames
      of `ps`, each of 1 to 16,384 octets. */
  lemma {:induction false} CleanStreamExact(b: seq<byte>, ps: seq<seq<byte>>)
    ensures ParseStream(b) == (ps, Clean) <==>
            (forall i :: 0 <= i < |ps| ==> GoodLength(|ps[i]|)) && b == Concatenated(ps)
    decreases |b|
  {
    if ParseFrame(b).Got? {
      var Got(p, rest) := ParseFrame(b);
      ParseFrameExact(b, p, rest);
      var (qs, end) := ParseStream(rest);
      assert ParseStream(b) == ([p] + qs, end);
      CleanStreamExact(rest, qs);
      if ParseStream(b) == (ps, Clean) {
        assert ps[0] == p && ps[1..] == qs;
      }
      if (forall i :: 0 <= i < |ps| ==> GoodLength(|ps[i]|)) && b == Concatenated(ps) {
        assert ps != [];
        ParseFrameExact(b, ps[0], Concatenated(ps[1..]));
        CleanStreamExact(rest, ps[1..]);
        assert ps == [p] + ps[1..];
      }
    } else if (forall i :: 0 <= i < |ps| ==> GoodLength(|ps[i]|)) && b == Concatenated(ps) && ps != [] {
      ParseFrameExact(b, ps[0], Concatenated(ps[1..]));
    }
  }

  lemma ParseNext(b: seq<byte>, p: seq<byte>, rest: seq<byte>)
    requires ParseFrame(b) == Got(p, rest)
    ensures ParseStream(b) == ([p] + ParseStream(rest).0, ParseStream(rest).1)
  {}

  /** Frames are read back, and then whatever follows them. */
  lemma {:induction false} FramesThen(ps: seq<seq<byte>>, tail: seq<byte>)
    requires forall i :: 0 <= i < |ps| ==> GoodLength(|ps[i]|)
    ensures ParseStream(Concatenated(ps) + tail) == (ps + ParseStream(tail).0, ParseStream(tail).1)
  {
    if ps == [] {
      assert [] + tail == tail && [] + ParseStream(tail).0 == ParseStream(tail).0;
    } else {
      var rest := Concatenated(ps[1..]) + tail;
      var b := Concatenated(ps) + tail;
      Glue(FrameOf(ps[0]), Concatenated(ps[1..]), tail);
      ParseFrameExact(b, ps[0], rest);
      FramesThen(ps[1..], tail);
      ParseNext(b, ps[0], rest);
      assert ps == [ps[0]] + ps[1..];
      Glue([ps[0]], ps[1..], ParseStream(tail).0);
    }
  }

  /** Frames followed by a cut one are read back, and the end is reported as a truncation. */
  lemma CutStream(ps: seq<seq<byte>>, p: seq<byte>, cut: nat)
    requires GoodLength(|p|) && 0 < cut < |FrameOf(p)|
    requires forall i :: 0 <= i < |ps| ==> GoodLength(|ps[i]|)
    ensures ParseStream(Concatenated(ps) + FrameOf(p)[..cut]) == (ps, Truncated)
  {
    CutFrame(p, cut);
    FramesThen(ps, FrameOf(p)[..cut]);
    assert ps + [] == ps;
  }

  /** What is left of a stream once its frames are read decides how it ends. */
  lemma {:induction false} StreamEnds(b: seq<byte>) returns (rest: seq<byte>)
    ensures b == Concatenated(ParseStream(b).0) + rest
    ensures forall i :: 0 <= i < |ParseStream(b).0| ==> GoodLength(|ParseStream(b).0[i]|)
    ensures ParseStream(b).1 == Clean <==> rest == []
    ensures ParseStream(b).1 == Refused <==> |rest| >= 4 && !(0 < Declared(rest) <= 16_384)
    ensures ParseStream(b).1 == Truncated <==>
              0 < |rest| < 4 || (|rest| >= 4 && 0 < Declared(rest) <= 16_384 && |rest| < 4 + Declared(rest))
    decreases |b|
  {
    HeaderDecides(b);
    if ParseFrame(b).Got? {
      var Got(p, more) := ParseFrame(b);
      rest := StreamEnds(more);
      ParseFrameExact(b, p, more);
      ParseNext(b, p, more);
      ConcatenatedCons(p, ParseStream(more).0);
      Glue(FrameOf(p), Concatenated(ParseStream(more).0), rest);
    } else {
      rest := b;
      assert [] + b == b;
    }
  }

  lemma ConcatenatedCons(p: seq<byte>, ps: seq<seq<byte>>)
    ensures Concatenated([p] + ps) == FrameOf(p) + Concatenated(ps)
  {
    assert ([p] + ps)[1..] == ps;
  }

  // ---------------------------------------------------------------------------------------------
  // The socket
  // ---------------------------------------------------------------------------------------------

  /** What the socket does at its next reads: time out, fail, or deliver at most `limit + 1` octets.
      With no more entries it delivers all it has. */
  datatype ReadEvent = Timeout | Fault | Deliver(limit: nat)

  datatype ReadResult = Data(octets: seq<byte>) | WouldBlock | IoError

  function Rest(events: seq<ReadEvent>): seq<ReadEvent> {
    if events == [] then [] else events[1..]
  }

  predicate StartsWith(event: ReadEvent, events: seq<ReadEvent>) {
    events != [] && events[0] == event
  }

  class Socket {
    var incoming: seq<byte>
    var schedule: seq<ReadEvent>

    constructor (octets: seq<byte>, events: seq<ReadEvent>)
      ensures incoming == octets && schedule == events
    {
      incoming, schedule := octets, events;
    }

    /** `Read::read` into a buffer of `room` octets; no data means the peer has closed. */
    method Read(room: nat) returns (r: ReadResult)
      requires room > 0
      modifies this
      ensures schedule == Rest(old(schedule))
      ensures r.WouldBlock? <==> StartsWith(Timeout, old(schedule))
      ensures r.IoError? <==> StartsWith(Fault, old(schedule))
      ensures match r
              case Data(x) =>
                && old(incoming) == x + incoming && |x| <= room && (x == [] ==> incoming == [])
                && (old(schedule) != [] ==> |x| <= old(schedule)[0].limit + 1)
              case _ => incoming == old(incoming)
    {
      var limit := room;
      if schedule != [] {
        var event := schedule[0];
        schedule := schedule[1..];
        match event
        case Timeout => return WouldBlock;
        case Fault => return IoError;
        case Deliver(n) => limit := if n + 1 < room then n + 1 else room;
      }
      var n := if limit < |incoming| then limit else |incoming|;
      r := Data(incoming[..n]);
      incoming := incoming[n..];
    }
  }

  // ---------------------------------------------------------------------------------------------
  // The incremental reader
  // ---------------------------------------------------------------------------------------------

  datatype FramePoll = Pending | Frame(payload: seq<byte>) | Eof | Fatal(reason: End)

  class FrameReader {
    const header: array<byte>
    var headerFill: nat
    var body: seq<byte>
    var bodyFill: nat

    /** Between calls a reader is inside a header or inside a body, never past a complete frame. */
    ghost predicate Valid()
      reads this, header
    {
      && header.Length == FRAME_HEADER_LEN && headerFill <= FRAME_HEADER_LEN
      && (headerFill < FRAME_HEADER_LEN ==> body == [] && bodyFill == 0)
      && (headerFill == FRAME_HEADER_LEN ==>
            bodyFill < |body| <= MAX_FRAME_PAYLOAD && |body| == FromBigEndian(header[..]))
    }

    /** The octets of the frame being read that have already been taken from the socket. */
    ghost function Buffered(): seq<byte>
      requires Valid()
      reads this, header
    {
      header[..headerFill] + body[..bodyFill]
    }

    constructor ()
      ensures Valid() && Buffered() == [] && fresh(header)
    {
      header := new byte[FRAME_HEADER_LEN](_ => 0);
      headerFill, body, bodyFill := 0, [], 0;
    }

    method Reset()
      modifies this
      ensures headerFill == 0 && body == [] && bodyFill == 0
    {
      headerFill, body, bodyFill := 0, [], 0;
    }

    /** What is buffered between calls is never a whole frame. */
    lemma BufferedIncomplete()
      requires Valid()
      ensures ParseFrame(Buffered()) == Incomplete
    {
      if headerFill == FRAME_HEADER_LEN {
        assert Buffered()[..FRAME_HEADER_LEN] == header[..];
      }
    }

    /** Header octets arrive; the answer is whether the declared length is refused. */
    method AcceptHeader(x: seq<byte>) returns (refused: bool)
      requires Valid() && headerFill + |x| <= FRAME_HEADER_LEN && headerFill < FRAME_HEADER_LEN
      modifies this, header
      ensures Valid()
      ensures !refused ==> Buffered() == old(Buffered()) + x
      ensures refused ==> ParseFrame(old(Buffered()) + x) == BadLength
    {
      ghost var before := header[..headerFill];
      assert Buffered() == before;
      forall i | 0 <= i < |x| { header[headerFill + i] := x[i]; }
      headerFill := headerFill + |x|;
      assert header[..headerFill] == before + x;
      assert header[..headerFill] + body[..bodyFill] == before + x;
      if headerFill < FRAME_HEADER_LEN { return false; }
      assert header[..] == before + x;
      // The header is complete: a bad length is refused before any of the body is read.
      var declared := FromBigEndian(header[..]);
      if declared == 0 || declared > MAX_FRAME_PAYLOAD {
        assert (before + x)[..FRAME_HEADER_LEN] == header[..];
        Reset();
        return true;
      }
      body := seq(declared, _ => 0);
      assert header[..headerFill] + body[..0] == before + x;
      return false;
    }

    /** Body octets arrive; the answer is the payload once it is complete. */
    method AcceptBody(x: seq<byte>) returns (payload: Option<seq<byte>>)
      requires Valid() && headerFill == FRAME_HEADER_LEN && bodyFill + |x| <= |body|
      modifies this
      ensures Valid()
      ensures payload.None? ==> Buffered() == old(Buffered()) + x
      ensures payload.Some? ==> Buffered() == [] && ParseFrame(old(Buffered()) + x) == Got(payload.value, [])
    {
      ghost var all := Buffered() + x;
      body := body[..bodyFill] + x + body[bodyFill + |x|..];
      bodyFill := bodyFill + |x|;
      assert header[..headerFill] + body[..bodyFill] == all;
      if bodyFill < |body| { return None; }
      payload := Some(body);
      assert all[..FRAME_HEADER_LEN] == header[..] && all[FRAME_HEADER_LEN..] == body;
      Reset();
      assert header[..0] + body[..0] == [];
    }

    /** One pass of the loop while the header is incomplete; no result means another pass. */
    method PollHeader(socket: Socket) returns (r: Option<FramePoll>)
      requires Valid() && headerFill < FRAME_HEADER_LEN
      modifies this, header, socket
      ensures Valid() && socket.schedule == Rest(old(socket.schedule))
      ensures r.None? ==> Continues(old(Buffered()), old(socket.incoming), Buffered(), socket.incoming)
      ensures r.Some? ==> Explains(old(Buffered() + socket.incoming), r.value, Buffered(), socket.incoming)
      ensures r == Some(Pending) <==> StartsWith(Timeout, old(socket.schedule))
      ensures r == Some(Fatal(Failed)) <==> StartsWith(Fault, old(socket.schedule))
    {
      ghost var before := Buffered();
      BufferedIncomplete();
      assert before + [] == before;
      var read := socket.Read(FRAME_HEADER_LEN - headerFill);
      match read {
        case WouldBlock => return Some(Pending);
        case IoError => return Some(Fatal(Failed));
        case Data(x) =>
          if x == [] {
            return Some(if headerFill == 0 && body == [] then Eof else Fatal(Truncated));
          }
          Glue(before, x, socket.incoming);
          ParseFrameExtends(before + x, socket.incoming);
          var refused := AcceptHeader(x);
          return if refused then Some(Fatal(Refused)) else None;
      }
    }

    /** One pass of the loop while the body is incomplete. */
    method PollBody(socket: Socket) returns (r: Option<FramePoll>)
      requires Valid() && headerFill == FRAME_HEADER_LEN
      modifies this, header, socket
      ensures Valid() && socket.schedule == Rest(old(socket.schedule))
      ensures r.None? ==> Continues(old(Buffered()), old(socket.incoming), Buffered(), socket.incoming)
      ensures r.Some? ==> Explains(old(Buffered() + socket.incoming), r.value, Buffered(), socket.incoming)
      ensures r == Some(Pending) <==> StartsWith(Timeout, old(socket.schedule))
      ensures r == Some(Fatal(Failed)) <==> StartsWith(Fault, old(socket.schedule))
    {
      ghost var before := Buffered();
      BufferedIncomplete();
      assert before + [] == before;
      var read := socket.Read(|body| - bodyFill);
      match read {
        case WouldBlock => return Some(Pending);
        case IoError => return Some(Fatal(Failed));
        case Data(x) =>
          if x == [] { return Some(Fatal(Truncated)); }
          Glue(before, x, socket.incoming);
          ParseFrameExtends(before + x, socket.incoming);
          assert [] + socket.incoming == socket.incoming;
          var payload := AcceptBody(x);
          return match payload case Some(p) => Some(Frame(p)) case None => None;
      }
    }

    method Poll(socket: Socket) returns (r: FramePoll)
      requires Valid()
      modifies this, header, socket
      ensures Valid() && Suffix(socket.schedule, old(socket.schedule))
      ensures Explains(old(Buffered() + socket.incoming), r, Buffered(), socket.incoming)
      ensures Scheduled(r, Used(old(socket.schedule), socket.schedule))
    {
      while true
        invariant Valid() && Suffix(socket.schedule, old(socket.schedule))
        invariant AllDeliver(Used(old(socket.schedule), socket.schedule))
        invariant Buffered() + socket.incoming == old(Buffered() + socket.incoming)
        decreases |socket.incoming|
      {
        ghost var schedule := socket.schedule;
        var step;
        if headerFill < FRAME_HEADER_LEN {
          step := PollHeader(socket);
        } else {
          step := PollBody(socket);
        }
        UsedOneMore(old(socket.schedule), schedule, socket.schedule);
        if step.Some? { return step.value; }
      }
    }
  }

  ghost predicate Suffix<T>(s: seq<T>, whole: seq<T>) {
    |s| <= |whole| && s == whole[|whole| - |s|..]
  }

  /** What a poll result says of `all`, the octets buffered before it and still to come; `buffered` and
      `incoming` are those afterwards. */
  ghost predicate Explains(all: seq<byte>, r: FramePoll, buffered: seq<byte>, incoming: seq<byte>) {
    match r
    case Pending => buffered + incoming == all
    case Frame(p) => ParseFrame(all) == Got(p, incoming) && buffered == []
    case Eof => all == []
    case Fatal(Truncated) => all != [] && ParseFrame(all) == Incomplete
    case Fatal(Refused) => ParseFrame(all) == BadLength
    case Fatal(Failed) => buffered + incoming == all
    case Fatal(Clean) => false
  }

  /** A pass without a result has moved octets from the socket to the buffer. */
  ghost predicate Continues(buffered0: seq<byte>, incoming0: seq<byte>, buffered: seq<byte>, incoming: seq<byte>) {
    buffered + incoming == buffered0 + incoming0 && |incoming| < |incoming0|
  }

  /** The events read between two points of the schedule. */
  function Used(before: seq<ReadEvent>, after: seq<ReadEvent>): seq<ReadEvent>
    requires |after| <= |before|
  {
    before[..|before| - |after|]
  }

  predicate AllDeliver(events: seq<ReadEvent>) {
    forall i :: 0 <= i < |events| ==> events[i].Deliver?
  }

  lemma UsedOneMore(whole: seq<ReadEvent>, before: seq<ReadEvent>, after: seq<ReadEvent>)
    requires Suffix(before, whole) && after == Rest(before)
    ensures Suffix(after, whole)
    ensures Used(whole, after) == Used(whole, before) + if before == [] then [] else [before[0]]
  {}

  lemma UsedMore(whole: seq<ReadEvent>, before: seq<ReadEvent>, after: seq<ReadEvent>)
    requires Suffix(before, whole) && Suffix(after, before)
    ensures Suffix(after, whole) && Used(whole, after) == Used(whole, before) + Used(before, after)
  {}

  /** A poll ends with the first event that delivers nothing: a timeout makes it give up, a fault makes it
      fail, and nothing else does either. */
  ghost predicate Scheduled(r: FramePoll, used: seq<ReadEvent>) {
    && (r.Pending? <==> used != [] && used[|used| - 1] == Timeout)
    && (r == Fatal(Failed) <==> used != [] && used[|used| - 1] == Fault)
    && (used != [] ==> AllDeliver(used[..|used| - 1]))
  }

  lemma FaultEndsUse(r: FramePoll, used: seq<ReadEvent>)
    requires Scheduled(r, used)
    ensures Fault in used <==> r == Fatal(Failed)
  {
    if Fault in used {
      var i :| 0 <= i < |used| && used[i] == Fault;
      assert AllDeliver(used[..|used| - 1]) && !used[i].Deliver?;
    }
  }

  lemma {:induction false} ConcatenatedSnoc(ps: seq<seq<byte>>, p: seq<byte>)
    ensures Concatenated(ps + [p]) == Concatenated(ps) + FrameOf(p)
  {
    if ps == [] {
      assert Concatenated([p]) == FrameOf(p) + Concatenated([]);
    } else {
      ConcatenatedSnoc(ps[1..], p);
      assert (ps + [p])[1..] == ps[1..] + [p];
      Glue(FrameOf(ps[0]), Concatenated(ps[1..]), FrameOf(p));
    }
  }

  lemma FrameTaken(frames: seq<seq<byte>>, all: seq<byte>, p: seq<byte>, incoming: seq<byte>)
    requires ParseFrame(all) == Got(p, incoming)
    ensures GoodLength(|p|) && Concatenated(frames) + all == Concatenated(frames + [p]) + incoming
  {
    ParseFrameExact(all, p, incoming);
    ConcatenatedSnoc(frames, p);
    Glue(Concatenated(frames), FrameOf(p), incoming);
  }

  /** Stopping inside a frame, exactly the frames before it were taken. */
  lemma StoppedAt(frames: seq<seq<byte>>, buffered: seq<byte>, incoming: seq<byte>)
    requires ParseFrame(buffered) == Incomplete && forall i :: 0 <= i < |frames| ==> GoodLength(|frames[i]|)
    ensures var stream := Concatenated(frames) + (buffered + incoming);
            && Suffix(incoming, stream) && frames <= ParseStream(stream).0
            && frames == ParseStream(Taken(stream, incoming)).0
  {
    var stream := Concatenated(frames) + (buffered + incoming);
    FramesThen(frames, buffered + incoming);
    FramesThen(frames, buffered);
    assert Taken(stream, incoming) == Concatenated(frames) + buffered;
    assert frames + [] == frames;
  }

  /** `read_frames_until_closed`: however the stream is split and wherever the socket times out, the frames
      and the end are those of the stream, unless a fault is read first; then they are the frames complete by
      then. */
  method ReadFrames(socket: Socket) returns (frames: seq<seq<byte>>, end: End)
    modifies socket
    ensures Suffix(socket.schedule, old(socket.schedule))
    ensures end == Failed <==> Fault in Used(old(socket.schedule), socket.schedule)
    ensures end != Failed ==> (frames, end) == ParseStream(old(socket.incoming))
    ensures end == Failed ==>
              && frames <= ParseStream(old(socket.incoming)).0 && Suffix(socket.incoming, old(socket.incoming))
              && frames == ParseStream(Taken(old(socket.incoming), socket.incoming)).0
  {
    var reader := new FrameReader();
    frames := [];
    ghost var stream, events := socket.incoming, socket.schedule;
    assert Concatenated([]) + (reader.Buffered() + socket.incoming) == stream;
    while true
      invariant reader.Valid() && fresh(reader) && fresh(reader.header)
      invariant Suffix(socket.schedule, events) && Fault !in Used(events, socket.schedule)
      invariant forall i :: 0 <= i < |frames| ==> GoodLength(|frames[i]|)
      invariant stream == Concatenated(frames) + (reader.Buffered() + socket.incoming)
      decreases |reader.Buffered() + socket.incoming|, |socket.schedule|
    {
      ghost var all, schedule := reader.Buffered() + socket.incoming, socket.schedule;
      var r := reader.Poll(socket);
      UsedMore(events, schedule, socket.schedule);
      FaultEndsUse(r, Used(schedule, socket.schedule));
      match r {
        case Pending =>
        case Frame(p) =>
          FrameTaken(frames, all, p, socket.incoming);
          frames := frames + [p];
          assert reader.Buffered() + socket.incoming == socket.incoming;
        case Eof =>
          FramesThen(frames, all);
          assert frames + [] == frames;
          return frames, Clean;
        case Fatal(reason) =>
          FramesThen(frames, all);
          if reason == Failed {
            reader.BufferedIncomplete();
            StoppedAt(frames, reader.Buffered(), socket.incoming);
          }
          assert reason != Failed ==> frames + [] == frames;
          return frames, reason;
      }
    }
  }

  /** The octets taken from a stream. */
  function Taken(stream: seq<byte>, left: seq<byte>): seq<byte>
    requires |left| <= |stream|
  {
    stream[..|stream| - |left|]
  }
}

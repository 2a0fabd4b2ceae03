/** The wire framing protocol: frames on a byte stream, the encoder that writes
    them, and the decoder that reassembles them from chunks of any size. */
module Wire {
  import opened Basics
  import opened Codec
  import opened Crc

  const FRAME_MAGIC: U32 := 0x5246_5753
  const MAX_PAYLOAD: nat := 0x1000_0000
  const HEADER_SIZE: nat := 16
  const CRC_SIZE: nat := 4
  const MIN_FRAME_SIZE: nat := 20
  const END_OF_STREAM: U32 := 2

  datatype WireFrame = WireFrame(seqNo: U32, flags: U32, payload: seq<Byte>)

  // ----- one frame -----

  function HeaderBytes(f: WireFrame): (s: seq<Byte>)
    ensures |s| == HEADER_SIZE
  {
    LittleEndian(FRAME_MAGIC, 4) + LittleEndian(f.flags, 4) + LittleEndian(f.seqNo, 4) + LittleEndian(|f.payload|, 4)
  }

  function FrameBytes(f: WireFrame): (s: seq<Byte>)
    ensures |s| == HEADER_SIZE + |f.payload| + CRC_SIZE
  {
    var body := HeaderBytes(f) + f.payload;
    body + LittleEndian(Crc32(body), 4)
  }

  function ReadWord(s: seq<Byte>, at: nat): (w: U32)
    requires at + 4 <= |s|
  {
    Pow256Values();
    FromLittleEndianInverse(s[at..at + 4]);
    FromLittleEndian(s[at..at + 4])
  }

  /** What the decoder makes of the bytes it has not consumed. */
  function Peel(s: seq<Byte>): (r: Result<(WireFrame, seq<Byte>)>)
    ensures r.Ok? ==> |r.value.1| + MIN_FRAME_SIZE <= |s|
  {
    if |s| < MIN_FRAME_SIZE then Err(Truncated)
    else if ReadWord(s, 0) != FRAME_MAGIC then Err(BadMagic)
    else
      var n := ReadWord(s, 12);
      if n > MAX_PAYLOAD then Err(LimitExceeded)
      else if |s| < HEADER_SIZE + n + CRC_SIZE then Err(Truncated)
      else if Crc32(s[..HEADER_SIZE + n]) != ReadWord(s, HEADER_SIZE + n) then Err(BadChecksum)
      else Ok((WireFrame(ReadWord(s, 8), ReadWord(s, 4), s[HEADER_SIZE..HEADER_SIZE + n]), s[HEADER_SIZE + n + CRC_SIZE..]))
  }

  predicate FrameBuffered(s: seq<Byte>) {
    |s| >= MIN_FRAME_SIZE && |s| >= HEADER_SIZE + ReadWord(s, 12) + CRC_SIZE
  }

  /** Everything a decoder fed all of s at once would produce. */
  function DecodeAll(s: seq<Byte>): seq<WireFrame>
    decreases |s|
  {
    match Peel(s)
    case Ok((f, rest)) => [f] + DecodeAll(rest)
    case Err(_) => []
  }

  // ----- reading words out of encodings -----

  lemma ReadWordOf(before: seq<Byte>, v: U32, after: seq<Byte>)
    ensures ReadWord(before + LittleEndian(v, 4) + after, |before|) == v
  {
    var s := before + LittleEndian(v, 4) + after;
    assert s[|before|..|before| + 4] == LittleEndian(v, 4);
    Pow256Values();
    LittleEndianInverse(v, 4);
  }

  lemma ReadWordExtend(s: seq<Byte>, t: seq<Byte>, at: nat)
    requires at + 4 <= |s|
    ensures ReadWord(s + t, at) == ReadWord(s, at)
  {
    assert (s + t)[at..at + 4] == s[at..at + 4];
  }

  lemma HeaderWords(f: WireFrame, rest: seq<Byte>)
    requires |f.payload| <= MAX_PAYLOAD
    ensures var s := HeaderBytes(f) + rest;
      && ReadWord(s, 0) == FRAME_MAGIC && ReadWord(s, 4) == f.flags
      && ReadWord(s, 8) == f.seqNo && ReadWord(s, 12) == |f.payload|
  {
    hide LittleEndian, ReadWord;
    var a, b, c, d := LittleEndian(FRAME_MAGIC, 4), LittleEndian(f.flags, 4), LittleEndian(f.seqNo, 4), LittleEndian(|f.payload|, 4);
    var s := HeaderBytes(f) + rest;
    LittleEndianLengths(f);
    assert s == [] + a + (b + c + d + rest);
    ReadWordOf([], FRAME_MAGIC, b + c + d + rest);
    assert s == a + b + (c + d + rest);
    ReadWordOf(a, f.flags, c + d + rest);
    assert s == a + b + c + (d + rest);
    ReadWordOf(a + b, f.seqNo, d + rest);
    ReadWordOf(a + b + c, |f.payload|, rest);
  }

  lemma LittleEndianLengths(f: WireFrame)
    ensures |LittleEndian(FRAME_MAGIC, 4)| == |LittleEndian(f.flags, 4)| == 4
    ensures |LittleEndian(f.seqNo, 4)| == |LittleEndian(|f.payload|, 4)| == 4
  {
  }

  /** An encoded frame followed by anything peels off exactly. */
  lemma FrameRoundTrip(f: WireFrame, rest: seq<Byte>)
    requires |f.payload| <= MAX_PAYLOAD
    ensures Peel(FrameBytes(f) + rest) == Ok((f, rest))
  {
    hide LittleEndian, ReadWord, Crc32, HeaderBytes;
    var body := HeaderBytes(f) + f.payload;
    TableIsDivision(body);
    var crc := Crc32(body);
    var s := FrameBytes(f) + rest;
    HeaderLength(f);
    Regrouped(HeaderBytes(f), f.payload, LittleEndian(crc, 4), rest);
    HeaderWords(f, f.payload + LittleEndian(crc, 4) + rest);
    assert |LittleEndian(crc, 4)| == 4 by { CrcLength(crc); }
    ReadWordOf(body, crc, rest);
  }

  lemma Regrouped(h: seq<Byte>, payload: seq<Byte>, crc: seq<Byte>, rest: seq<Byte>)
    ensures var s := h + payload + crc + rest;
      && s == h + (payload + crc + rest)
      && s[..|h| + |payload|] == h + payload && s[|h|..|h| + |payload|] == payload
      && s[|h| + |payload| + |crc|..] == rest
  {
  }

  lemma HeaderLength(f: WireFrame)
    ensures |HeaderBytes(f)| == HEADER_SIZE
  {
  }

  lemma CrcLength(crc: nat)
    ensures |LittleEndian(crc, 4)| == 4
  {
  }

  /** A burst of at most 32 bits anywhere in a frame, checksum included, is
      reported unless it changes the stored length: as a bad magic number if it
      touches that, as a bad checksum otherwise. */
  lemma BurstIsReported(f: WireFrame, received: seq<Byte>, p: nat, rest: seq<Byte>)
    requires |f.payload| <= MAX_PAYLOAD && Burst(FrameBytes(f), received, p)
    ensures ReadWord(received, 0) != FRAME_MAGIC ==> Peel(received + rest) == Err(BadMagic)
    ensures ReadWord(received, 0) == FRAME_MAGIC && ReadWord(received, 12) == |f.payload| ==>
      Peel(received + rest) == Err(BadChecksum)
  {
    var body := HeaderBytes(f) + f.payload;
    var n := |body|;
    var body', crc' := received[..n], ReadWord(received, n);
    assert FrameBytes(f) == body + LittleEndian(Crc32(body), 4);
    assert received == body' + LittleEndian(crc', 4) by {
      FromLittleEndianInverse(received[n..n + 4]);
      assert received[n..n + 4] == received[n..];
    }
    TrailerBurstsAreDetected(body, body', crc', p);
    hide ReadWord, Crc32, Burst, HeaderBytes;
    ReadWordExtend(received, rest, 0);
    ReadWordExtend(received, rest, 12);
    ReadWordExtend(received, rest, n);
    assert (received + rest)[..n] == body';
  }

  // ----- streaming -----

  /** More bytes never change a frame already complete, nor repair a corrupt one. */
  lemma PeelExtend(s: seq<Byte>, t: seq<Byte>)
    ensures Peel(s).Ok? ==> Peel(s + t) == Ok((Peel(s).value.0, Peel(s).value.1 + t))
    ensures Peel(s).Err? && Peel(s).code != Truncated ==> Peel(s + t) == Peel(s)
  {
    hide ReadWord, Crc32;
    if |s| >= MIN_FRAME_SIZE {
      ReadWordExtend(s, t, 0);
      ReadWordExtend(s, t, 4);
      ReadWordExtend(s, t, 8);
      ReadWordExtend(s, t, 12);
      var n := ReadWord(s, 12);
      if |s| >= HEADER_SIZE + n + CRC_SIZE {
        ReadWordExtend(s, t, HEADER_SIZE + n);
        assert (s + t)[..HEADER_SIZE + n] == s[..HEADER_SIZE + n];
        assert (s + t)[HEADER_SIZE..HEADER_SIZE + n] == s[HEADER_SIZE..HEADER_SIZE + n];
        assert (s + t)[HEADER_SIZE + n + CRC_SIZE..] == s[HEADER_SIZE + n + CRC_SIZE..] + t;
      }
    }
  }

  /** What a caller does to a decoder. */
  datatype Event = Feed(chunk: seq<Byte>) | Poll

  /** A decoder's unconsumed bytes and the frames it has delivered. */
  datatype Session = Session(pending: seq<Byte>, frames: seq<WireFrame>)

  function React(d: Session, e: Event): Session {
    match e
    case Feed(chunk) => d.(pending := d.pending + chunk)
    case Poll =>
      match Peel(d.pending)
      case Ok((f, rest)) => Session(rest, d.frames + [f])
      case Err(_) => d
  }

  function Play(d: Session, events: seq<Event>): Session
    decreases |events|
  {
    if events == [] then d else Play(React(d, events[0]), events[1..])
  }

  function Fed(events: seq<Event>): seq<Byte>
    decreases |events|
  {
    if events == [] then []
    else (if events[0].Feed? then events[0].chunk else []) + Fed(events[1..])
  }

  lemma PeelThenAll(s: seq<Byte>, t: seq<Byte>)
    requires Peel(s).Ok?
    ensures DecodeAll(s + t) == [Peel(s).value.0] + DecodeAll(Peel(s).value.1 + t)
  {
    hide Peel;
    PeelExtend(s, t);
  }

  /** However the stream is cut into chunks and whenever the decoder is polled,
      the frames delivered so far, followed by what one-shot decoding makes of
      the bytes still pending or to come, are the one-shot decoding of the
      whole stream. */
  lemma {:induction false} ChunkingIsIrrelevant(d: Session, events: seq<Event>, future: seq<Byte>)
    ensures var end := Play(d, events);
      end.frames + DecodeAll(end.pending + future) == d.frames + DecodeAll(d.pending + Fed(events) + future)
    decreases |events|
  {
    hide Peel, DecodeAll;
    if events == [] {
      assert d.pending + Fed(events) + future == d.pending + future;
    } else {
      var d1 := React(d, events[0]);
      ChunkingIsIrrelevant(d1, events[1..], future);
      match events[0] {
        case Feed(chunk) =>
          assert d.pending + Fed(events) + future == d1.pending + Fed(events[1..]) + future;
        case Poll =>
          assert Fed(events) == Fed(events[1..]);
          if Peel(d.pending).Ok? {
            var tail := Fed(events[1..]) + future;
            PeelThenAll(d.pending, tail);
            assert d.pending + Fed(events) + future == d.pending + tail;
            assert d1.pending + Fed(events[1..]) + future == d1.pending + tail;
            assert d.frames + ([Peel(d.pending).value.0] + DecodeAll(d1.pending + tail))
                == d.frames + [Peel(d.pending).value.0] + DecodeAll(d1.pending + tail);
          }
      }
    }
  }

  lemma DrainedIsEmpty(s: seq<Byte>)
    requires Peel(s).Err?
    ensures DecodeAll(s) == []
  {
  }

  /** From a fresh decoder: what is delivered is a prefix of the one-shot
      decoding, and all of it once polling reports an error. */
  lemma StreamingDecodesTheStream(events: seq<Event>)
    ensures var end := Play(Session([], []), events);
      && end.frames <= DecodeAll(Fed(events))
      && (Peel(end.pending).Err? ==> end.frames == DecodeAll(Fed(events)))
  {
    hide Peel, Play, Fed, DecodeAll;
    var end := Play(Session([], []), events);
    if Peel(end.pending).Err? {
      DrainedIsEmpty(end.pending);
    }
    ChunkingIsIrrelevant(Session([], []), events, []);
    assert [] + Fed(events) + [] == Fed(events) && end.pending + [] == end.pending;
    assert [] + DecodeAll(Fed(events)) == DecodeAll(Fed(events));
  }

  /** A corrupt frame is absorbing: no further bytes or polls deliver anything
      or change the error. */
  lemma {:induction false} CorruptionIsAbsorbing(d: Session, events: seq<Event>)
    requires Peel(d.pending).Err? && Peel(d.pending).code != Truncated
    ensures var end := Play(d, events);
      end.frames == d.frames && Peel(end.pending) == Peel(d.pending)
    decreases |events|
  {
    hide Peel;
    if events != [] {
      if events[0].Feed? {
        PeelExtend(d.pending, events[0].chunk);
      }
      CorruptionIsAbsorbing(React(d, events[0]), events[1..]);
    }
  }

  /** When HasFrame answers yes, polling does not ask for more bytes; when it
      answers no, polling asks for more unless the header is already bad. */
  lemma HasFrameMeaning(s: seq<Byte>)
    ensures FrameBuffered(s) ==> Peel(s) != Err(Truncated)
    ensures !FrameBuffered(s) ==>
      (Peel(s) == Err(Truncated) <==>
        |s| < MIN_FRAME_SIZE || (ReadWord(s, 0) == FRAME_MAGIC && ReadWord(s, 12) <= MAX_PAYLOAD))
  {
  }

  // ----- lists of frames -----

  datatype Message = Message(payload: seq<Byte>, flags: U32)

  /** What an encoder whose counter stands at next makes of the messages. */
  function FramesFrom(messages: seq<Message>, next: U32): (frames: seq<WireFrame>)
    ensures |frames| == |messages|
    decreases |messages|
  {
    if messages == [] then []
    else [WireFrame(next, messages[0].flags, messages[0].payload)] + FramesFrom(messages[1..], (next + 1) % TWO32)
  }

  lemma {:induction false} FramesNumbered(messages: seq<Message>, next: U32, i: nat)
    requires i < |messages|
    ensures FramesFrom(messages, next)[i] == WireFrame((next + i) % TWO32, messages[i].flags, messages[i].payload)
    decreases |messages|
  {
    if i > 0 {
      FramesNumbered(messages[1..], (next + 1) % TWO32, i - 1);
    }
  }

  function StreamBytes(frames: seq<WireFrame>): seq<Byte>
    decreases |frames|
  {
    if frames == [] then [] else FrameBytes(frames[0]) + StreamBytes(frames[1..])
  }

  lemma {:induction false} StreamRoundTrip(frames: seq<WireFrame>, rest: seq<Byte>)
    requires forall f :: f in frames ==> |f.payload| <= MAX_PAYLOAD
    ensures DecodeAll(StreamBytes(frames) + rest) == frames + DecodeAll(rest)
    decreases |frames|
  {
    hide Peel, FrameBytes;
    if frames == [] {
      assert StreamBytes(frames) + rest == rest;
    } else {
      var tail := StreamBytes(frames[1..]) + rest;
      assert StreamBytes(frames) + rest == FrameBytes(frames[0]) + tail;
      FrameRoundTrip(frames[0], tail);
      StreamRoundTrip(frames[1..], rest);
    }
  }

  /** Messages come back with their payloads and flags, numbered from the
      encoder's counter modulo 2^32. */
  lemma MessagesRoundTrip(messages: seq<Message>, next: U32)
    requires forall m :: m in messages ==> |m.payload| <= MAX_PAYLOAD
    ensures var frames := DecodeAll(StreamBytes(FramesFrom(messages, next)));
      && |frames| == |messages|
      && forall i :: 0 <= i < |messages| ==>
           frames[i] == WireFrame((next + i) % TWO32, messages[i].flags, messages[i].payload)
  {
    hide DecodeAll, StreamBytes;
    var frames := FramesFrom(messages, next);
    forall f | f in frames ensures |f.payload| <= MAX_PAYLOAD {
      var i :| 0 <= i < |frames| && frames[i] == f;
      FramesNumbered(messages, next, i);
      assert messages[i] in messages;
    }
    StreamRoundTrip(frames, []);
    assert StreamBytes(frames) + [] == StreamBytes(frames);
    DrainedIsEmpty([]);
    assert frames + [] == frames;
    forall i | 0 <= i < |messages| ensures frames[i] == WireFrame((next + i) % TWO32, messages[i].flags, messages[i].payload) {
      FramesNumbered(messages, next, i);
    }
  }

  // ----- the encoder -----

  class WireEncoder {
    var nextSeq: U32
    var buf: seq<Byte>

    constructor ()
      ensures nextSeq == 0 && buf == []
    {
      nextSeq := 0;
      buf := [];
    }

    /** Append one frame; an oversized payload is refused and nothing changes. */
    method EncodeFrame(payload: seq<Byte>, flags: U32) returns (ok: bool)
      modifies this
      ensures ok <==> |payload| <= MAX_PAYLOAD
      ensures ok ==> buf == old(buf) + FrameBytes(WireFrame(old(nextSeq), flags, payload))
      ensures ok ==> nextSeq == (old(nextSeq) + 1) % TWO32
      ensures !ok ==> buf == old(buf) && nextSeq == old(nextSeq)
    {
      hide LittleEndian;
      if |payload| > MAX_PAYLOAD {
        return false;
      }
      ghost var f := WireFrame(nextSeq, flags, payload);
      var frame := LittleEndian(FRAME_MAGIC, 4) + LittleEndian(flags, 4) + LittleEndian(nextSeq, 4)
        + LittleEndian(|payload|, 4) + payload;
      assert frame == HeaderBytes(f) + payload;
      var crc := WireCrc32(frame);
      buf := buf + (frame + LittleEndian(crc, 4));
      nextSeq := (nextSeq + 1) % TWO32;
      return true;
    }

    method EncodeEos()
      modifies this
      ensures buf == old(buf) + FrameBytes(WireFrame(old(nextSeq), END_OF_STREAM, []))
      ensures nextSeq == (old(nextSeq) + 1) % TWO32
    {
      var ok := EncodeFrame([], END_OF_STREAM);
    }

    /** Hand over the buffered bytes; the numbering goes on. */
    method Take() returns (out: seq<Byte>)
      modifies this
      ensures out == old(buf) && buf == [] && nextSeq == old(nextSeq)
    {
      out := buf;
      buf := [];
    }
  }

  // ----- the decoder -----

  class WireDecoder {
    var buf: seq<Byte>
    var pos: nat

    ghost predicate Valid()
      reads this
    {
      pos <= |buf|
    }

    ghost function Pending(): seq<Byte>
      requires Valid()
      reads this
    {
      buf[pos..]
    }

    constructor ()
      ensures Valid() && Pending() == []
    {
      buf := [];
      pos := 0;
    }

    method Feed(data: seq<Byte>)
      requires Valid()
      modifies this
      ensures Valid() && Pending() == old(Pending()) + data
    {
      buf := buf + data;
    }

    method Reset()
      modifies this
      ensures Valid() && Pending() == [] && buf == []
    {
      buf := [];
      pos := 0;
    }

    method PendingBytes() returns (n: nat)
      requires Valid()
      ensures n == |Pending()|
    {
      return |buf| - pos;
    }

    /** Drop a consumed prefix that has grown to half the buffer. What is left
        is at most twice the pending bytes, and the pending bytes are untouched. */
    method MaybeCompact()
      requires Valid()
      modifies this
      ensures Valid() && Pending() == old(Pending())
      ensures |buf| <= 2 * |Pending()|
      ensures pos == 0 || (buf == old(buf) && pos == old(pos))
    {
      if pos > 0 && pos >= |buf| / 2 {
        buf := buf[pos..];
        pos := 0;
      }
    }

    method HasFrame() returns (yes: bool)
      requires Valid()
      ensures yes == FrameBuffered(Pending())
    {
      if |buf| - pos < MIN_FRAME_SIZE {
        return false;
      }
      assert Pending()[12..16] == buf[pos + 12..pos + 16];
      var n := ReadWord(buf, pos + 12);
      return |buf| - pos >= HEADER_SIZE + n + CRC_SIZE;
    }

    /** Deliver the next frame and consume it, or say why not and consume nothing. */
    method NextFrame() returns (r: Result<WireFrame>)
      requires Valid()
      modifies this
      ensures Valid()
      ensures match Peel(old(Pending()))
              case Ok(pair) => r == Ok(pair.0) && Pending() == pair.1
              case Err(code) => r == Err(code) && Pending() == old(Pending())
    {
      MaybeCompact();
      ghost var s := Pending();
      if |buf| - pos < MIN_FRAME_SIZE {
        return Err(Truncated);
      }
      var magic := WordAt(0);
      if magic != FRAME_MAGIC {
        return Err(BadMagic);
      }
      var flags := WordAt(4);
      var seqNo := WordAt(8);
      var n := WordAt(12);
      if n > MAX_PAYLOAD {
        return Err(LimitExceeded);
      }
      var total := HEADER_SIZE + n + CRC_SIZE;
      if |buf| - pos < total {
        return Err(Truncated);
      }
      assert buf[pos..pos + HEADER_SIZE + n] == s[..HEADER_SIZE + n];
      var computed := WireCrc32(buf[pos..pos + HEADER_SIZE + n]);
      var stored := WordAt(HEADER_SIZE + n);
      if computed != stored {
        return Err(BadChecksum);
      }
      var payload := buf[pos + HEADER_SIZE..pos + HEADER_SIZE + n];
      assert payload == s[HEADER_SIZE..HEADER_SIZE + n];
      assert buf[pos + total..] == s[total..];
      pos := pos + total;
      return Ok(WireFrame(seqNo, flags, payload));
    }

    method WordAt(offset: nat) returns (w: U32)
      requires Valid() && pos + offset + 4 <= |buf|
      ensures w == ReadWord(Pending(), offset)
    {
      assert buf[pos + offset..pos + offset + 4] == Pending()[offset..offset + 4];
      return ReadWord(buf, pos + offset);
    }
  }

  /** Drive a real decoder through a list of feeds and polls: its pending bytes
      and the frames it delivers are the session's. */
  method Drive(d: WireDecoder, events: seq<Event>) returns (frames: seq<WireFrame>)
    requires d.Valid()
    modifies d
    ensures d.Valid() && Session(d.Pending(), frames) == Play(Session(old(d.Pending()), []), events)
  {
    hide Peel;
    frames := [];
    var i := 0;
    assert events[0..] == events;
    while i < |events|
      invariant 0 <= i <= |events| && d.Valid()
      invariant Play(Session(d.Pending(), frames), events[i..]) == Play(Session(old(d.Pending()), []), events)
    {
      assert events[i..][0] == events[i] && events[i..][1..] == events[i + 1..];
      match events[i] {
        case Feed(chunk) => d.Feed(chunk);
        case Poll =>
          var r := d.NextFrame();
          if r.Ok? {
            frames := frames + [r.value];
          }
      }
      i := i + 1;
    }
  }

  /** A fresh decoder, however it is fed and polled, delivers a prefix of the
      one-shot decoding of the stream, and all of it once it has drained. */
  method DecodeStream(events: seq<Event>) returns (frames: seq<WireFrame>, drained: bool)
    ensures frames <= DecodeAll(Fed(events))
    ensures drained ==> frames == DecodeAll(Fed(events))
  {
    hide Peel, DecodeAll, Play, Fed;
    var d := new WireDecoder();
    frames := Drive(d, events);
    StreamingDecodesTheStream(events);
    ghost var pending := d.Pending();
    var next := d.NextFrame();
    drained := next.Err?;
  }
}

/** The Shadowsocks AEAD byte stream of `src/protocol/shadowsocks.ts`, as functions on values:
    what the sender puts on the wire, and what the receiver has made of the bytes it was given. */
module ShadowsocksFraming {
  import opened Common
  import opened Nonces

  const MAX_PART: nat := 0x3fff
  const TAG_LENGTH: nat := 16

  /** The cipher in use, left abstract: key derivation, sealing and opening (`None` is a failed tag). */
  datatype Crypto = Crypto(
    saltLength: nat,
    derive: bytes -> bytes,
    seal: (bytes, bytes, bytes) -> bytes,
    open: (bytes, bytes, bytes) -> Option<bytes>)

  /** What is assumed of the cipher: opening undoes sealing, and sealing adds one tag. */
  ghost predicate Sound(c: Crypto) {
    && (forall k: bytes, n: bytes, p: bytes :: |c.seal(k, n, p)| == |p| + TAG_LENGTH)
    && (forall k: bytes, n: bytes, p: bytes :: c.open(k, n, c.seal(k, n, p)) == Some(p))
  }

  // ---------------------------------------------------------------- sender

  /** The parts of at most 0x3fff bytes that one write is cut into. */
  function Cut(payload: bytes): (parts: seq<bytes>)
    ensures forall i :: 0 <= i < |parts| ==> 0 < |parts[i]| <= 0x3fff
  {
    if |payload| == 0 then []
    else if |payload| <= MAX_PART then [payload]
    else [payload[..MAX_PART]] + Cut(payload[MAX_PART..])
  }

  lemma {:induction false} CutFlatten(payload: bytes)
    ensures Flatten(Cut(payload)) == payload
  {
    if |payload| == 0 {
    } else if |payload| <= MAX_PART {
      assert Flatten([payload]) == payload + Flatten([payload][1..]);
    } else {
      CutFlatten(payload[MAX_PART..]);
      assert Cut(payload)[1..] == Cut(payload[MAX_PART..]);
    }
  }

  /** Only the last part of a cut may be short. */
  lemma {:induction false} CutIsFull(payload: bytes, i: nat)
    requires i + 1 < |Cut(payload)|
    ensures |Cut(payload)[i]| == 0x3fff
  {
    if i != 0 {
      CutIsFull(payload[0x3fff..], i - 1);
    }
  }

  function LengthBytes(n: nat): (r: bytes)
    requires n < 0x10000
    ensures |r| == 2
  {
    [n / 256, n % 256]
  }

  function ReadUInt16BE(b: bytes): (r: nat)
    requires 2 <= |b|
    ensures r < 0x10000
  {
    var high: int, low: int := b[0], b[1];
    high * 256 + low
  }

  /** One frame: the sealed length under nonce n, then the sealed part under nonce n + 1. */
  function SealPart(c: Crypto, key: bytes, n: nat, part: bytes): bytes
    requires |part| < 0x10000
  {
    c.seal(key, NonceAt(n), LengthBytes(|part|)) + c.seal(key, NonceAt(n + 1), part)
  }

  ghost predicate Framable(parts: seq<bytes>) {
    forall i :: 0 <= i < |parts| ==> 0 < |parts[i]| < 0x10000
  }

  function SealParts(c: Crypto, key: bytes, n: nat, parts: seq<bytes>): bytes
    requires Framable(parts)
    decreases |parts|
  {
    if parts == [] then []
    else SealPart(c, key, n, parts[0]) + SealParts(c, key, n + 2, parts[1..])
  }

  lemma {:induction false} SealPartsAppend(c: Crypto, key: bytes, n: nat, m: nat, a: seq<bytes>, b: seq<bytes>)
    requires Framable(a) && Framable(b) && m == n + 2 * |a|
    ensures SealParts(c, key, n, a + b) == SealParts(c, key, n, a) + SealParts(c, key, m, b)
    decreases |a|
  {
    if a == [] {
      assert a + b == b;
    } else {
      SealPartsAppend(c, key, n + 2, m, a[1..], b);
      assert (a + b)[1..] == a[1..] + b;
      AppendAssoc(SealPart(c, key, n, a[0]), SealParts(c, key, n + 2, a[1..]), SealParts(c, key, m, b));
    }
  }

  /** The parts sealed by a sequence of writes; the prefix is put in front of the first write only. */
  function PartsOf(prefix: bytes, writes: seq<bytes>): (parts: seq<bytes>)
    ensures forall i :: 0 <= i < |parts| ==> 0 < |parts[i]| <= 0x3fff
  {
    if writes == [] then []
    else if |writes| == 1 then Cut(prefix + writes[0])
    else PartsOf(prefix, writes[..|writes| - 1]) + Cut(writes[|writes| - 1])
  }

  lemma PartsGrow(prefix: bytes, writes: seq<bytes>, chunk: bytes)
    ensures PartsOf(prefix, writes + [chunk])
         == PartsOf(prefix, writes) + Cut(if writes == [] then prefix + chunk else chunk)
  {
    var all := writes + [chunk];
    assert all[..|all| - 1] == writes;
  }

  /** Cutting into frames loses, duplicates and reorders nothing. */
  lemma {:induction false} PartsFlatten(prefix: bytes, writes: seq<bytes>)
    requires writes != []
    ensures Flatten(PartsOf(prefix, writes)) == prefix + Flatten(writes)
  {
    var before, chunk := writes[..|writes| - 1], writes[|writes| - 1];
    assert before + [chunk] == writes;
    PartsGrow(prefix, before, chunk);
    FlattenSnoc(before, chunk);
    if before == [] {
      CutFlatten(prefix + chunk);
    } else {
      PartsFlatten(prefix, before);
      CutFlatten(chunk);
      FlattenAppend(PartsOf(prefix, before), Cut(chunk));
      AppendAssoc(prefix, Flatten(before), chunk);
    }
  }

  /** Everything a sender has put on the wire after these writes: its salt, then its frames. */
  function Wire(c: Crypto, salt: bytes, prefix: bytes, writes: seq<bytes>): bytes {
    salt + SealParts(c, c.derive(salt), 0, PartsOf(prefix, writes))
  }

  // -------------------------------------------------------------- receiver

  datatype Phase = AwaitSalt | AwaitLength(key: bytes) | AwaitPayload(key: bytes, size: nat) | Destroyed

  /** The receiver: what it waits for, the bytes not yet used, its nonce, and what it has pushed so far. */
  datatype Receiver = Receiver(phase: Phase, buffer: bytes, nonce: bytes, pushed: seq<bytes>)

  const FRESH: Receiver := Receiver(AwaitSalt, [], NonceAt(0), [])

  function Dead(pushed: seq<bytes>): Receiver {
    Receiver(Destroyed, [], [], pushed)
  }

  /** Whether enough bytes are there to go on. */
  predicate Ready(c: Crypto, s: Receiver) {
    match s.phase
    case AwaitSalt => c.saltLength <= |s.buffer|
    case AwaitLength(_) => 2 + TAG_LENGTH <= |s.buffer|
    case AwaitPayload(_, size) => size + TAG_LENGTH <= |s.buffer|
    case Destroyed => false
  }

  function Step(c: Crypto, s: Receiver): Receiver
    requires Ready(c, s)
  {
    match s.phase
    case AwaitSalt =>
      Receiver(AwaitLength(c.derive(s.buffer[..c.saltLength])), s.buffer[c.saltLength..], s.nonce, s.pushed)
    case AwaitLength(key) =>
      (match c.open(key, s.nonce, s.buffer[..2 + TAG_LENGTH])
       case Some(plain) =>
         if |plain| < 2 then Dead(s.pushed)
         else Receiver(AwaitPayload(key, ReadUInt16BE(plain)), s.buffer[2 + TAG_LENGTH..], Increment(s.nonce), s.pushed)
       case None => Dead(s.pushed))
    case AwaitPayload(key, size) =>
      (match c.open(key, s.nonce, s.buffer[..size + TAG_LENGTH])
       case Some(plain) =>
         Receiver(AwaitLength(key), s.buffer[size + TAG_LENGTH..], Increment(s.nonce),
                  if |plain| > 0 then s.pushed + [plain] else s.pushed)
       case None => Dead(s.pushed))
  }

  /** Goes on as long as it can. */
  function Drain(c: Crypto, s: Receiver): Receiver
    decreases s.phase.AwaitSalt?, |s.buffer|
  {
    if Ready(c, s) then Drain(c, Step(c, s)) else s
  }

  function Append(s: Receiver, chunk: bytes): Receiver {
    if s.phase.Destroyed? then s else s.(buffer := s.buffer + chunk)
  }

  /** One `data` event. A destroyed stream gets none. */
  function Feed(c: Crypto, s: Receiver, chunk: bytes): Receiver {
    Drain(c, Append(s, chunk))
  }

  function FeedAll(c: Crypto, s: Receiver, chunks: seq<bytes>): Receiver
    decreases |chunks|
  {
    if chunks == [] then s else FeedAll(c, Feed(c, s, chunks[0]), chunks[1..])
  }

  lemma DrainWaits(c: Crypto, s: Receiver)
    requires !Ready(c, s)
    ensures Drain(c, s) == s
  {
  }

  lemma DrainMoves(c: Crypto, s: Receiver)
    requires Ready(c, s)
    ensures Drain(c, s) == Drain(c, Step(c, s))
  {
  }

  // -------------------------------------------- fragmentation independence

  /** Bytes that arrive later do not change a step that could already be taken. */
  lemma StepAppend(c: Crypto, s: Receiver, x: bytes)
    requires Ready(c, s)
    ensures Ready(c, Append(s, x)) && Step(c, Append(s, x)) == Append(Step(c, s), x)
  {
    var t := s.buffer + x;
    var n := match s.phase
      case AwaitSalt => c.saltLength
      case AwaitLength(_) => 2 + TAG_LENGTH
      case AwaitPayload(_, size) => size + TAG_LENGTH
      case Destroyed => 0;
    assert t[..n] == s.buffer[..n] && t[n..] == s.buffer[n..] + x;
  }

  lemma {:induction false} DrainAppend(c: Crypto, s: Receiver, x: bytes)
    ensures Drain(c, Append(Drain(c, s), x)) == Drain(c, Append(s, x))
    decreases s.phase.AwaitSalt?, |s.buffer|
  {
    if Ready(c, s) {
      StepAppend(c, s, x);
      DrainAppend(c, Step(c, s), x);
    }
  }

  /** Two chunks in a row act as their concatenation in one chunk. */
  lemma FeedTwice(c: Crypto, s: Receiver, a: bytes, b: bytes)
    ensures Feed(c, Feed(c, s, a), b) == Feed(c, s, a + b)
  {
    hide Drain;
    DrainAppend(c, Append(s, a), b);
    assert s.buffer + a + b == s.buffer + (a + b);
  }

  /** From a receiver that is waiting, the state after any list of chunks is a function of their concatenation. */
  lemma {:induction false} FragmentationIndependent(c: Crypto, s: Receiver, chunks: seq<bytes>)
    requires !Ready(c, s)
    ensures FeedAll(c, s, chunks) == Feed(c, s, Flatten(chunks))
    ensures !Ready(c, FeedAll(c, s, chunks))
    decreases |chunks|
  {
    if chunks == [] {
      assert s.buffer + [] == s.buffer;
    } else {
      var next := Feed(c, s, chunks[0]);
      DrainStops(c, Append(s, chunks[0]));
      FragmentationIndependent(c, next, chunks[1..]);
      FeedTwice(c, s, chunks[0], Flatten(chunks[1..]));
    }
  }

  lemma {:induction false} DrainStops(c: Crypto, s: Receiver)
    ensures !Ready(c, Drain(c, s))
    decreases s.phase.AwaitSalt?, |s.buffer|
  {
    if Ready(c, s) {
      DrainStops(c, Step(c, s));
    }
  }

  // ------------------------------------------------------------ round trip

  /** A whole frame at the head of the buffer is opened, pushed and removed, and costs two nonces. */
  lemma FrameOpens(c: Crypto, key: bytes, n: nat, part: bytes, rest: bytes, pushed: seq<bytes>)
    requires Sound(c) && 0 < |part| < 0x10000
    ensures Drain(c, Receiver(AwaitLength(key), SealPart(c, key, n, part) + rest, NonceAt(n), pushed))
         == Drain(c, Receiver(AwaitLength(key), rest, NonceAt(n + 2), pushed + [part]))
  {
    var head, body := c.seal(key, NonceAt(n), LengthBytes(|part|)), c.seal(key, NonceAt(n + 1), part);
    var s0 := Receiver(AwaitLength(key), SealPart(c, key, n, part) + rest, NonceAt(n), pushed);
    assert s0.buffer == head + (body + rest);
    var s1 := Receiver(AwaitPayload(key, |part|), body + rest, NonceAt(n + 1), pushed);
    assert Step(c, s0) == s1 by {
      LengthOpens(c, key, n, part, body + rest, pushed);
    }
    assert s1.buffer[..|part| + TAG_LENGTH] == body && s1.buffer[|part| + TAG_LENGTH..] == rest;
    assert Step(c, s1) == Receiver(AwaitLength(key), rest, NonceAt(n + 2), pushed + [part]);
  }

  lemma LengthOpens(c: Crypto, key: bytes, n: nat, part: bytes, rest: bytes, pushed: seq<bytes>)
    requires Sound(c) && |part| < 0x10000
    ensures var head := c.seal(key, NonceAt(n), LengthBytes(|part|));
      var s := Receiver(AwaitLength(key), head + rest, NonceAt(n), pushed);
      Ready(c, s) && Step(c, s) == Receiver(AwaitPayload(key, |part|), rest, NonceAt(n + 1), pushed)
  {
    var head := c.seal(key, NonceAt(n), LengthBytes(|part|));
    var t := head + rest;
    assert t[..2 + TAG_LENGTH] == head && t[2 + TAG_LENGTH..] == rest;
  }

  lemma {:induction false} FramesOpen(c: Crypto, key: bytes, n: nat, m: nat, parts: seq<bytes>, rest: bytes,
                                      pushed: seq<bytes>, all: seq<bytes>)
    requires Sound(c) && Framable(parts)
    requires m == n + 2 * |parts| && all == pushed + parts
    ensures Drain(c, Receiver(AwaitLength(key), SealParts(c, key, n, parts) + rest, NonceAt(n), pushed))
         == Drain(c, Receiver(AwaitLength(key), rest, NonceAt(m), all))
    decreases |parts|
  {
    if parts == [] {
      assert [] + rest == rest && all == pushed;
    } else {
      var part, later, more := parts[0], parts[1..], pushed + [parts[0]];
      FirstFrameOpens(c, key, n, parts, later, rest, pushed);
      OnePartMore(pushed, parts, all, part, later);
      FramesOpen(c, key, n + 2, m, later, rest, more, all);
    }
  }

  lemma FirstFrameOpens(c: Crypto, key: bytes, n: nat, parts: seq<bytes>, later: seq<bytes>, rest: bytes,
                        pushed: seq<bytes>)
    requires Sound(c) && Framable(parts) && parts != [] && later == parts[1..]
    ensures Drain(c, Receiver(AwaitLength(key), SealParts(c, key, n, parts) + rest, NonceAt(n), pushed))
         == Drain(c, Receiver(AwaitLength(key), SealParts(c, key, n + 2, later) + rest, NonceAt(n + 2),
                              pushed + [parts[0]]))
  {
    var frame, tail := SealPart(c, key, n, parts[0]), SealParts(c, key, n + 2, later);
    AppendAssoc(frame, tail, rest);
    FrameOpens(c, key, n, parts[0], tail + rest, pushed);
  }

  lemma OnePartMore(pushed: seq<bytes>, parts: seq<bytes>, all: seq<bytes>, part: bytes, later: seq<bytes>)
    requires parts != [] && part == parts[0] && later == parts[1..] && all == pushed + parts
    ensures all == (pushed + [part]) + later
  {
    assert parts == [part] + later;
  }

  /** What a fresh receiver holds after salt, whole frames, and a rest. */
  lemma SaltThenFrames(c: Crypto, salt: bytes, parts: seq<bytes>, rest: bytes)
    requires Sound(c) && Framable(parts) && |salt| == c.saltLength
    ensures var key := c.derive(salt);
      Feed(c, FRESH, salt + SealParts(c, key, 0, parts) + rest)
      == Drain(c, Receiver(AwaitLength(key), rest, NonceAt(2 * |parts|), parts))
  {
    hide SealParts, Drain, Feed, NonceAt, Sound;
    var key := c.derive(salt);
    var frames := SealParts(c, key, 0, parts);
    var none: seq<bytes> := [];
    SaltInFront(c, salt, frames, rest);
    assert parts == none + parts;
    FramesOpen(c, key, 0, 2 * |parts|, parts, rest, none, parts);
  }

  lemma SaltInFront(c: Crypto, salt: bytes, frames: bytes, rest: bytes)
    requires |salt| == c.saltLength
    ensures Feed(c, FRESH, salt + frames + rest)
         == Drain(c, Receiver(AwaitLength(c.derive(salt)), frames + rest, NonceAt(0), []))
  {
    AppendAssoc(salt, frames, rest);
    SaltIsRead(c, salt, frames + rest);
  }

  lemma SaltIsRead(c: Crypto, salt: bytes, rest: bytes)
    requires |salt| == c.saltLength
    ensures Feed(c, FRESH, salt + rest) == Drain(c, Receiver(AwaitLength(c.derive(salt)), rest, NonceAt(0), []))
  {
    var wire := salt + rest;
    assert [] + wire == wire;
    assert wire[..|salt|] == salt && wire[|salt|..] == rest;
  }

  /** Main result: whatever the writes, and however the wire bytes are cut into chunks, the receiver
      pushes exactly the prefix followed by everything written, and ends waiting for the next frame
      with the nonce the sender will use for it. */
  lemma RoundTrip(c: Crypto, salt: bytes, prefix: bytes, writes: seq<bytes>, chunks: seq<bytes>)
    requires Sound(c) && 0 < |salt| == c.saltLength && writes != []
    requires Flatten(chunks) == Wire(c, salt, prefix, writes)
    ensures var parts := PartsOf(prefix, writes);
      && FeedAll(c, FRESH, chunks) == Receiver(AwaitLength(c.derive(salt)), [], NonceAt(2 * |parts|), parts)
      && Flatten(parts) == prefix + Flatten(writes)
  {
    var parts := PartsOf(prefix, writes);
    FragmentationIndependent(c, FRESH, chunks);
    SaltThenFrames(c, salt, parts, []);
    assert Wire(c, salt, prefix, writes) + [] == Wire(c, salt, prefix, writes);
    PartsFlatten(prefix, writes);
  }

  /** How many frames lie wholly inside the first `available` bytes after the salt. */
  function CompleteFrames(parts: seq<bytes>, available: int): (n: nat)
    ensures n <= |parts|
  {
    if parts == [] || available < FrameLength(parts[0]) then 0
    else 1 + CompleteFrames(parts[1..], available - FrameLength(parts[0]))
  }

  function FrameLength(part: bytes): nat {
    2 + TAG_LENGTH + |part| + TAG_LENGTH
  }

  lemma SealPartLength(c: Crypto, key: bytes, n: nat, part: bytes)
    requires Sound(c) && |part| < 0x10000
    ensures |SealPart(c, key, n, part)| == FrameLength(part)
  {
  }

  /** The first `available` bytes of the frames are the complete frames and a proper beginning of the next. */
  lemma {:induction false} SplitAtFrame(c: Crypto, key: bytes, n: nat, parts: seq<bytes>, available: nat)
    returns (whole: nat, rest: bytes)
    requires Sound(c) && Framable(parts) && available <= |SealParts(c, key, n, parts)|
    ensures whole == CompleteFrames(parts, available)
    ensures SealParts(c, key, n, parts)[..available] == SealParts(c, key, n, parts[..whole]) + rest
    ensures if whole == |parts| then rest == []
            else rest < SealPart(c, key, n + 2 * whole, parts[whole])
    decreases |parts|
  {
    hide SealPart;
    if parts == [] {
      return 0, [];
    }
    var frame, tail := SealPart(c, key, n, parts[0]), SealParts(c, key, n + 2, parts[1..]);
    SealPartLength(c, key, n, parts[0]);
    if available < FrameLength(parts[0]) {
      assert (frame + tail)[..available] == frame[..available];
      return 0, frame[..available];
    }
    var below, r := SplitAtFrame(c, key, n + 2, parts[1..], available - |frame|);
    whole, rest := 1 + below, r;
    assert (frame + tail)[..available] == frame + tail[..available - |frame|];
    assert parts[..whole][1..] == parts[1..][..below];
    AppendAssoc(frame, SealParts(c, key, n + 2, parts[1..][..below]), rest);
  }

  /** Main result: after any beginning of the wire, in any chunks, exactly the frames that have wholly
      arrived have been pushed, and the receiver's nonce is 2i when it waits for frame i's length and
      2i + 1 when it stopped between that length and the payload. */
  lemma EveryCompleteFrameIsOut(c: Crypto, salt: bytes, prefix: bytes, writes: seq<bytes>, received: nat,
                                chunks: seq<bytes>)
    requires Sound(c) && 0 < |salt| == c.saltLength
    requires received <= |Wire(c, salt, prefix, writes)|
    requires Flatten(chunks) == Wire(c, salt, prefix, writes)[..received]
    ensures var s, parts := FeedAll(c, FRESH, chunks), PartsOf(prefix, writes);
      var i := CompleteFrames(parts, received - |salt|);
      && s.pushed == parts[..i]
      && match s.phase
         case AwaitSalt => received < |salt| && s.nonce == NonceAt(0)
         case AwaitLength(key) => key == c.derive(salt) && s.nonce == NonceAt(2 * i)
         case AwaitPayload(key, size) =>
           key == c.derive(salt) && i < |parts| && size == |parts[i]| && s.nonce == NonceAt(2 * i + 1)
         case Destroyed => false
  {
    hide Flatten, SealParts, NonceAt, FrameLength;
    var parts := PartsOf(prefix, writes);
    var got := Wire(c, salt, prefix, writes)[..received];
    FragmentationIndependent(c, FRESH, chunks);
    if received < |salt| {
      SaltIncomplete(c, got);
      assert CompleteFrames(parts, received - |salt|) == 0;
    } else {
      assert got == salt + SealParts(c, c.derive(salt), 0, parts)[..received - |salt|];
      SaltAndPartOfFrames(c, salt, parts, received - |salt|);
    }
  }

  lemma SaltIncomplete(c: Crypto, got: bytes)
    requires |got| < c.saltLength
    ensures Feed(c, FRESH, got) == FRESH.(buffer := got)
  {
    assert [] + got == got;
  }

  lemma SaltAndPartOfFrames(c: Crypto, salt: bytes, parts: seq<bytes>, available: nat)
    requires Sound(c) && |salt| == c.saltLength && Framable(parts)
    requires available <= |SealParts(c, c.derive(salt), 0, parts)|
    ensures var key := c.derive(salt);
      var s := Feed(c, FRESH, salt + SealParts(c, key, 0, parts)[..available]);
      var i := CompleteFrames(parts, available);
      && s.pushed == parts[..i]
      && ((s.phase == AwaitLength(key) && s.nonce == NonceAt(2 * i))
          || (i < |parts| && s.phase == AwaitPayload(key, |parts[i]|) && s.nonce == NonceAt(2 * i + 1)))
  {
    hide SealPart, Increment;
    var key := c.derive(salt);
    var i, rest := SplitAtFrame(c, key, 0, parts, available);
    var whole := parts[..i];
    AppendAssoc(salt, SealParts(c, key, 0, whole), rest);
    SaltThenFrames(c, salt, whole, rest);
    if i < |parts| {
      PartialFrame(c, key, 2 * i, parts[i], rest, whole);
    }
  }

  /** A proper beginning of a frame pushes nothing; it may use up the nonce of the length. */
  lemma PartialFrame(c: Crypto, key: bytes, n: nat, part: bytes, rest: bytes, pushed: seq<bytes>)
    requires Sound(c) && |part| < 0x10000 && rest < SealPart(c, key, n, part)
    ensures var s := Drain(c, Receiver(AwaitLength(key), rest, NonceAt(n), pushed));
      && s.pushed == pushed
      && ((s.phase == AwaitLength(key) && s.nonce == NonceAt(n))
          || (s.phase == AwaitPayload(key, |part|) && s.nonce == NonceAt(n + 1)))
  {
    var head := c.seal(key, NonceAt(n), LengthBytes(|part|));
    SealPartLength(c, key, n, part);
    if 2 + TAG_LENGTH <= |rest| {
      assert rest == head + rest[|head|..];
      LengthOpens(c, key, n, part, rest[|head|..], pushed);
    }
  }
}

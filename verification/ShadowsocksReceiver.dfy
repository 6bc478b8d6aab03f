/** What the receiver of `ShadowsocksFraming` has done with any bytes at all, genuine or not, said of the bytes
    alone. */
module ShadowsocksReceivers {
  import opened Common
  import opened Nonces
  import opened ShadowsocksFraming

  /** Two sealed blocks as they stood in the stream, and what the second one opened to. */
  datatype Frame = Frame(head: bytes, body: bytes, part: bytes)

  /** The size a length block announces, if it opens under the n-th nonce to at least two bytes. */
  function Announced(c: Crypto, key: bytes, n: nat, head: bytes): Option<nat> {
    match c.open(key, NonceAt(n), head)
    case None => None
    case Some(plain) =>
      if |plain| < 2 then None
      else
        var high: int, low: int := plain[0], plain[1];
        Some(256 * high + low)
  }

  /** The frame opens under the nonces n and n + 1. */
  ghost predicate Genuine(c: Crypto, key: bytes, n: nat, f: Frame) {
    && |f.head| == 2 + 16
    && 16 <= |f.body|
    && Announced(c, key, n, f.head) == Some(|f.body| - 16)
    && c.open(key, NonceAt(n + 1), f.body) == Some(f.part)
  }

  ghost predicate AllGenuine(c: Crypto, key: bytes, n: nat, frames: seq<Frame>) {
    forall j :: 0 <= j < |frames| ==> Genuine(c, key, n + 2 * j, frames[j])
  }

  function Joined(frames: seq<Frame>): bytes {
    if frames == [] then [] else frames[0].head + frames[0].body + Joined(frames[1..])
  }

  /** What the frames opened to, without the empty parts. */
  function Parts(frames: seq<Frame>): seq<bytes> {
    if frames == [] then []
    else (if frames[0].part == [] then [] else [frames[0].part]) + Parts(frames[1..])
  }

  /** Why the receiver stopped where it did, in the bytes that follow the whole frames. */
  ghost predicate Stopped(c: Crypto, key: bytes, n: nat, rest: bytes, s: Receiver) {
    match s.phase
    case AwaitSalt => false
    case AwaitLength(k) => k == key && |rest| < 2 + 16 && s.buffer == rest && s.nonce == NonceAt(n)
    case AwaitPayload(k, size) =>
      && k == key && 2 + 16 <= |rest| < 2 + 16 + size + 16 && Announced(c, key, n, rest[..18]) == Some(size)
      && s.buffer == rest[18..] && s.nonce == NonceAt(n + 1)
    case Destroyed =>
      && 2 + 16 <= |rest|
      && match Announced(c, key, n, rest[..18])
         case None => true
         case Some(size) =>
           18 + size + 16 <= |rest| && c.open(key, NonceAt(n + 1), rest[18..18 + size + 16]) == None
  }

  /** The receiver has read these frames out of the bytes, and stopped for a good reason. */
  ghost predicate HasRead(c: Crypto, key: bytes, n: nat, got: bytes, frames: seq<Frame>, rest: bytes,
                          pushed: seq<bytes>, s: Receiver) {
    && AllGenuine(c, key, n, frames)
    && got == Joined(frames) + rest
    && s.pushed == pushed + Parts(frames)
    && Stopped(c, key, n + 2 * |frames|, rest, s)
  }

  /** One turn of the frame loop: it stops, or it takes one frame off the bytes. */
  lemma ReadsFrame(c: Crypto, key: bytes, n: nat, got: bytes, pushed: seq<bytes>)
    returns (f: Option<Frame>, rest: bytes)
    ensures var s := Drain(c, Receiver(AwaitLength(key), got, NonceAt(n), pushed));
      match f
      case None => rest == got && s.pushed == pushed && Stopped(c, key, n, got, s)
      case Some(f) =>
        && Genuine(c, key, n, f) && got == f.head + f.body + rest && |rest| < |got|
        && s == Drain(c, Receiver(AwaitLength(key), rest, NonceAt(n + 2), pushed + Parts([f])))
  {
    hide Drain;
    var s0 := Receiver(AwaitLength(key), got, NonceAt(n), pushed);
    if !Ready(c, s0) {
      DrainWaits(c, s0);
      return None, got;
    }
    DrainMoves(c, s0);
    var s1 := Step(c, s0);
    if !Ready(c, s1) {
      DrainWaits(c, s1);
      return None, got;
    }
    DrainMoves(c, s1);
    var size, later := s1.phase.size, got[18..];
    var body := later[..size + 16];
    assert body == got[18..18 + size + 16];
    match c.open(key, NonceAt(n + 1), body) {
      case None =>
        DrainWaits(c, Dead(pushed));
        return None, got;
      case Some(part) =>
        f, rest := Some(Frame(got[..18], body, part)), later[size + 16..];
        assert got == got[..18] + body + rest;
        assert Parts([f.value]) == if part == [] then [] else [part];
        assert pushed + [] == pushed;
    }
  }

  lemma {:induction false} ReadsFrames(c: Crypto, key: bytes, n: nat, got: bytes, pushed: seq<bytes>)
    returns (frames: seq<Frame>, rest: bytes)
    ensures HasRead(c, key, n, got, frames, rest, pushed,
                    Drain(c, Receiver(AwaitLength(key), got, NonceAt(n), pushed)))
    decreases |got|
  {
    hide *;
    var first, r := ReadsFrame(c, key, n, got, pushed);
    if first.None? {
      NoFrames(c, key, n, got, pushed, Drain(c, Receiver(AwaitLength(key), got, NonceAt(n), pushed)));
      return [], got;
    }
    var f := first.value;
    var more, r' := ReadsFrames(c, key, n + 2, r, pushed + Parts([f]));
    frames, rest := [f] + more, r';
    OneFrameRead(c, key, n, f, more, r, rest, pushed,
                 Drain(c, Receiver(AwaitLength(key), r, NonceAt(n + 2), pushed + Parts([f]))));
  }

  lemma NoFrames(c: Crypto, key: bytes, n: nat, got: bytes, pushed: seq<bytes>, s: Receiver)
    requires s.pushed == pushed && Stopped(c, key, n, got, s)
    ensures HasRead(c, key, n, got, [], got, pushed, s)
  {
    assert [] + got == got && pushed + [] == pushed;
  }

  lemma OneFrameRead(c: Crypto, key: bytes, n: nat, f: Frame, more: seq<Frame>, later: bytes, rest: bytes,
                     pushed: seq<bytes>, s: Receiver)
    requires Genuine(c, key, n, f)
    requires HasRead(c, key, n + 2, later, more, rest, pushed + Parts([f]), s)
    ensures HasRead(c, key, n, f.head + f.body + later, [f] + more, rest, pushed, s)
  {
    hide Genuine, Stopped, NonceAt;
    OneFrameMore(c, key, n, f, more);
    AppendAssoc(f.head + f.body, Joined(more), rest);
    AppendAssoc(pushed, Parts([f]), Parts(more));
    assert n + 2 + 2 * |more| == n + 2 * |[f] + more|;
  }

  lemma OneFrameMore(c: Crypto, key: bytes, n: nat, f: Frame, more: seq<Frame>)
    requires Genuine(c, key, n, f) && AllGenuine(c, key, n + 2, more)
    ensures AllGenuine(c, key, n, [f] + more)
    ensures Joined([f] + more) == f.head + f.body + Joined(more)
    ensures Parts([f] + more) == Parts([f]) + Parts(more)
  {
    var all := [f] + more;
    assert all[1..] == more;
    assert Parts([f]) == if f.part == [] then [] else [f.part];
    forall j | 0 <= j < |all| ensures Genuine(c, key, n + 2 * j, all[j]) {
      if j != 0 {
        assert all[j] == more[j - 1] && n + 2 * j == (n + 2) + 2 * (j - 1);
      }
    }
  }

  /** Main result: whatever bytes come, in whatever chunks, the receiver takes the first as the salt, and after it reads
      frames that open under the nonces 0, 1, 2, 3, ...; it has pushed what they opened to and nothing else. It waits
      exactly while a block is incomplete, and it is destroyed exactly if the next block is complete and does not
      open. */
  lemma OnlyGenuinePartsArePushed(c: Crypto, chunks: seq<bytes>)
    requires 0 < c.saltLength
    ensures var got, s := Flatten(chunks), FeedAll(c, FRESH, chunks);
      if |got| < c.saltLength then s == Receiver(AwaitSalt, got, NonceAt(0), [])
      else exists frames, rest ::
        HasRead(c, c.derive(got[..c.saltLength]), 0, got[c.saltLength..], frames, rest, [], s)
  {
    var got := Flatten(chunks);
    FragmentationIndependent(c, FRESH, chunks);
    if |got| < c.saltLength {
      SaltIncomplete(c, got);
    } else {
      var salt, later := got[..c.saltLength], got[c.saltLength..];
      assert got == salt + later;
      SaltIsRead(c, salt, later);
      var frames, rest := ReadsFrames(c, c.derive(salt), 0, later, []);
    }
  }

  /** A destroyed stream stays as it is, whatever follows. */
  lemma {:induction false} DestroyedStays(c: Crypto, s: Receiver, chunks: seq<bytes>)
    requires s.phase.Destroyed?
    ensures FeedAll(c, s, chunks) == s
    decreases |chunks|
  {
    if chunks != [] {
      DestroyedStays(c, s, chunks[1..]);
    }
  }

  /** The block waited for is complete and does not open. */
  ghost predicate Forged(c: Crypto, s: Receiver) {
    match s.phase
    case AwaitLength(key) => 18 <= |s.buffer| && c.open(key, s.nonce, s.buffer[..18]) == None
    case AwaitPayload(key, size) => size + 16 <= |s.buffer| && c.open(key, s.nonce, s.buffer[..size + 16]) == None
    case _ => false
  }

  /** A chunk that completes a block which does not open destroys the stream; what was pushed before stays, and neither
      that chunk nor any later one adds to it. */
  lemma ForgedBlockDestroys(c: Crypto, s: Receiver, chunk: bytes, later: seq<bytes>)
    requires Forged(c, Append(s, chunk))
    ensures FeedAll(c, s, [chunk] + later) == Receiver(Destroyed, [], [], s.pushed)
  {
    DrainMoves(c, Append(s, chunk));
    DrainWaits(c, Dead(s.pushed));
    assert ([chunk] + later)[1..] == later;
    DestroyedStays(c, Dead(s.pushed), later);
  }
}

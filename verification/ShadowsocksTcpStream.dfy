/** The class `ShadowsocksTcpStream`: its fields and the code that updates them chunk by chunk. */
module ShadowsocksTcpStreams {
  import opened Common
  import opened Nonces
  import opened BufferQueues
  import opened ShadowsocksFraming

  class ShadowsocksTcpStream {
    const crypto: Crypto
    /** The salt `randomBytes` draws when `sendSalt` first runs. */
    const salt: bytes
    const prefix: bytes

    var encryptKey: Option<bytes>
    var encryptNonce: array<byte>
    var prefixSent: bool
    /** Everything written to the raw socket. */
    var wire: bytes

    var decryptBuffer: BufferQueue
    var decryptNonce: array<byte>
    var decryptKey: Option<bytes>
    var pendingPayloadLength: Option<nat>
    var destroyed: bool
    /** The buffers handed to `push`. */
    var pushed: seq<bytes>

    /** The writes made so far. */
    ghost var writes: seq<bytes>

    ghost predicate Valid()
      reads this, encryptNonce, decryptNonce, decryptBuffer
    {
      && encryptNonce != decryptNonce
      && SenderValid() && ReceiverValid()
    }

    /** The raw socket has been given exactly the wire image of the writes, and the next nonce is in place. */
    ghost predicate SenderValid()
      reads this`writes, this`prefixSent, this`encryptKey, this`wire, this`encryptNonce, encryptNonce
    {
      var parts := PartsOf(prefix, writes);
      && prefixSent == (writes != [])
      && encryptNonce[..] == NonceAt(2 * |parts|)
      && (match encryptKey
          case None => writes == [] && wire == []
          case Some(key) => key == crypto.derive(salt) && wire == Wire(crypto, salt, prefix, writes))
    }

    ghost predicate ReceiverValid()
      reads this`decryptBuffer, this`decryptNonce, this`decryptKey, this`pendingPayloadLength
      reads decryptNonce, decryptBuffer
    {
      && decryptBuffer.Valid()
      && decryptNonce.Length == NONCE_LENGTH
      && (decryptKey.None? ==> pendingPayloadLength.None?)
    }

    /** The receiving half as a value. */
    ghost function Receiving(): Receiver
      requires ReceiverValid()
      reads this`decryptBuffer, this`decryptNonce, this`decryptKey, this`pendingPayloadLength
      reads this`destroyed, this`pushed, decryptNonce, decryptBuffer
    {
      if destroyed then Dead(pushed)
      else Receiver(
        if decryptKey.None? then AwaitSalt
        else if pendingPayloadLength.None? then AwaitLength(decryptKey.value)
        else AwaitPayload(decryptKey.value, pendingPayloadLength.value),
        decryptBuffer.Contents(), decryptNonce[..], pushed)
    }

    constructor (crypto: Crypto, salt: bytes, prefix: bytes, sendSaltOnCreate: bool)
      ensures Valid() && fresh(encryptNonce) && fresh(decryptNonce) && fresh(decryptBuffer)
      ensures this.crypto == crypto && this.salt == salt && this.prefix == prefix
      ensures writes == [] && wire == (if sendSaltOnCreate then salt else [])
      ensures Receiving() == FRESH
    {
      this.crypto, this.salt, this.prefix := crypto, salt, prefix;
      encryptKey, prefixSent, wire, writes := None, false, [], [];
      decryptKey, pendingPayloadLength, destroyed, pushed := None, None, false, [];
      encryptNonce := new byte[NONCE_LENGTH](_ => 0);
      decryptNonce := new byte[NONCE_LENGTH](_ => 0);
      decryptBuffer := new BufferQueue();
      new;
      assert encryptNonce[..] == Zeros(NONCE_LENGTH) == decryptNonce[..];
      if sendSaltOnCreate {
        SendSalt();
      }
    }

    method SendSalt()
      requires Valid() && encryptKey.None?
      modifies this`encryptKey, this`wire
      ensures Valid() && encryptKey == Some(crypto.derive(salt)) && wire == salt
    {
      encryptKey := Some(crypto.derive(salt));
      wire := wire + salt;
      assert wire == Wire(crypto, salt, prefix, []);
    }

    /** `nextEncryptNonce` / `nextDecryptNonce`: the current nonce; the buffer moves on. */
    static method NextNonce(counter: array<byte>) returns (nonce: bytes)
      modifies counter
      ensures nonce == old(counter[..]) && counter[..] == Increment(nonce)
    {
      nonce := counter[..];
      IncrementNonce(counter);
    }

    /** `_write`: seals one chunk, behind the prefix if it is the first, and sends it. */
    method Write(chunk: bytes)
      requires Valid()
      modifies this`encryptKey, this`wire, this`prefixSent, this`writes, encryptNonce
      ensures Valid()
      ensures writes == old(writes) + [chunk] && encryptKey.Some?
      ensures Receiving() == old(Receiving())
    {
      var payload := if prefixSent then chunk else prefix + chunk;
      if encryptKey.None? {
        SendSalt();
      }
      Send(payload, chunk);
    }

    /** The rest of `_write`, once the key is there. */
    method Send(payload: bytes, ghost chunk: bytes)
      requires SenderValid() && encryptKey.Some?
      requires payload == if writes == [] then prefix + chunk else chunk
      modifies this`wire, this`prefixSent, this`writes, encryptNonce
      ensures SenderValid() && writes == old(writes) + [chunk]
    {
      WireGrows(crypto, salt, prefix, writes, chunk);
      ghost var before, after := PartsOf(prefix, writes), PartsOf(prefix, writes + [chunk]);
      var sealed, m := EncryptTcpPayload(payload, encryptKey.value, 2 * |before|);
      assert m == 2 * |after| && |after| == |before| + |Cut(payload)|;
      prefixSent := true;
      wire := wire + sealed;
      writes := writes + [chunk];
    }

    /** `encryptTcpPayload`: the offset loop, two sealed blocks a turn. */
    method EncryptTcpPayload(payload: bytes, key: bytes, ghost n: nat) returns (sealed: bytes, ghost m: nat)
      requires encryptNonce[..] == NonceAt(n)
      modifies encryptNonce
      ensures sealed == SealParts(crypto, key, n, Cut(payload))
      ensures m == n + 2 * |Cut(payload)| && encryptNonce[..] == NonceAt(m)
    {
      hide LengthBytes, NonceAt;
      sealed := [];
      var offset := 0;
      m := n;
      ghost var rest := payload;
      while offset < |payload|
        invariant 0 <= offset
        invariant rest == if offset < |payload| then payload[offset..] else []
        invariant SealParts(crypto, key, n, Cut(payload)) == sealed + SealParts(crypto, key, m, Cut(rest))
        invariant n + 2 * |Cut(payload)| == m + 2 * |Cut(rest)|
        invariant encryptNonce[..] == NonceAt(m)
      {
        var end := if offset + MAX_PART <= |payload| then offset + MAX_PART else |payload|;
        var part := payload[offset..end];
        SealHead(crypto, key, m, rest, part, sealed);
        var frame := SealFrame(part, key, m);
        sealed := sealed + frame;
        m, rest := m + 2, rest[|part|..];
        offset := offset + MAX_PART;
      }
    }

    /** The two blocks of a frame, each under the next nonce. */
    method SealFrame(part: bytes, key: bytes, ghost n: nat) returns (frame: bytes)
      requires encryptNonce[..] == NonceAt(n) && |part| < 0x10000
      modifies encryptNonce
      ensures frame == SealPart(crypto, key, n, part) && encryptNonce[..] == NonceAt(n + 2)
    {
      var lengthNonce := NextNonce(encryptNonce);
      var payloadNonce := NextNonce(encryptNonce);
      frame := crypto.seal(key, lengthNonce, LengthBytes(|part|)) + crypto.seal(key, payloadNonce, part);
    }

    /** `handleEncryptedData`: buffers the chunk and goes on as far as the bytes allow. */
    method HandleEncryptedData(chunk: bytes)
      requires Valid()
      modifies this`decryptKey, this`pendingPayloadLength, this`destroyed, this`pushed, decryptNonce, decryptBuffer
      ensures Valid() && writes == old(writes) && wire == old(wire)
      ensures Receiving() == Feed(crypto, old(Receiving()), chunk)
    {
      if !destroyed {
        Receive(chunk);
      }
    }

    /** The body of its `try` block. */
    method Receive(chunk: bytes)
      requires ReceiverValid() && !destroyed
      modifies this`decryptKey, this`pendingPayloadLength, this`destroyed, this`pushed, decryptNonce, decryptBuffer
      ensures ReceiverValid() && Receiving() == Feed(crypto, old(Receiving()), chunk)
    {
      decryptBuffer.Push(chunk);
      assert Receiving() == Append(old(Receiving()), chunk);
      if decryptKey.None? {
        if decryptBuffer.totalLength < crypto.saltLength {
          DrainWaits(crypto, Receiving());
          return;
        }
        ReadSalt();
      }
      OpenFrames();
    }

    method ReadSalt()
      requires ReceiverValid() && Receiving().phase.AwaitSalt? && Ready(crypto, Receiving())
      modifies this`decryptKey, decryptBuffer
      ensures ReceiverValid() && Receiving() == Step(crypto, old(Receiving())) && decryptKey.Some?
    {
      hide Drain, Increment;
      var read := decryptBuffer.Read(crypto.saltLength);
      decryptKey := Some(crypto.derive(read.value));
    }

    /** The frame loop. */
    method OpenFrames()
      requires ReceiverValid() && decryptKey.Some? && !destroyed
      modifies this`pendingPayloadLength, this`destroyed, this`pushed, decryptNonce, decryptBuffer
      ensures ReceiverValid() && Receiving() == Drain(crypto, old(Receiving()))
    {
      hide Step, Drain;
      while true
        invariant ReceiverValid() && decryptKey.Some? && !destroyed
        invariant Drain(crypto, Receiving()) == Drain(crypto, old(Receiving()))
        decreases |decryptBuffer.Contents()|
      {
        if pendingPayloadLength.None? {
          if decryptBuffer.totalLength < 2 + TAG_LENGTH {
            DrainWaits(crypto, Receiving());
            return;
          }
          DrainMoves(crypto, Receiving());
          OpenLength();
          if destroyed {
            DrainWaits(crypto, Receiving());
            return;
          }
        }
        if decryptBuffer.totalLength < pendingPayloadLength.value + TAG_LENGTH {
          DrainWaits(crypto, Receiving());
          return;
        }
        DrainMoves(crypto, Receiving());
        OpenPayload();
        if destroyed {
          DrainWaits(crypto, Receiving());
          return;
        }
      }
    }

    /** The length block: opened under the next nonce, or the stream is destroyed. */
    method OpenLength()
      requires ReceiverValid() && Receiving().phase.AwaitLength? && Ready(crypto, Receiving())
      modifies this`pendingPayloadLength, this`destroyed, decryptNonce, decryptBuffer
      ensures ReceiverValid() && Receiving() == Step(crypto, old(Receiving()))
      ensures destroyed || pendingPayloadLength.Some?
      ensures |decryptBuffer.Contents()| < old(|decryptBuffer.Contents()|)
    {
      var nonce := NextNonce(decryptNonce);
      var read := decryptBuffer.Read(2 + TAG_LENGTH);
      var plain := crypto.open(decryptKey.value, nonce, read.value);
      if plain.None? || |plain.value| < 2 {
        destroyed := true;
        return;
      }
      pendingPayloadLength := Some(ReadUInt16BE(plain.value));
    }

    /** The payload block: opened under the next nonce and pushed unless empty. */
    method OpenPayload()
      requires ReceiverValid() && Receiving().phase.AwaitPayload? && Ready(crypto, Receiving())
      modifies this`pendingPayloadLength, this`destroyed, this`pushed, decryptNonce, decryptBuffer
      ensures ReceiverValid() && Receiving() == Step(crypto, old(Receiving()))
      ensures destroyed || pendingPayloadLength.None?
      ensures |decryptBuffer.Contents()| < old(|decryptBuffer.Contents()|)
    {
      var nonce := NextNonce(decryptNonce);
      var read := decryptBuffer.Read(pendingPayloadLength.value + TAG_LENGTH);
      var plain := crypto.open(decryptKey.value, nonce, read.value);
      if plain.None? {
        destroyed := true;
        return;
      }
      pendingPayloadLength := None;
      if |plain.value| > 0 {
        pushed := pushed + [plain.value];
      }
    }
  }

  /** The first part of a cut is sealed first, and the cut of what follows it after. */
  lemma SealHead(c: Crypto, key: bytes, n: nat, rest: bytes, part: bytes, sealed: bytes)
    requires rest != [] && part == rest[..if MAX_PART <= |rest| then MAX_PART else |rest|]
    ensures sealed + SealParts(c, key, n, Cut(rest))
         == sealed + SealPart(c, key, n, part) + SealParts(c, key, n + 2, Cut(rest[|part|..]))
    ensures |Cut(rest)| == 1 + |Cut(rest[|part|..])|
  {
    CutHead(rest, part);
    AppendAssoc(sealed, SealPart(c, key, n, part), SealParts(c, key, n + 2, Cut(rest[|part|..])));
  }

  /** What one more write adds to the wire. */
  lemma WireGrows(c: Crypto, salt: bytes, prefix: bytes, writes: seq<bytes>, chunk: bytes)
    ensures var before, payload := PartsOf(prefix, writes), if writes == [] then prefix + chunk else chunk;
      && PartsOf(prefix, writes + [chunk]) == before + Cut(payload)
      && Wire(c, salt, prefix, writes + [chunk])
         == Wire(c, salt, prefix, writes) + SealParts(c, c.derive(salt), 2 * |before|, Cut(payload))
  {
    var before := PartsOf(prefix, writes);
    var payload := if writes == [] then prefix + chunk else chunk;
    PartsGrow(prefix, writes, chunk);
    SealPartsAppend(c, c.derive(salt), 0, 2 * |before|, before, Cut(payload));
    AppendAssoc(salt, SealParts(c, c.derive(salt), 0, before),
                SealParts(c, c.derive(salt), 2 * |before|, Cut(payload)));
  }

  /** The first part of a cut, and the cut of what follows it. */
  lemma CutHead(rest: bytes, part: bytes)
    requires rest != [] && part == rest[..if MAX_PART <= |rest| then MAX_PART else |rest|]
    ensures Cut(rest) == [part] + Cut(rest[|part|..])
  {
    if |rest| <= MAX_PART {
      assert part == rest && rest[|part|..] == [];
    }
  }
}

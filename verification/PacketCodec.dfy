/**
 The physical packet codec (PhysicalPacket, crates/rift-core/src/lib.rs). Two header formats
 share the same first four bytes; the decoder tells them apart by the next four and by the
 length. The CRC is an arbitrary function of the header bytes.
 */
module PacketCodec {
  import opened Common

  const RIFT_VERSION: nat := 1
  const HANDSHAKE_HEADER_SIZE: nat := 30
  const TRANSPORT_HEADER_SIZE: nat := 18
  const RIFT_MAGIC: Bytes := [0x52, 0x49]

  /** 2^96 and 2^128. */
  const U96: nat := 0x1_0000_0000_0000_0000_0000_0000
  const U128: nat := 0x1_0000_0000_0000_0000_0000_0000_0000_0000

  type U16 = n: nat | n < 0x1_0000
  type Crc = Bytes -> U16

  datatype PhysicalPacket = PhysicalPacket(
    version: nat,
    sessionId: Option<nat>,
    sessionAlias: Option<nat>,
    packetId: nat,
    payload: Bytes)

  /** The ranges of the source's field types. */
  ghost predicate InRange(p: PhysicalPacket) {
    && p.version < 0x1_0000
    && (p.sessionId.Some? ==> p.sessionId.value < U128)
    && (p.sessionAlias.Some? ==> p.sessionAlias.value < U32)
    && p.packetId < U64
  }

  datatype RiftError = TooShort(len: nat) | InvalidMagic | UnsupportedVersion(version: nat) | ChecksumMismatch

  // ---------------------------------------------------------------------------
  // Big-endian integers
  // ---------------------------------------------------------------------------

  function Pow256(k: nat): nat { if k == 0 then 1 else 256 * Pow256(k - 1) }

  function BigEndian(n: nat, k: nat): (r: Bytes)
    ensures |r| == k
  {
    if k == 0 then [] else BigEndian(n / 256, k - 1) + [n % 256]
  }

  function FromBigEndian(s: Bytes): nat {
    if s == [] then 0 else FromBigEndian(s[..|s| - 1]) * 256 + s[|s| - 1]
  }

  lemma {:induction false} ReadWritten(n: nat, k: nat)
    requires n < Pow256(k)
    ensures FromBigEndian(BigEndian(n, k)) == n
  {
    if k == 0 {
      assert BigEndian(n, k) == [];
    } else {
      assert n / 256 < Pow256(k - 1);
      ReadWritten(n / 256, k - 1);
      var s := BigEndian(n, k);
      assert s[..|s| - 1] == BigEndian(n / 256, k - 1);
    }
  }

  lemma {:induction false} WriteRead(s: Bytes)
    ensures FromBigEndian(s) < Pow256(|s|) && BigEndian(FromBigEndian(s), |s|) == s
  {
    if s != [] {
      WriteRead(s[..|s| - 1]);
      var a, b := FromBigEndian(s[..|s| - 1]), s[|s| - 1];
      assert (a * 256 + b) / 256 == a && (a * 256 + b) % 256 == b;
    }
  }

  /** The first byte is the most significant one. */
  lemma {:induction false} FirstByteWeighsMost(s: Bytes)
    requires s != []
    ensures FromBigEndian(s) == s[0] * Pow256(|s| - 1) + FromBigEndian(s[1..])
  {
    var n := |s| - 1;
    if n == 0 {
      assert s[..0] == [] && s[1..] == [];
    } else {
      FirstByteWeighsMost(s[..n]);
      assert s[..n][1..] == s[1..][..n - 1];
      assert s[0] * Pow256(n - 1) * 256 == s[0] * Pow256(n);
    }
  }

  /** A number starts with `k` zero bytes exactly when it fits in the other `m`. */
  lemma {:induction false} LeadingZeros(n: nat, k: nat, m: nat)
    requires n < Pow256(k + m)
    ensures FromBigEndian(BigEndian(n, k + m)[..k]) == 0 <==> n < Pow256(m)
  {
    var s := BigEndian(n, k + m);
    if m == 0 {
      assert s[..k] == s;
      ReadWritten(n, k);
    } else {
      assert n / 256 < Pow256(k + m - 1);
      LeadingZeros(n / 256, k, m - 1);
      assert s[..k] == BigEndian(n / 256, k + m - 1)[..k];
    }
  }

  lemma Powers()
    ensures Pow256(2) == 0x1_0000 && Pow256(4) == U32 && Pow256(8) == U64
    ensures Pow256(12) == U96 && Pow256(16) == U128
  {
  }

  // ---------------------------------------------------------------------------
  // The codec
  // ---------------------------------------------------------------------------

  function IdBytes(p: PhysicalPacket): Bytes {
    match p.sessionId
    case Some(id) => BigEndian(id, 16)
    case None => BigEndian(if p.sessionAlias.Some? then p.sessionAlias.value else 0, 4)
  }

  function Header(p: PhysicalPacket): Bytes {
    RIFT_MAGIC + BigEndian(p.version, 2) + IdBytes(p) + BigEndian(p.packetId, 8)
  }

  /** The bytes on the wire: header, checksum of the header, payload. */
  function Wire(p: PhysicalPacket, crc: Crc): Bytes {
    Header(p) + BigEndian(crc(Header(p)), 2) + p.payload
  }

  /** The source writes a zero checksum, appends the payload, then patches the checksum in. */
  method Encode(p: PhysicalPacket, crc: Crc) returns (buf: Bytes)
    ensures buf == Wire(p, crc)
  {
    buf := RIFT_MAGIC;
    buf := buf + BigEndian(p.version, 2);
    if p.sessionId.Some? {
      buf := buf + BigEndian(p.sessionId.value, 16);
    } else {
      buf := buf + BigEndian(if p.sessionAlias.Some? then p.sessionAlias.value else 0, 4);
    }
    buf := buf + BigEndian(p.packetId, 8);
    var csumPos := |buf|;
    buf := buf + BigEndian(0, 2);
    buf := buf + p.payload;
    var csum := crc(buf[..csumPos]);
    assert buf[..csumPos] == Header(p);
    assert buf[csumPos + 2..] == p.payload;
    buf := buf[..csumPos] + BigEndian(csum, 2) + buf[csumPos + 2..];
  }

  function Decode(bytes: Bytes, crc: Crc): Result<PhysicalPacket, RiftError> {
    if |bytes| < TRANSPORT_HEADER_SIZE then Err(TooShort(|bytes|))
    else if bytes[0..2] != RIFT_MAGIC then Err(InvalidMagic)
    else
      var version := FromBigEndian(bytes[2..4]);
      if version != RIFT_VERSION then Err(UnsupportedVersion(version))
      else
        var aliasTest := FromBigEndian(bytes[4..8]);
        if aliasTest == 0 && |bytes| >= HANDSHAKE_HEADER_SIZE then
          if crc(bytes[..28]) != FromBigEndian(bytes[28..30]) then Err(ChecksumMismatch)
          else Ok(PhysicalPacket(version, Some(FromBigEndian(bytes[4..20])), None,
                                 FromBigEndian(bytes[20..28]), bytes[30..]))
        else
          if crc(bytes[..16]) != FromBigEndian(bytes[16..18]) then Err(ChecksumMismatch)
          else Ok(PhysicalPacket(version, None, Some(aliasTest),
                                 FromBigEndian(bytes[8..16]), bytes[18..]))
  }

  /** The packets the format can tell apart. */
  predicate Representable(p: PhysicalPacket) {
    && p.version == RIFT_VERSION
    && match p.sessionId
       case Some(id) => p.sessionAlias.None? && id < U96
       case None => p.sessionAlias.Some? && (p.sessionAlias.value != 0 || |p.payload| < 12)
  }

  lemma FieldSlices(magic: Bytes, version: Bytes, id: Bytes, packetId: Bytes, csum: Bytes, payload: Bytes)
    requires |magic| == 2 && |version| == 2 && |packetId| == 8 && |csum| == 2
    ensures var w := magic + version + id + packetId + csum + payload;
            var n := |id|;
            && |w| == n + 14 + |payload|
            && w[0..2] == magic && w[2..4] == version && w[4..4 + n] == id
            && w[4 + n..12 + n] == packetId && w[12 + n..14 + n] == csum && w[14 + n..] == payload
            && w[..12 + n] == magic + version + id + packetId
  {
  }

  /** The fields of a wire image, whichever format it has. */
  lemma WireLayout(p: PhysicalPacket, crc: Crc)
    requires InRange(p)
    ensures var w := Wire(p, crc);
            var n := |IdBytes(p)|;
            && |w| == n + 14 + |p.payload|
            && w[0..2] == RIFT_MAGIC
            && FromBigEndian(w[2..4]) == p.version
            && w[4..4 + n] == IdBytes(p)
            && FromBigEndian(w[4 + n..12 + n]) == p.packetId
            && w[..12 + n] == Header(p)
            && FromBigEndian(w[12 + n..14 + n]) == crc(Header(p))
            && w[14 + n..] == p.payload
  {
    Powers();
    FieldSlices(RIFT_MAGIC, BigEndian(p.version, 2), IdBytes(p), BigEndian(p.packetId, 8),
                BigEndian(crc(Header(p)), 2), p.payload);
    ReadWritten(p.version, 2);
    ReadWritten(p.packetId, 8);
    ReadWritten(crc(Header(p)), 2);
  }

  /** The bytes of the two formats, one by one. */
  lemma WireBytes(p: PhysicalPacket, crc: Crc)
    requires InRange(p)
    ensures var w := Wire(p, crc);
            && w[..2] == [0x52, 0x49] && w[2] as int * 256 + w[3] as int == p.version
            && (p.sessionId.Some? ==>
                  && |w| == 30 + |p.payload| && w[4..20] == BigEndian(p.sessionId.value, 16)
                  && w[20..28] == BigEndian(p.packetId, 8) && w[28..30] == BigEndian(crc(w[..28]), 2)
                  && w[30..] == p.payload)
            && (p.sessionId.None? ==>
                  && |w| == 18 + |p.payload|
                  && w[4..8] == BigEndian(if p.sessionAlias.Some? then p.sessionAlias.value else 0, 4)
                  && w[8..16] == BigEndian(p.packetId, 8) && w[16..18] == BigEndian(crc(w[..16]), 2)
                  && w[18..] == p.payload)
  {
    var w := Wire(p, crc);
    FieldSlices(RIFT_MAGIC, BigEndian(p.version, 2), IdBytes(p), BigEndian(p.packetId, 8),
                BigEndian(crc(Header(p)), 2), p.payload);
    WireLayout(p, crc);
    assert w[..2] == w[0..2];
    var v := w[2..4];
    assert v[..1] == [w[2]] && v[1] == w[3] && v[..1][..0] == [];
  }

  /** Handshake images carry the handshake format exactly when the id is below 2^96. */
  lemma HandshakeDecodes(p: PhysicalPacket, crc: Crc)
    requires InRange(p) && p.sessionId.Some?
    ensures Decode(Wire(p, crc), crc) == Ok(p) <==> Representable(p)
  {
    var w := Wire(p, crc);
    WireLayout(p, crc);
    Powers();
    LeadingZeros(p.sessionId.value, 4, 12);
    assert w[4..8] == w[4..20][..4];
    ReadWritten(p.sessionId.value, 16);
  }

  lemma TransportDecodes(p: PhysicalPacket, crc: Crc)
    requires InRange(p) && p.sessionId.None?
    ensures Decode(Wire(p, crc), crc) == Ok(p) <==> Representable(p)
  {
    WireLayout(p, crc);
    Powers();
    ReadWritten(if p.sessionAlias.Some? then p.sessionAlias.value else 0, 4);
  }

  /** Decoding undoes encoding for exactly the representable packets, whatever the checksum. */
  lemma DecodeEncode(p: PhysicalPacket, crc: Crc)
    requires InRange(p)
    ensures Decode(Wire(p, crc), crc) == Ok(p) <==> Representable(p)
  {
    if p.sessionId.Some? {
      HandshakeDecodes(p, crc);
    } else {
      TransportDecodes(p, crc);
    }
  }

  /** A handshake packet with session id 2^96 does not survive: its first four id bytes read as an alias. */
  lemma WideSessionIdLost(crc: Crc)
    ensures var p := PhysicalPacket(RIFT_VERSION, Some(U96), None, 0, []);
            InRange(p) && Decode(Wire(p, crc), crc) != Ok(p)
  {
    DecodeEncode(PhysicalPacket(RIFT_VERSION, Some(U96), None, 0, []), crc);
  }

  /** Nor does a transport packet with alias zero and twelve bytes of payload: it reads as a handshake. */
  lemma ZeroAliasLost(crc: Crc)
    ensures var p := PhysicalPacket(RIFT_VERSION, None, Some(0), 0, seq(12, _ => 0));
            InRange(p) && Decode(Wire(p, crc), crc) != Ok(p)
  {
    DecodeEncode(PhysicalPacket(RIFT_VERSION, None, Some(0), 0, seq(12, _ => 0)), crc);
  }

  /** Bytes are the concatenation of their fields. */
  lemma FieldsJoin(b: Bytes, n: nat)
    requires n + 14 <= |b|
    ensures b[..12 + n] == b[0..2] + b[2..4] + b[4..4 + n] + b[4 + n..12 + n]
    ensures b == b[0..2] + b[2..4] + b[4..4 + n] + b[4 + n..12 + n] + b[12 + n..14 + n] + b[14 + n..]
  {
  }

  /** Writing the numbers read from a header gives the header back. */
  lemma Rewrite(b: Bytes, n: nat, p: PhysicalPacket, crc: Crc)
    requires n + 14 <= |b| && b[0..2] == RIFT_MAGIC
    requires FromBigEndian(b[2..4]) == p.version && FromBigEndian(b[4 + n..12 + n]) == p.packetId
    requires IdBytes(p) == b[4..4 + n] && p.payload == b[14 + n..]
    requires crc(b[..12 + n]) == FromBigEndian(b[12 + n..14 + n])
    ensures Wire(p, crc) == b
  {
    WriteRead(b[2..4]);
    WriteRead(b[4 + n..12 + n]);
    WriteRead(b[12 + n..14 + n]);
    FieldsJoin(b, n);
  }

  /** Whatever the decoder accepts is the encoding of what it returns. */
  lemma EncodeDecode(b: Bytes, crc: Crc)
    requires Decode(b, crc).Ok?
    ensures var p := Decode(b, crc).value;
            InRange(p) && Representable(p) && Wire(p, crc) == b
  {
    var p := Decode(b, crc).value;
    var n := if p.sessionId.Some? then 16 else 4;
    Powers();
    WriteRead(b[4..4 + n]);
    WriteRead(b[4 + n..12 + n]);
    Rewrite(b, n, p, crc);
    if p.sessionId.Some? {
      LeadingZeros(p.sessionId.value, 4, 12);
      assert b[4..20][..4] == b[4..8];
    }
  }

  // ---------------------------------------------------------------------------
  // What the blind relay reads (extract_forward_sequence, crates/wavry-gateway/src/relay.rs)
  // ---------------------------------------------------------------------------

  function ExtractForwardSequence(payload: Bytes, crc: Crc): Option<nat> {
    if |payload| >= 2 && payload[..2] == RIFT_MAGIC then
      match Decode(payload, crc)
      case Ok(p) => Some(p.packetId)
      case Err(_) => None
    else if |payload| < 8 then None
    else Some(FromBigEndian(payload[..8]))
  }

  lemma SequenceInRange(payload: Bytes, crc: Crc)
    ensures ExtractForwardSequence(payload, crc).Some? ==> ExtractForwardSequence(payload, crc).value < U64
  {
    Powers();
    if |payload| >= 8 {
      WriteRead(payload[..8]);
    }
    if Decode(payload, crc).Ok? {
      EncodeDecode(payload, crc);
    }
  }

  /** Of anything else the relay reads the first eight bytes, most significant first, if there are that many. */
  lemma RelayReadsFirstEight(payload: Bytes, crc: Crc)
    requires |payload| < 2 || payload[0] != 0x52 || payload[1] != 0x49
    ensures |payload| < 8 ==> ExtractForwardSequence(payload, crc).None?
    ensures |payload| >= 8 ==>
              && ExtractForwardSequence(payload, crc).Some?
              && payload[..8] == BigEndian(ExtractForwardSequence(payload, crc).value, 8)
  {
    if |payload| >= 8 {
      WriteRead(payload[..8]);
    }
  }

  /** The relay reads the same id the endpoints use. */
  lemma RelayReadsPacketId(p: PhysicalPacket, crc: Crc)
    requires InRange(p) && Representable(p)
    ensures ExtractForwardSequence(Wire(p, crc), crc) == Some(p.packetId)
  {
    DecodeEncode(p, crc);
    WireLayout(p, crc);
    assert Wire(p, crc)[..2] == Wire(p, crc)[0..2];
  }
}

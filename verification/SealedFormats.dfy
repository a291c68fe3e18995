/**
 The three sealed formats: the framed root-recovery record, the sealed state file and the
 protector's envelope, with the inputs they bind cryptographically.
 */
module SealedFormats {
  import opened Basics
  import opened Framing

  const FORMAT: nat := 1

  /** Magic, format version and two reserved zero bytes. */
  function Preamble(magic: Bytes): Bytes {
    magic + BigEndian(FORMAT, 2) + BigEndian(0, 2)
  }

  predicate HasPreamble(bytes: Bytes, magic: Bytes) {
    && |bytes| >= |magic| + 4 && bytes[..|magic|] == magic
    && Number(bytes[|magic|..|magic| + 2]) == FORMAT && Number(bytes[|magic| + 2..|magic| + 4]) == 0
  }

  lemma PreambleParts(bytes: Bytes, n: nat)
    requires n + 4 <= |bytes|
    ensures bytes[..n + 4] == bytes[..n] + bytes[n..n + 2] + bytes[n + 2..n + 4]
    ensures bytes[..n + 4][..n] == bytes[..n] && bytes[..n + 4][n..n + 2] == bytes[n..n + 2]
            && bytes[..n + 4][n + 2..] == bytes[n + 2..n + 4]
  {
  }

  /** Checking the preamble field by field is comparing it as a whole. */
  lemma PreambleExact(bytes: Bytes, magic: Bytes)
    ensures HasPreamble(bytes, magic) <==> |bytes| >= |magic| + 4 && bytes[..|magic| + 4] == Preamble(magic)
  {
    Powers();
    NumberOfBigEndian(FORMAT, 2);
    NumberOfBigEndian(0, 2);
    if |bytes| >= |magic| + 4 {
      var n := |magic|;
      PreambleParts(bytes, n);
      PreambleParts(Preamble(magic), n);
      BigEndianOfNumber(bytes[n..n + 2]);
      BigEndianOfNumber(bytes[n + 2..n + 4]);
      assert Preamble(magic)[..n + 4] == Preamble(magic);
    }
  }

  // ------------------------------------------------------------ root-recovery record

  const ROOT_MAGIC: Bytes := [115, 51, 100, 114, 106, 0, 1, 0]
  const ROOT_HEADER_BYTES: nat := 24
  const MAX_ROOT_METADATA_BYTES: nat := 128 * 1024
  const MAX_ROOT_TARGET_BYTES: nat := 64 * 1024 * 1024 + 52

  function FrameRoot(metadata: Bytes, target: Bytes): Bytes {
    Preamble(ROOT_MAGIC) + BigEndian(|metadata|, 4) + BigEndian(|target|, 8) + metadata + target
  }

  predicate RootSizes(metadata: Bytes, target: Bytes) {
    2 <= |metadata| <= MAX_ROOT_METADATA_BYTES && |target| <= MAX_ROOT_TARGET_BYTES
  }

  function ParseRoot(encoded: Bytes): Option<(Bytes, Bytes)> {
    if |encoded| < ROOT_HEADER_BYTES + 2 then None
    else if |encoded| > ROOT_HEADER_BYTES + MAX_ROOT_METADATA_BYTES + MAX_ROOT_TARGET_BYTES then None
    else if !HasPreamble(encoded, ROOT_MAGIC) then None
    else
      var metadataLength, targetLength := Number(encoded[12..16]), Number(encoded[16..24]);
      if metadataLength < 2 || metadataLength > MAX_ROOT_METADATA_BYTES || targetLength > MAX_ROOT_TARGET_BYTES
         || metadataLength + targetLength != |encoded| - ROOT_HEADER_BYTES then None
      else
        Some((encoded[ROOT_HEADER_BYTES..ROOT_HEADER_BYTES + metadataLength],
              encoded[ROOT_HEADER_BYTES + metadataLength..]))
  }

  lemma RootParts(encoded: Bytes)
    requires |encoded| >= ROOT_HEADER_BYTES
    ensures encoded == encoded[..12] + encoded[12..16] + encoded[16..24] + encoded[24..]
  {
  }

  /** What is framed is parsed back. */
  lemma RootRoundTrip(metadata: Bytes, target: Bytes)
    requires RootSizes(metadata, target)
    ensures ParseRoot(FrameRoot(metadata, target)) == Some((metadata, target))
  {
    var encoded := FrameRoot(metadata, target);
    assert encoded[..12] == Preamble(ROOT_MAGIC);
    PreambleExact(encoded, ROOT_MAGIC);
    Powers();
    NumberOfBigEndian(|metadata|, 4);
    NumberOfBigEndian(|target|, 8);
    assert encoded[12..16] == BigEndian(|metadata|, 4) && encoded[16..24] == BigEndian(|target|, 8);
    assert encoded[24..24 + |metadata|] == metadata && encoded[24 + |metadata|..] == target;
  }

  /** What is parsed was framed: every accepted byte string is canonical. */
  lemma RootCanonical(encoded: Bytes)
    requires ParseRoot(encoded).Some?
    ensures var (metadata, target) := ParseRoot(encoded).value;
            RootSizes(metadata, target) && FrameRoot(metadata, target) == encoded
  {
    PreambleExact(encoded, ROOT_MAGIC);
    BigEndianOfNumber(encoded[12..16]);
    BigEndianOfNumber(encoded[16..24]);
    RootParts(encoded);
    var n := Number(encoded[12..16]);
    assert encoded[24..] == encoded[24..24 + n] + encoded[24 + n..];
  }

  /** A record's own encoding. `pending` and `matches` tie a record to its target bytes. */
  datatype Codec<!R> = Codec(render: R -> Bytes, parse: Bytes -> Option<R>, pending: R -> bool,
                             matches: (R, Bytes) -> bool)

  function EncodeRecord<R>(codec: Codec<R>, record: R, target: Bytes): Result<Bytes> {
    if !codec.pending(record) && target != [] then Err(CorruptObject)
    else if codec.pending(record)
            && (|target| < 1 || |target| > MAX_ROOT_TARGET_BYTES || !codec.matches(record, target)) then
      Err(CorruptObject)
    else
      var metadata := codec.render(record);
      if |metadata| < 1 || |metadata| > MAX_ROOT_METADATA_BYTES then Err(ResourceLimit)
      else Ok(FrameRoot(metadata, target))
  }

  function DecodeRecord<R(==)>(codec: Codec<R>, encoded: Bytes): Result<(R, Bytes)> {
    match ParseRoot(encoded)
    case None => Err(CorruptObject)
    case Some((metadata, target)) =>
      match codec.parse(metadata)
      case None => Err(CorruptObject)
      case Some(record) =>
        if codec.render(record) != metadata then Err(CorruptObject)
        else if !codec.pending(record) && target != [] then Err(CorruptObject)
        else if codec.pending(record) && (|target| < 1 || !codec.matches(record, target)) then Err(CorruptObject)
        else Ok((record, target))
  }

  /** Decoding undoes encoding, for every record whose own encoding can be read back. */
  lemma RecordRoundTrip<R>(codec: Codec<R>, record: R, target: Bytes)
    requires EncodeRecord(codec, record, target).Ok?
    requires codec.parse(codec.render(record)) == Some(record) && |codec.render(record)| >= 2
    ensures DecodeRecord(codec, EncodeRecord(codec, record, target).value) == Ok((record, target))
  {
    RootRoundTrip(codec.render(record), target);
  }

  /** Every accepted record re-encodes to the same bytes. */
  lemma RecordCanonical<R>(codec: Codec<R>, encoded: Bytes)
    requires DecodeRecord(codec, encoded).Ok?
    ensures var (record, target) := DecodeRecord(codec, encoded).value; EncodeRecord(codec, record, target)
                                                                        == Ok(encoded)
  {
    RootCanonical(encoded);
  }

  /** The encoder fills one buffer, field by field. */
  method FillRoot(metadata: Bytes, target: Bytes) returns (encoded: array<Byte>)
    ensures encoded[..] == FrameRoot(metadata, target)
  {
    encoded := new Byte[ROOT_HEADER_BYTES + |metadata| + |target|](_ => 0);
    CopyInto(encoded, 0, ROOT_MAGIC);
    PutBigEndian(encoded, 8, 2, FORMAT);
    PutBigEndian(encoded, 10, 2, 0);
    assert encoded[..12] == Preamble(ROOT_MAGIC);
    PutBigEndian(encoded, 12, 4, |metadata|);
    PutBigEndian(encoded, 16, 8, |target|);
    CopyInto(encoded, ROOT_HEADER_BYTES, metadata);
    CopyInto(encoded, ROOT_HEADER_BYTES + |metadata|, target);
  }

  // ------------------------------------------------------------ sealed state file

  const STATE_MAGIC: Bytes := [115, 51, 100, 115, 115, 0, 1, 0]
  const STATE_HEADER_BYTES: nat := 52
  const REVISION_BYTES: nat := 32

  function StatePrefix(revision: Bytes, length: nat): (prefix: Bytes)
    requires |revision| == REVISION_BYTES
    ensures |prefix| == STATE_HEADER_BYTES
  {
    Preamble(STATE_MAGIC) + revision + BigEndian(length, 8)
  }

  predicate IsZero(bytes: Bytes) {
    forall i | 0 <= i < |bytes| :: bytes[i] == 0
  }

  /** The revision and envelope of a state file; the header is compared with its own re-encoding. */
  function ParseState(data: Bytes, maximum: nat): Option<(Bytes, Bytes)> {
    if |data| < STATE_HEADER_BYTES + 1 || !HasPreamble(data, STATE_MAGIC) then None
    else
      var revision, length := data[12..44], Number(data[44..52]);
      if IsZero(revision) || length < 1 || length > maximum || |data| - STATE_HEADER_BYTES != length then None
      else if StatePrefix(revision, length) != data[..STATE_HEADER_BYTES] then None
      else Some((revision, data[STATE_HEADER_BYTES..]))
  }

  predicate StateSizes(revision: Bytes, envelope: Bytes, maximum: nat) {
    |revision| == REVISION_BYTES && !IsZero(revision) && 1 <= |envelope| <= maximum && |envelope| <= MAX_UINT64
  }

  lemma StateRoundTrip(revision: Bytes, envelope: Bytes, maximum: nat)
    requires StateSizes(revision, envelope, maximum)
    ensures ParseState(StatePrefix(revision, |envelope|) + envelope, maximum) == Some((revision, envelope))
  {
    var data := StatePrefix(revision, |envelope|) + envelope;
    assert data[..12] == Preamble(STATE_MAGIC);
    PreambleExact(data, STATE_MAGIC);
    Powers();
    NumberOfBigEndian(|envelope|, 8);
    assert data[12..44] == revision && data[44..52] == BigEndian(|envelope|, 8) && data[52..] == envelope;
    assert data[..52] == StatePrefix(revision, |envelope|);
  }

  /** Every accepted state file is the encoding of what was read from it. */
  lemma StateCanonical(data: Bytes, maximum: nat)
    requires ParseState(data, maximum).Some?
    ensures var (revision, envelope) := ParseState(data, maximum).value;
            |revision| == REVISION_BYTES && StatePrefix(revision, |envelope|) + envelope == data
  {
    assert data == data[..STATE_HEADER_BYTES] + data[STATE_HEADER_BYTES..];
  }

  /** The final header comparison never refuses: the field checks already imply it. */
  lemma StateHeaderIsCanonical(data: Bytes)
    requires |data| >= STATE_HEADER_BYTES && HasPreamble(data, STATE_MAGIC)
    ensures StatePrefix(data[12..44], Number(data[44..52])) == data[..STATE_HEADER_BYTES]
  {
    PreambleExact(data, STATE_MAGIC);
    BigEndianOfNumber(data[44..52]);
    assert data[..52] == data[..12] + data[12..44] + data[44..52];
  }

  // ------------------------------------------------------------ protector envelope

  const ENVELOPE_MAGIC: Bytes := [115, 51, 100, 112, 115, 0, 1, 0]
  const ENVELOPE_HEADER_BYTES: nat := 24
  const MAX_KEY_ID_BYTES: nat := 128
  const SALT_BYTES: nat := 16
  const GCM_OVERHEAD: nat := 28
  const MAX_PLAINTEXT_BYTES: nat := 65 * 1024 * 1024
  const MAX_BINDING_BYTES: nat := 4 * 1024

  predicate ValidKeyID(keyID: Bytes) {
    && 1 <= |keyID| <= MAX_KEY_ID_BYTES
    && forall i | 0 <= i < |keyID| ::
         97 <= keyID[i] <= 122 || 65 <= keyID[i] <= 90 || 48 <= keyID[i] <= 57 || keyID[i] in {45, 95, 46, 58}
  }

  datatype Envelope = Envelope(keyID: Bytes, salt: Bytes, ciphertext: Bytes)

  function EnvelopePrefix(keyID: Bytes, salt: Bytes, length: nat): Bytes {
    Preamble(ENVELOPE_MAGIC) + BigEndian(|keyID|, 2) + BigEndian(|salt|, 2) + BigEndian(length, 8) + keyID + salt
  }

  function EncodeEnvelope(envelope: Envelope): Bytes {
    EnvelopePrefix(envelope.keyID, envelope.salt, |envelope.ciphertext|) + envelope.ciphertext
  }

  predicate ValidEnvelope(envelope: Envelope) {
    && ValidKeyID(envelope.keyID) && |envelope.salt| == SALT_BYTES
    && GCM_OVERHEAD <= |envelope.ciphertext| <= MAX_PLAINTEXT_BYTES + GCM_OVERHEAD
  }

  function ParseEnvelope(bytes: Bytes): Option<Envelope> {
    if |bytes| < ENVELOPE_HEADER_BYTES + 1 + SALT_BYTES + GCM_OVERHEAD || !HasPreamble(bytes, ENVELOPE_MAGIC) then None
    else
      var keyLength, saltLength, length := Number(bytes[12..14]), Number(bytes[14..16]), Number(bytes[16..24]);
      if keyLength < 1 || keyLength > MAX_KEY_ID_BYTES || saltLength != SALT_BYTES
         || length < GCM_OVERHEAD || length > MAX_PLAINTEXT_BYTES + GCM_OVERHEAD then None
      else
        var prefixLength := ENVELOPE_HEADER_BYTES + keyLength + saltLength;
        if prefixLength > |bytes| || |bytes| - prefixLength != length then None
        else
          var keyID, salt := bytes[24..24 + keyLength], bytes[24 + keyLength..prefixLength];
          if !ValidKeyID(keyID) || EnvelopePrefix(keyID, salt, length) != bytes[..prefixLength] then None
          else Some(Envelope(keyID, salt, bytes[prefixLength..]))
  }

  lemma EnvelopeLayout(keyID: Bytes, salt: Bytes, ciphertext: Bytes)
    requires |salt| == SALT_BYTES
    ensures var bytes, k := EnvelopePrefix(keyID, salt, |ciphertext|) + ciphertext, |keyID|;
            && |bytes| == 40 + k + |ciphertext| && bytes[..12] == Preamble(ENVELOPE_MAGIC)
            && bytes[12..14] == BigEndian(k, 2) && bytes[14..16] == BigEndian(SALT_BYTES, 2)
            && bytes[16..24] == BigEndian(|ciphertext|, 8)
            && bytes[24..24 + k] == keyID && bytes[24 + k..40 + k] == salt
            && bytes[..40 + k] == EnvelopePrefix(keyID, salt, |ciphertext|) && bytes[40 + k..] == ciphertext
  {
  }

  lemma EnvelopeRoundTrip(envelope: Envelope)
    requires ValidEnvelope(envelope)
    ensures ParseEnvelope(EncodeEnvelope(envelope)) == Some(envelope)
  {
    EnvelopeLayout(envelope.keyID, envelope.salt, envelope.ciphertext);
    PreambleExact(EncodeEnvelope(envelope), ENVELOPE_MAGIC);
    Powers();
    NumberOfBigEndian(|envelope.keyID|, 2);
    NumberOfBigEndian(SALT_BYTES, 2);
    NumberOfBigEndian(|envelope.ciphertext|, 8);
  }

  lemma EnvelopeCanonical(bytes: Bytes)
    requires ParseEnvelope(bytes).Some?
    ensures ValidEnvelope(ParseEnvelope(bytes).value) && EncodeEnvelope(ParseEnvelope(bytes).value) == bytes
  {
    var keyLength, length := Number(bytes[12..14]), Number(bytes[16..24]);
    var prefixLength := ENVELOPE_HEADER_BYTES + keyLength + SALT_BYTES;
    var envelope := ParseEnvelope(bytes).value;
    assert envelope.keyID == bytes[24..24 + keyLength] && envelope.salt == bytes[24 + keyLength..prefixLength];
    assert envelope.ciphertext == bytes[prefixLength..] && |envelope.ciphertext| == length;
    assert EnvelopePrefix(envelope.keyID, envelope.salt, length) == bytes[..prefixLength];
    assert bytes == bytes[..prefixLength] + bytes[prefixLength..];
  }

  // ------------------------------------------------------------ bound inputs

  /** The associated data of an envelope, after a fixed domain. */
  function AssociatedData(domain: Bytes, prefix: Bytes, binding: Bytes): Bytes {
    domain + Part(prefix, 4) + Part(binding, 4)
  }

  lemma BoundInjective(domain: Bytes, a: Bytes, b: Bytes, a': Bytes, b': Bytes, width: nat)
    requires |a| < Power(width) && |a'| < Power(width) && |b| < Power(width) && |b'| < Power(width)
    requires domain + Part(a, width) + Part(b, width) == domain + Part(a', width) + Part(b', width)
    ensures a == a' && b == b'
  {
    StripDomain(domain, Part(a, width), Part(b, width));
    StripDomain(domain, Part(a', width), Part(b', width));
    PartInjective(a, Part(b, width), a', Part(b', width), width);
    assert Part(b, width) + [] == Part(b, width) && Part(b', width) + [] == Part(b', width);
    PartInjective(b, [], b', [], width);
  }

  lemma StripDomain(domain: Bytes, x: Bytes, y: Bytes)
    ensures (domain + x + y)[|domain|..] == x + y
  {
  }

  /** One associated-data string belongs to one envelope prefix and one binding. */
  lemma AssociatedDataInjective(domain: Bytes, prefix: Bytes, binding: Bytes, prefix': Bytes, binding': Bytes)
    requires |prefix| < 0x1_0000_0000 && |prefix'| < 0x1_0000_0000
    requires |binding| < 0x1_0000_0000 && |binding'| < 0x1_0000_0000
    requires AssociatedData(domain, prefix, binding) == AssociatedData(domain, prefix', binding')
    ensures prefix == prefix' && binding == binding'
  {
    Powers();
    BoundInjective(domain, prefix, binding, prefix', binding', 4);
  }

  /** What is hashed into the per-revision protector binding, after a fixed domain. */
  function BindingInput(domain: Bytes, caller: Bytes, prefix: Bytes): Bytes {
    domain + Part(caller, 8) + Part(prefix, 8)
  }

  /** One binding belongs to one caller and one revision and length of the state file. */
  lemma BindingInjective(domain: Bytes, caller: Bytes, revision: Bytes, length: nat, caller': Bytes, revision': Bytes,
                         length': nat)
    requires |revision| == REVISION_BYTES && |revision'| == REVISION_BYTES && length <= MAX_UINT64
             && length' <= MAX_UINT64
    requires |caller| <= MAX_UINT64 && |caller'| <= MAX_UINT64
    requires BindingInput(domain, caller, StatePrefix(revision, length))
          == BindingInput(domain, caller', StatePrefix(revision', length'))
    ensures caller == caller' && revision == revision' && length == length'
  {
    Powers();
    var prefix, prefix' := StatePrefix(revision, length), StatePrefix(revision', length');
    BoundInjective(domain, caller, prefix, caller', prefix', 8);
    assert prefix[12..44] == revision && prefix'[12..44] == revision';
    assert prefix[44..52] == BigEndian(length, 8) && prefix'[44..52] == BigEndian(length', 8);
    NumberOfBigEndian(length, 8);
    NumberOfBigEndian(length', 8);
  }

  // ------------------------------------------------------------ sealing a state

  const STABILIZATION_LIMIT: nat := 8

  /** A protector: `seal` may answer differently at every attempt. Bindings stand for their input. */
  datatype Protector = Protector(
    seal: (nat, Bytes, Bytes) -> Option<Bytes>,
    open: (Bytes, Bytes) -> Option<Bytes>)

  /** Seals of one plaintext all have the same acceptable length and open again. */
  ghost predicate Dependable(protector: Protector, plaintext: Bytes, length: nat) {
    forall attempt, binding ::
      match protector.seal(attempt, binding, plaintext)
      case None => false
      case Some(envelope) => |envelope| == length && protector.open(binding, envelope) == Some(plaintext)
  }

  /**
   Seals a state under a header that authenticates the sealed length itself. The result parses
   back and opens to the same plaintext; with a dependable protector it is found at once.
   */
  method SealForRevision(protector: Protector, domain: Bytes, caller: Bytes, revision: Bytes, plaintext: Bytes,
                         maximum: nat)
    returns (r: Result<(Bytes, Bytes)>)
    requires |revision| == REVISION_BYTES && !IsZero(revision) && maximum <= MAX_UINT64
    ensures r.Ok? ==>
              && ParseState(r.value.0 + r.value.1, maximum) == Some((revision, r.value.1))
              && protector.open(BindingInput(domain, caller, r.value.0), r.value.1) == Some(plaintext)
    ensures |plaintext| <= maximum
            && (exists length | 1 <= length <= maximum :: Dependable(protector, plaintext, length)) ==>
              r.Ok?
  {
    var sealedLength := 1;
    for attempt := 0 to STABILIZATION_LIMIT
      invariant forall length | 1 <= length <= maximum && Dependable(protector, plaintext, length) ::
                  attempt > 0 ==> sealedLength == length
      invariant forall length | 1 <= length <= maximum && Dependable(protector, plaintext, length) :: attempt <= 1
      invariant 1 <= sealedLength && (attempt > 0 ==> sealedLength <= maximum)
    {
      var prefix := StatePrefix(revision, sealedLength);
      var binding := BindingInput(domain, caller, prefix);
      var sealed := protector.seal(attempt, binding, plaintext);
      if sealed.None? {
        return Err(Unavailable);
      }
      var envelope := sealed.value;
      if |envelope| < 1 || |envelope| > maximum {
        return Err(ResourceLimit);
      }
      if |envelope| != sealedLength {
        sealedLength := |envelope|;
        continue;
      }
      var recovered := protector.open(binding, envelope);
      if recovered.None? {
        return Err(Unavailable);
      }
      if |recovered.value| > maximum {
        return Err(ResourceLimit);
      }
      if recovered.value != plaintext {
        return Err(Incompatible);
      }
      StateRoundTrip(revision, envelope, maximum);
      return Ok((prefix, envelope));
    }
    return Err(Incompatible);
  }
}

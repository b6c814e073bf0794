/** Values shared by the MHAS packetiser: bytes, packet headers, decoded
    configurations, the reader's failure results, the PES flags given to
    `packetStarted`, the events the reader sends to its output, and the
    bit-level decoders it calls but does not implement. */
module MhasTypes {

  newtype byte = b: int | 0 <= b < 256

  /** MpeghUtil.MAX_MHAS_PACKET_HEADER_SIZE: the size of the header scratch buffer. */
  const MAX_MHAS_PACKET_HEADER_SIZE: nat := 15
  /** MpeghUtil.MHAS_SYNC_WORD_LENGTH: the sync word is three bytes long. */
  const MHAS_SYNC_WORD_LENGTH: nat := 3

  /** C.TIME_UNSET (Long.MIN_VALUE + 1). */
  const TIME_UNSET: int := -9223372036854775807
  /** C.RATE_UNSET_INT (Integer.MIN_VALUE + 1). */
  const RATE_UNSET_INT: int := -2147483647
  /** C.LENGTH_UNSET. */
  const LENGTH_UNSET: int := -1
  /** C.INDEX_UNSET. */
  const INDEX_UNSET: int := -1

  /** A header never occupies more than the header scratch buffer. */
  type HeaderLength = n: nat | n <= MAX_MHAS_PACKET_HEADER_SIZE

  /** The packet types the reader dispatches on; every other code passes through. */
  datatype PacketType = Mpegh3daConfig | AudioTruncation | Mpegh3daFrame | OtherType(code: int)

  datatype PacketHeader = PacketHeader(
    packetType: PacketType,
    packetLabel: int,
    packetLength: nat,
    headerLength: HeaderLength)

  datatype AudioConfig = AudioConfig(
    samplingFrequency: int,
    standardFrameSamples: int,
    profileLevelIndication: int,
    compatibleProfileLevelSet: seq<byte>)

  /** The payloads that are assembled in the data scratch buffer before they are parsed. */
  predicate IsBuffered(t: PacketType)
  {
    t == Mpegh3daConfig || t == AudioTruncation
  }

  /** ParserException, IllegalStateException and IllegalArgumentException. */
  datatype Error = ParserError | IllegalState | IllegalArgument

  datatype Result<T> = Ok(value: T) | Err(error: Error)

  datatype Option<T> = None | Some(value: T)

  datatype Outcome = Pass | Fail(error: Error)

  /** FLAG_RANDOM_ACCESS_INDICATOR and FLAG_DATA_ALIGNMENT_INDICATOR of the PES packet. */
  datatype PesFlags = PesFlags(randomAccess: bool, dataAligned: bool)

  /** What the reader hands to its track output. */
  datatype Event =
    | SampleData(bytes: seq<byte>)
    | Format(packetLabel: int, sampleRate: int)
    | SampleMetadata(timeUs: int, keyFrame: bool, size: nat)

  /** The MpeghUtil parsers, each applied to the whole backing array of a
      buffer, and the frame-duration arithmetic on timestamps. */
  datatype Decoder = Decoder(
    isSyncWord: int -> bool,
    parseMhasPacketHeader: seq<byte> -> Result<PacketHeader>,
    parseMpegh3daConfig: seq<byte> -> Result<AudioConfig>,
    parseAudioTruncationInfo: seq<byte> -> int,
    advanceTimeUs: (int, int, int, int) -> int)

  /** Number of sample bytes one output event carries. */
  function EventBytes(e: Event): nat
  {
    match e
    case SampleData(b) => |b|
    case _ => 0
  }

  /** Number of sample bytes carried by a run of output events. */
  ghost function SampleBytes(events: seq<Event>): nat
  {
    if events == [] then 0
    else SampleBytes(events[..|events| - 1]) + EventBytes(events[|events| - 1])
  }

  /** Appending an event to the log adds its bytes to every suffix count. */
  lemma SampleBytesAppend(events: seq<Event>, from: nat, e: Event)
    requires from <= |events|
    ensures SampleBytes((events + [e])[from..]) == SampleBytes(events[from..]) + EventBytes(e)
  {
    var tail := (events + [e])[from..];
    assert tail[..|tail| - 1] == events[from..];
  }

  /** `s` with `piece` written over it from index `at` on. */
  function Splice(s: seq<byte>, at: nat, piece: seq<byte>): (r: seq<byte>)
    requires at + |piece| <= |s|
    ensures |r| == |s|
  {
    s[..at] + piece + s[at + |piece|..]
  }

  /** Inside the piece a splice reads the piece; elsewhere it reads `s`. */
  lemma SpliceIndex(s: seq<byte>, at: nat, piece: seq<byte>)
    requires at + |piece| <= |s|
    ensures forall i :: 0 <= i < |s| ==>
      Splice(s, at, piece)[i] == (if at <= i < at + |piece| then piece[i - at] else s[i])
  {
  }

  /** Up to the end of the piece, a splice is the untouched front followed by the piece. */
  lemma SplicePrefix(s: seq<byte>, at: nat, piece: seq<byte>)
    requires at + |piece| <= |s|
    ensures Splice(s, at, piece)[..at + |piece|] == s[..at] + piece
  {
  }

  /** After the end of the piece a splice is `s` unchanged. */
  lemma SpliceSuffix(s: seq<byte>, at: nat, piece: seq<byte>)
    requires at + |piece| <= |s|
    ensures Splice(s, at, piece)[at + |piece|..] == s[at + |piece|..]
  {
  }
}

/** The MPEG-H packetiser: it takes an MHAS elementary stream in slices of
    any size and emits the stream's bytes and one metadata record per access
    unit, moving through three states: finding sync, reading a packet
    header, and reading a packet payload. */
module Mpegh {
  import opened MhasTypes
  import opened Buffers
  import opened SyncScan

  datatype State = FindingSync | ReadingPacketHeader | ReadingPacketPayload

  /** The stream configuration, the access unit's timing and flags, and its
      byte count: the fields acting on a packet reads and writes. */
  datatype StreamFields = StreamFields(
    samplingRate: int, standardFrameLength: int, mainStreamLabel: int, configFound: bool,
    truncationSamples: int, rapPending: bool, timeUs: int, timeUsPending: int, dataPending: bool,
    frameBytes: nat)

  /** `min(available, room)`: the number of bytes one staged read moves. */
  function BytesToRead(available: nat, room: nat): (n: nat)
    ensures n <= available && n <= room
    ensures n == available || n == room
  {
    if available < room then available else room
  }

  class MpeghReader {
    /** The MpeghUtil parsers the reader relies on. */
    const decoder: Decoder

    var state: State
    /** Whether createTracks has bound the track output. */
    var outputBound: bool

    var timeUs: int
    var timeUsPending: int
    var dataPending: bool
    var rapPending: bool
    var flags: PesFlags

    var syncBytes: Int32Bits

    const headerScratchBytes: ParsableByteArray
    var headerDataFinished: bool

    const dataScratchBytes: ParsableByteArray

    var payloadBytesRead: nat
    var frameBytes: nat

    var header: Option<PacketHeader>
    var samplingRate: int
    var standardFrameLength: int
    var truncationSamples: int
    var mainStreamLabel: int
    var configFound: bool

    /** Everything sent to the track output, in order. */
    ghost var events: seq<Event>
    /** Where in `events` the access unit under construction began. */
    ghost var frameStart: nat
    /** The payload bytes of the current packet written so far. */
    ghost var payloadSoFar: seq<byte>

    /** The two scratch buffers and their fixed shapes. */
    ghost predicate ValidBuffers()
      reads this, headerScratchBytes, dataScratchBytes
    {
      && headerScratchBytes != dataScratchBytes
      && headerScratchBytes.data != dataScratchBytes.data
      && headerScratchBytes.Valid() && dataScratchBytes.Valid()
      && headerScratchBytes.data.Length == MAX_MHAS_PACKET_HEADER_SIZE
      && headerScratchBytes.limit == MAX_MHAS_PACKET_HEADER_SIZE
      && frameStart <= |events|
    }

    /** While a payload is read: the header that announced it has been written,
        no more than its length has been read, and a CONFIG or
        AUDIO_TRUNCATION payload is staged in the data scratch buffer byte
        for byte as it is written. */
    ghost predicate PayloadStageValid()
      reads this, headerScratchBytes, dataScratchBytes, dataScratchBytes.data
      requires ValidBuffers()
    {
      && header.Some? && headerDataFinished
      && header.value.headerLength <= headerScratchBytes.position
      && payloadBytesRead <= header.value.packetLength
      && |payloadSoFar| == payloadBytesRead
      && (IsBuffered(header.value.packetType) ==>
            && dataScratchBytes.limit == header.value.packetLength
            && (|| payloadBytesRead == header.value.packetLength
                || (&& dataScratchBytes.position == payloadBytesRead
                    && dataScratchBytes.data[..payloadBytesRead] == payloadSoFar)))
    }

    /** The reader's invariant. `frameBytes` counts the bytes of the access
        unit under construction: those already written since it began, plus,
        while a payload is read, the part of it not read yet. */
    ghost predicate Valid()
      reads this, headerScratchBytes, dataScratchBytes, dataScratchBytes.data
    {
      && ValidBuffers()
      && (!headerDataFinished ==> headerScratchBytes.position < MAX_MHAS_PACKET_HEADER_SIZE)
      && (state != ReadingPacketPayload ==> frameBytes == SampleBytes(events[frameStart..]))
      && (state == ReadingPacketPayload ==>
            && PayloadStageValid()
            && frameBytes + payloadBytesRead == SampleBytes(events[frameStart..]) + header.value.packetLength)
    }

    /** `data` shares no object with the reader's scratch buffers. */
    ghost predicate Apart(data: ParsableByteArray)
      reads this, headerScratchBytes, dataScratchBytes, data
    {
      && data != headerScratchBytes && data != dataScratchBytes
      && data.data != headerScratchBytes.data && data.data != dataScratchBytes.data
    }

    constructor (decoder: Decoder)
      ensures Valid() && fresh(headerScratchBytes) && fresh(dataScratchBytes)
      ensures fresh(headerScratchBytes.data) && fresh(dataScratchBytes.data)
      ensures this.decoder == decoder && !outputBound
      ensures state == FindingSync && syncBytes == 0
      ensures headerScratchBytes.position == 0 && dataScratchBytes.position == 0 && dataScratchBytes.limit == 0
      ensures !headerDataFinished && payloadBytesRead == 0 && frameBytes == 0 && header.None?
      ensures samplingRate == RATE_UNSET_INT && standardFrameLength == LENGTH_UNSET
      ensures truncationSamples == 0 && mainStreamLabel == INDEX_UNSET && !configFound
      ensures rapPending && !dataPending && timeUs == TIME_UNSET && timeUsPending == TIME_UNSET
      ensures events == []
    {
      this.decoder := decoder;
      state := FindingSync;
      outputBound := false;
      var headerData := new byte[MAX_MHAS_PACKET_HEADER_SIZE];
      headerScratchBytes := new ParsableByteArray.Wrap(headerData);
      dataScratchBytes := new ParsableByteArray.Empty();
      samplingRate := RATE_UNSET_INT;
      standardFrameLength := LENGTH_UNSET;
      mainStreamLabel := INDEX_UNSET;
      rapPending := true;
      timeUs := TIME_UNSET;
      timeUsPending := TIME_UNSET;
      dataPending := false;
      flags := PesFlags(false, false);
      syncBytes := 0;
      headerDataFinished := false;
      payloadBytesRead := 0;
      frameBytes := 0;
      header := None;
      truncationSamples := 0;
      configFound := false;
      events := [];
      frameStart := 0;
      payloadSoFar := [];
    }

    /** createTracks: binds the track output. */
    method CreateTracks()
      modifies this`outputBound
      ensures outputBound
    {
      outputBound := true;
    }

    /** Discards every partly read packet and frame and returns to the state
        of a new reader; what was already output stays output. */
    method Seek()
      requires Valid()
      modifies this, headerScratchBytes`position, dataScratchBytes`position, dataScratchBytes`limit
      ensures Valid()
      ensures state == FindingSync && syncBytes == 0
      ensures headerScratchBytes.position == 0 && dataScratchBytes.position == 0 && dataScratchBytes.limit == 0
      ensures !headerDataFinished && payloadBytesRead == 0 && frameBytes == 0 && header.None?
      ensures samplingRate == RATE_UNSET_INT && standardFrameLength == LENGTH_UNSET
      ensures truncationSamples == 0 && mainStreamLabel == INDEX_UNSET && !configFound
      ensures rapPending && !dataPending && timeUs == TIME_UNSET && timeUsPending == TIME_UNSET
      ensures events == old(events) && frameStart == |events|
      ensures outputBound == old(outputBound) && flags == old(flags)
    {
      ResetPacket();
      ResetStream();
    }

    /** The first half of seek: the sync search, the header and payload
        reads and the frame under construction start over. */
    method ResetPacket()
      requires ValidBuffers()
      modifies this`state, this`syncBytes, this`header, this`headerDataFinished,
        this`payloadBytesRead, this`frameBytes, this`frameStart,
        headerScratchBytes`position, dataScratchBytes`position, dataScratchBytes`limit
      ensures Valid()
      ensures state == FindingSync && syncBytes == 0
      ensures headerScratchBytes.position == 0 && dataScratchBytes.position == 0 && dataScratchBytes.limit == 0
      ensures !headerDataFinished && payloadBytesRead == 0 && frameBytes == 0 && header.None?
      ensures frameStart == |events|
    {
      state := FindingSync;
      syncBytes := 0;
      headerScratchBytes.position := 0;
      dataScratchBytes.position := 0;
      dataScratchBytes.limit := 0;
      header := None;
      headerDataFinished := false;
      payloadBytesRead := 0;
      frameBytes := 0;
      frameStart := |events|;
      assert events[frameStart..] == [];
    }

    /** The second half of seek: the decoded configuration, the pending
        timestamps and the wait for a random access point start over. */
    method ResetStream()
      modifies this`samplingRate, this`standardFrameLength, this`truncationSamples,
        this`mainStreamLabel, this`configFound, this`dataPending, this`rapPending,
        this`timeUs, this`timeUsPending
      ensures samplingRate == RATE_UNSET_INT && standardFrameLength == LENGTH_UNSET
      ensures truncationSamples == 0 && mainStreamLabel == INDEX_UNSET && !configFound
      ensures rapPending && !dataPending && timeUs == TIME_UNSET && timeUsPending == TIME_UNSET
    {
      samplingRate := RATE_UNSET_INT;
      standardFrameLength := LENGTH_UNSET;
      truncationSamples := 0;
      mainStreamLabel := INDEX_UNSET;
      configFound := false;
      dataPending := false;
      rapPending := true;
      timeUs := TIME_UNSET;
      timeUsPending := TIME_UNSET;
    }

    /** A new PES packet begins. Once a random access point has been passed,
        an unfinished frame or header marks a gap: the packet's timestamp is
        then held back in `timeUsPending` instead of replacing `timeUs`. */
    method PacketStarted(pesTimeUs: int, newFlags: PesFlags)
      requires Valid()
      modifies this`flags, this`dataPending, this`timeUs, this`timeUsPending
      ensures Valid()
      ensures flags == newFlags
      ensures dataPending == (old(dataPending) || (!rapPending && (frameBytes != 0 || !headerDataFinished)))
      ensures pesTimeUs == TIME_UNSET ==> timeUs == old(timeUs) && timeUsPending == old(timeUsPending)
      ensures pesTimeUs != TIME_UNSET && dataPending ==> timeUsPending == pesTimeUs && timeUs == old(timeUs)
      ensures pesTimeUs != TIME_UNSET && !dataPending ==> timeUs == pesTimeUs && timeUsPending == old(timeUsPending)
    {
      flags := newFlags;
      NoteTimestamp(pesTimeUs, !rapPending && (frameBytes != 0 || !headerDataFinished));
    }

    /** The timestamp half of packetStarted: `gap` tells whether the packet
        interrupts a frame or header already under way. */
    method NoteTimestamp(pesTimeUs: int, gap: bool)
      modifies this`dataPending, this`timeUs, this`timeUsPending
      ensures dataPending == (old(dataPending) || gap)
      ensures pesTimeUs == TIME_UNSET ==> timeUs == old(timeUs) && timeUsPending == old(timeUsPending)
      ensures pesTimeUs != TIME_UNSET && dataPending ==> timeUsPending == pesTimeUs && timeUs == old(timeUs)
      ensures pesTimeUs != TIME_UNSET && !dataPending ==> timeUs == pesTimeUs && timeUsPending == old(timeUsPending)
    {
      if gap {
        dataPending := true;
      }
      if pesTimeUs != TIME_UNSET {
        if dataPending {
          timeUsPending := pesTimeUs;
        } else {
          timeUs := pesTimeUs;
        }
      }
    }

    /** Drains `data`, emitting packet bytes and access-unit metadata; stops
        early only on a failure. */
    method Consume(data: ParsableByteArray) returns (result: Outcome)
      requires Valid() && data.Valid() && Apart(data)
      modifies this, headerScratchBytes`position, headerScratchBytes.data,
        dataScratchBytes, dataScratchBytes.data, data`position
      ensures Valid() && Apart(data) && data.Valid()
      ensures result.Pass? ==> data.position == data.limit
      ensures !old(outputBound) ==> result == Fail(IllegalState) && events == old(events)
      ensures old(events) <= events
      ensures flags == old(flags) && outputBound == old(outputBound)
      ensures old(outputBound) && old(state) == FindingSync && !flags.randomAccess ==>
        result == Pass && state == FindingSync && events == old(events)
    {
      if !outputBound {
        return Fail(IllegalState);
      }
      while data.position < data.limit
        invariant Valid() && Apart(data) && data.Valid()
        invariant data.limit == old(data.limit)
        invariant dataScratchBytes.data == old(dataScratchBytes.data) || fresh(dataScratchBytes.data)
        invariant old(events) <= events
        invariant flags == old(flags) && outputBound == old(outputBound)
        invariant old(state) == FindingSync && !flags.randomAccess ==>
          state == FindingSync && events == old(events)
        decreases if state == FindingSync then 1 else 0, data.limit - data.position,
          if state == ReadingPacketPayload then 1 else 0
      {
        result := Step(data);
        if result.Fail? {
          return;
        }
      }
      return Pass;
    }

    /** One pass of consume's loop: the step of the current state. A pass
        either leaves the sync search, or finishes the slice, or, once sync
        is found, never moves back in the slice and either consumes a byte
        of it or (at a payload's end) returns to reading a header. */
    method Step(data: ParsableByteArray) returns (r: Outcome)
      requires Valid() && data.Valid() && Apart(data) && data.position < data.limit
      modifies this, headerScratchBytes`position, headerScratchBytes.data,
        dataScratchBytes, dataScratchBytes.data, data`position
      ensures Valid() && Apart(data) && data.Valid()
      ensures dataScratchBytes.data == old(dataScratchBytes.data) || fresh(dataScratchBytes.data)
      ensures old(events) <= events
      ensures flags == old(flags) && outputBound == old(outputBound)
      ensures r.Pass? && old(state) == FindingSync ==>
        state != FindingSync || data.position == data.limit
      ensures r.Pass? && old(state) != FindingSync ==>
        state != FindingSync && old(data.position) <= data.position
      ensures r.Pass? && old(state) == ReadingPacketHeader ==> old(data.position) < data.position
      ensures r.Pass? && old(state) == ReadingPacketPayload ==>
        state == ReadingPacketHeader || data.position == data.limit
      ensures old(state) == FindingSync && !flags.randomAccess ==>
        r == Pass && state == FindingSync && events == old(events)
    {
      match state {
        case FindingSync =>
          r := SyncStep(data);
        case ReadingPacketHeader =>
          r := HeaderStep(data);
        case ReadingPacketPayload =>
          r := PayloadProgress(data);
      }
    }

    /** The sync case of consume: once a sync word is found, its packet
        header is read next. */
    method SyncStep(data: ParsableByteArray) returns (r: Outcome)
      requires Valid() && state == FindingSync
      requires data.Valid() && Apart(data) && data.position < data.limit
      modifies this`syncBytes, this`state, data`position
      ensures Valid() && data.Valid()
      ensures r.Pass? ==> state == ReadingPacketHeader || (state == FindingSync && data.position == data.limit)
      ensures !flags.randomAccess ==>
        r == Pass && state == FindingSync && data.position == data.limit && syncBytes == old(syncBytes)
      ensures flags.randomAccess && flags.dataAligned ==>
        && r == Pass && state == ReadingPacketHeader
        && data.position == old(data.position) && syncBytes == old(syncBytes)
      ensures flags.randomAccess && !flags.dataAligned ==>
        var bytes := data.data[old(data.position)..data.limit];
        match FirstSync(decoder.isSyncWord, old(syncBytes), bytes)
        case None =>
          && r == Pass && state == FindingSync && data.position == data.limit
          && syncBytes == Accumulate(old(syncBytes), bytes)
        case Some(k) =>
          var end := old(data.position) + k + 1;
          if end >= MHAS_SYNC_WORD_LENGTH then
            && r == Pass && state == ReadingPacketHeader
            && data.position == end - MHAS_SYNC_WORD_LENGTH && syncBytes == 0
          else
            && r == Fail(IllegalArgument) && state == FindingSync && data.position == end
            && syncBytes == Accumulate(old(syncBytes), bytes[..k + 1])
    {
      var found := SkipToNextSync(data);
      if found.Err? {
        return Fail(found.error);
      }
      if found.value {
        state := ReadingPacketHeader;
      }
      return Pass;
    }

    /** The header case of consume: after any bytes left over from the last
        packet are moved to the front, the header scratch buffer is filled
        from the slice; once it is full the header is parsed from it, written
        to the output, and its payload is read next. A slice too short to
        fill it is used up and nothing is output. */
    method HeaderStep(data: ParsableByteArray) returns (r: Outcome)
      requires Valid() && state == ReadingPacketHeader
      requires data.Valid() && Apart(data) && data.position < data.limit
      modifies this`headerDataFinished, this`header, this`payloadBytesRead, this`frameBytes,
        this`payloadSoFar, this`events, this`state,
        headerScratchBytes`position, headerScratchBytes.data, dataScratchBytes, data`position
      ensures Valid() && Apart(data) && data.Valid()
      ensures old(data.position) < data.position && old(events) <= events
      ensures dataScratchBytes.data == old(dataScratchBytes.data) || fresh(dataScratchBytes.data)
      ensures state != FindingSync
      ensures var kept := old(HeaderKept());
        var room := MAX_MHAS_PACKET_HEADER_SIZE - |kept|;
        if old(data.BytesLeft()) < room then
          && r == Pass && state == ReadingPacketHeader && events == old(events)
          && data.position == data.limit
          && headerScratchBytes.position == |kept| + old(data.BytesLeft())
          && headerScratchBytes.data[..headerScratchBytes.position]
             == kept + old(data.data[data.position..data.limit])
        else
          var bytes := kept + old(data.data[data.position..data.position + room]);
          && data.position == old(data.position) + room
          && headerScratchBytes.data[..] == bytes
          && match decoder.parseMhasPacketHeader(bytes)
            case Err(_) =>
              && r == Fail(ParserError) && state == ReadingPacketHeader && events == old(events)
            case Ok(h) =>
              && r == Pass && state == ReadingPacketPayload && header == Some(h)
              && headerScratchBytes.position == h.headerLength
              && events == old(events) + [SampleData(bytes[..h.headerLength])]
    {
      var complete := FillHeader(data);
      if !complete {
        return Pass;
      }
      r := TakeHeader();
    }

    /** The rest of the header case, once the header scratch buffer is full:
        parseHeader, then the header's bytes go to the output and the payload
        is read next. */
    method TakeHeader() returns (r: Outcome)
      requires ValidBuffers() && state == ReadingPacketHeader
      requires frameBytes == SampleBytes(events[frameStart..])
      requires headerScratchBytes.position == MAX_MHAS_PACKET_HEADER_SIZE
      modifies this`header, this`payloadBytesRead, this`frameBytes, this`headerDataFinished,
        this`payloadSoFar, this`events, this`state, headerScratchBytes`position, dataScratchBytes
      ensures Valid() && old(events) <= events && state != FindingSync
      ensures dataScratchBytes.data == old(dataScratchBytes.data) || fresh(dataScratchBytes.data)
      ensures match decoder.parseMhasPacketHeader(headerScratchBytes.data[..])
        case Err(_) =>
          && r == Fail(ParserError) && state == ReadingPacketHeader && events == old(events)
        case Ok(h) =>
          && r == Pass && state == ReadingPacketPayload && header == Some(h)
          && headerScratchBytes.position == h.headerLength
          && events == old(events) + [SampleData(headerScratchBytes.data[..h.headerLength])]
    {
      r := ParseHeader();
      if r.Fail? {
        return;
      }
      SampleDataOut(headerScratchBytes, header.value.headerLength);
      state := ReadingPacketPayload;
    }

    /** The bytes a header is read from before the slice is: those after the
        position once a header has been parsed, else those read so far. */
    ghost function HeaderKept(): (kept: seq<byte>)
      reads this, headerScratchBytes, headerScratchBytes.data
      requires headerScratchBytes.Valid() && headerScratchBytes.data.Length == MAX_MHAS_PACKET_HEADER_SIZE
      requires !headerDataFinished ==> headerScratchBytes.position < MAX_MHAS_PACKET_HEADER_SIZE
      ensures |kept| < MAX_MHAS_PACKET_HEADER_SIZE
    {
      var p := headerScratchBytes.position;
      if headerDataFinished && p > 0 then headerScratchBytes.data[p..] else headerScratchBytes.data[..p]
    }

    /** The first two steps of the header case: maybeAdjustHeaderScratchBuffer
        then continueRead; the buffer then holds the kept bytes followed by
        those of the slice, and is complete once it holds a whole header's
        worth. */
    method FillHeader(data: ParsableByteArray) returns (complete: bool)
      requires Valid() && state == ReadingPacketHeader
      requires data.Valid() && Apart(data) && data.position < data.limit
      modifies this`headerDataFinished, headerScratchBytes`position, headerScratchBytes.data, data`position
      ensures ValidBuffers() && data.Valid()
      ensures old(data.position) < data.position
      ensures var kept := old(HeaderKept());
        var room := MAX_MHAS_PACKET_HEADER_SIZE - |kept|;
        if old(data.BytesLeft()) < room then
          && !complete && Valid() && data.position == data.limit
          && headerScratchBytes.position == |kept| + old(data.BytesLeft())
          && headerScratchBytes.data[..headerScratchBytes.position]
             == kept + old(data.data[data.position..data.limit])
        else
          && complete && data.position == old(data.position) + room
          && headerScratchBytes.position == MAX_MHAS_PACKET_HEADER_SIZE
          && headerScratchBytes.data[..] == kept + old(data.data[data.position..data.position + room])
    {
      ghost var kept := HeaderKept();
      MaybeAdjustHeaderScratchBuffer();
      assert headerScratchBytes.data[..headerScratchBytes.position] == kept;
      ghost var mid := headerScratchBytes.data[..];
      ghost var n := BytesToRead(data.BytesLeft(), MAX_MHAS_PACKET_HEADER_SIZE - |kept|);
      ghost var piece := data.data[data.position..data.position + n];
      complete := ContinueRead(data, headerScratchBytes, MAX_MHAS_PACKET_HEADER_SIZE);
      SplicePrefix(mid, |kept|, piece);
    }

    /** The payload case as consume's loop relies on it: it stays out of the
        sync search, never moves back in the slice, and either returns to
        header reading or uses the slice up. */
    method PayloadProgress(data: ParsableByteArray) returns (r: Outcome)
      requires Valid() && state == ReadingPacketPayload
      requires data.Valid() && Apart(data)
      modifies this`payloadBytesRead, this`events, this`payloadSoFar, this`state,
        this`samplingRate, this`standardFrameLength, this`mainStreamLabel, this`configFound,
        this`truncationSamples, this`rapPending, this`timeUs, this`dataPending,
        this`frameBytes, this`frameStart,
        headerScratchBytes`position, dataScratchBytes`position, dataScratchBytes.data, data`position
      ensures Valid() && Apart(data) && data.Valid()
      ensures old(data.position) <= data.position && old(events) <= events
      ensures state != FindingSync
      ensures r.Pass? ==> state == ReadingPacketHeader || data.position == data.limit
    {
      r := PayloadStep(data);
    }

    /** The payload case of consume: the next payload bytes are staged and
        written; once the whole payload is in, the packet is acted on, and
        unless that fails the next header is read. */
    method PayloadStep(data: ParsableByteArray) returns (r: Outcome)
      requires Valid() && state == ReadingPacketPayload
      requires data.Valid() && Apart(data)
      modifies this`payloadBytesRead, this`events, this`payloadSoFar, this`state,
        this`samplingRate, this`standardFrameLength, this`mainStreamLabel, this`configFound,
        this`truncationSamples, this`rapPending, this`timeUs, this`dataPending,
        this`frameBytes, this`frameStart,
        headerScratchBytes`position, dataScratchBytes`position, dataScratchBytes.data, data`position
      ensures Valid() && Apart(data) && data.Valid()
      ensures old(data.position) <= data.position && old(events) <= events
      ensures state != FindingSync
      ensures r.Pass? ==> state == ReadingPacketHeader || data.position == data.limit
      ensures payloadSoFar == old(payloadSoFar) + old(NextPayloadBytes(data))
      ensures payloadBytesRead == old(payloadBytesRead) + |old(NextPayloadBytes(data))|
      ensures payloadBytesRead < header.value.packetLength ==>
        && r == Pass && state == ReadingPacketPayload && data.position == data.limit
        && events == old(events) + old(WriteEvents(data))
        && Fields() == old(Fields()) && frameStart == old(frameStart)
      ensures payloadBytesRead == header.value.packetLength ==>
        var bits := dataScratchBytes.data[..];
        && Acted(header.value, bits, r, old(Fields()), Fields())
        && events == old(events) + old(WriteEvents(data)) + PacketEvents(header.value, bits, old(Fields()))
        && frameStart == (if header.value.packetType == Mpegh3daFrame then |events| else old(frameStart))
        && dataScratchBytes.position == 0
        && (r.Pass? ==> state == ReadingPacketHeader)
        && (r.Fail? ==> state == ReadingPacketPayload)
        && (IsBuffered(header.value.packetType) && old(payloadBytesRead) < header.value.packetLength ==>
              dataScratchBytes.data[..payloadBytesRead] == payloadSoFar)
    {
      TakePayload(data);
      assert Fields() == old(Fields());
      if payloadBytesRead < header.value.packetLength {
        return Pass;
      }
      r := PayloadFinished();
    }

    /** The first two steps of the payload case: maybeCopyToDataScratchBuffer
        then writeSampleData. The bytes written are those staged, so a staged
        payload stays a copy of the payload written so far. */
    method TakePayload(data: ParsableByteArray)
      requires Valid() && state == ReadingPacketPayload
      requires data.Valid() && Apart(data)
      modifies this`payloadBytesRead, this`events, this`payloadSoFar,
        headerScratchBytes`position, dataScratchBytes`position, dataScratchBytes.data, data`position
      ensures Valid() && Apart(data) && data.Valid()
      ensures old(data.position) <= data.position
      ensures payloadSoFar == old(payloadSoFar) + old(NextPayloadBytes(data))
      ensures payloadBytesRead == old(payloadBytesRead) + |old(NextPayloadBytes(data))|
      ensures events == old(events) + old(WriteEvents(data))
      ensures payloadBytesRead < header.value.packetLength ==> data.position == data.limit
      ensures IsBuffered(header.value.packetType) && old(payloadBytesRead) < header.value.packetLength ==>
        dataScratchBytes.data[..payloadBytesRead] == payloadSoFar
    {
      MaybeCopyToDataScratchBuffer(data);
      WriteSampleData(data);
    }

    /** The end of a packet's payload: the packet is acted on, decoding from
        the whole data scratch buffer rewound to its start, and unless that
        fails the next header is read. */
    method PayloadFinished() returns (r: Outcome)
      requires Valid() && state == ReadingPacketPayload
      requires payloadBytesRead == header.value.packetLength
      modifies this`state, dataScratchBytes`position, this`samplingRate, this`standardFrameLength,
        this`mainStreamLabel, this`events, this`configFound, this`truncationSamples,
        this`rapPending, this`timeUs, this`dataPending, this`frameBytes, this`frameStart
      ensures Valid()
      ensures dataScratchBytes.position == 0
      ensures Acted(header.value, dataScratchBytes.data[..], r, old(Fields()), Fields())
      ensures events == old(events) + PacketEvents(header.value, dataScratchBytes.data[..], old(Fields()))
      ensures frameStart == (if header.value.packetType == Mpegh3daFrame then |events| else old(frameStart))
      ensures r.Pass? ==> state == ReadingPacketHeader
      ensures r.Fail? ==> state == ReadingPacketPayload
    {
      dataScratchBytes.position := 0;
      r := ActOnPacket(dataScratchBytes.data[..]);
      if r.Pass? {
        state := ReadingPacketHeader;
      }
    }

    /** The fields acting on a packet reads and writes. */
    function Fields(): StreamFields
      reads this`samplingRate, this`standardFrameLength, this`mainStreamLabel, this`configFound,
        this`truncationSamples, this`rapPending, this`timeUs, this`timeUsPending, this`dataPending,
        this`frameBytes
    {
      StreamFields(samplingRate, standardFrameLength, mainStreamLabel, configFound,
                   truncationSamples, rapPending, timeUs, timeUsPending, dataPending, frameBytes)
    }

    /** What acting on a packet with header `h` and payload `bits` does to
        the fields, from `s` to `t`, with result `r`. A CONFIG payload that
        decodes replaces the rate and frame length, declares the packet's
        label and marks the access unit as a key frame; one that does not
        fails and changes nothing. An AUDIO_TRUNCATION payload sets the
        samples to drop. A FRAME packet ends the access unit: a decoded
        configuration ends the wait for a random access point, the timestamp
        moves to the pending one after a gap or else advances by one frame,
        and the per-unit flags and byte count reset. Any other packet changes
        nothing. */
    ghost predicate Acted(h: PacketHeader, bits: seq<byte>, r: Outcome, s: StreamFields, t: StreamFields)
    {
      match h.packetType
      case Mpegh3daConfig =>
        (match decoder.parseMpegh3daConfig(bits)
         case Err(_) => r == Fail(ParserError) && t == s
         case Ok(config) =>
           && r == Pass
           && t == s.(samplingRate := config.samplingFrequency,
                      standardFrameLength := config.standardFrameSamples,
                      mainStreamLabel := h.packetLabel, configFound := true))
      case AudioTruncation =>
        r == Pass && t == s.(truncationSamples := decoder.parseAudioTruncationInfo(bits))
      case Mpegh3daFrame =>
        && r == Pass
        && t == s.(rapPending := s.rapPending && !s.configFound,
                   timeUs := if s.dataPending then s.timeUsPending
                             else decoder.advanceTimeUs(s.timeUs, s.standardFrameLength,
                                                        s.truncationSamples, s.samplingRate),
                   dataPending := false, configFound := false, truncationSamples := 0, frameBytes := 0)
      case OtherType(_) =>
        r == Pass && t == s
    }

    /** The records acting on a packet with header `h` and payload `bits`
        outputs from fields `s`: a format when a CONFIG payload decodes under
        a label other than the last declared one, the access unit's metadata
        for a FRAME packet, and nothing otherwise. */
    ghost function PacketEvents(h: PacketHeader, bits: seq<byte>, s: StreamFields): seq<Event>
    {
      match h.packetType
      case Mpegh3daConfig =>
        (match decoder.parseMpegh3daConfig(bits)
         case Ok(config) =>
           if s.mainStreamLabel != h.packetLabel
           then [Format(h.packetLabel, config.samplingFrequency)] else []
         case Err(_) => [])
      case Mpegh3daFrame => [SampleMetadata(s.timeUs, s.configFound, s.frameBytes)]
      case _ => []
    }

    /** The packet-type switch of consume: a CONFIG payload is decoded, an
        AUDIO_TRUNCATION payload gives the samples to drop from the frame, a
        FRAME packet completes the access unit, and any other packet passes.
        Only a CONFIG payload that does not decode fails, and then nothing
        changes. */
    method ActOnPacket(bits: seq<byte>) returns (r: Outcome)
      requires header.Some? && frameStart <= |events|
      requires frameBytes == SampleBytes(events[frameStart..])
      modifies this`samplingRate, this`standardFrameLength,
        this`mainStreamLabel, this`events, this`configFound, this`truncationSamples,
        this`rapPending, this`timeUs, this`dataPending, this`frameBytes, this`frameStart
      ensures frameStart <= |events| && frameBytes == SampleBytes(events[frameStart..])
      ensures Acted(header.value, bits, r, old(Fields()), Fields())
      ensures events == old(events) + PacketEvents(header.value, bits, old(Fields()))
      ensures frameStart == (if header.value.packetType == Mpegh3daFrame then |events| else old(frameStart))
    {
      r := Pass;
      match header.value.packetType {
        case Mpegh3daConfig =>
          r := ParseConfig(bits);
        case AudioTruncation =>
          truncationSamples := decoder.parseAudioTruncationInfo(bits);
        case Mpegh3daFrame =>
          FinalizeFrame();
          assert events[frameStart..] == [];
        case OtherType(_) =>
      }
    }

    /** continueRead: moves `min(source bytes left, targetLength - target
        position)` bytes from the source to the target, advancing both, and
        tells whether the target is now filled to `targetLength`. */
    static method ContinueRead(source: ParsableByteArray, target: ParsableByteArray, targetLength: nat)
      returns (reached: bool)
      requires source.Valid() && target.Valid()
      requires source != target && source.data != target.data
      requires target.position <= targetLength <= target.limit
      modifies source`position, target`position, target.data
      ensures source.Valid() && target.Valid()
      ensures var n := BytesToRead(old(source.BytesLeft()), targetLength - old(target.position));
        && source.position == old(source.position) + n
        && target.position == old(target.position) + n
        && target.data[..] == Splice(old(target.data[..]), old(target.position),
                                     old(source.data[source.position..source.position + n]))
      ensures target.position <= targetLength
      ensures reached <==> target.position == targetLength
    {
      var bytesToRead := BytesToRead(source.BytesLeft(), targetLength - target.position);
      ArrayCopy(source.data, source.position, target.data, target.position, bytesToRead);
      source.position := source.position + bytesToRead;
      target.position := target.position + bytesToRead;
      reached := target.position == targetLength;
    }

    /** copyData: the same copy as ContinueRead, but the source keeps its
        position, so the bytes can still be read from it afterwards. */
    static method CopyData(source: ParsableByteArray, target: ParsableByteArray, targetLength: nat)
      requires source.Valid() && target.Valid()
      requires source != target && source.data != target.data
      requires target.position <= targetLength <= target.limit
      modifies target`position, target.data
      ensures target.Valid()
      ensures var n := BytesToRead(old(source.BytesLeft()), targetLength - old(target.position));
        && target.position == old(target.position) + n
        && target.data[..target.position]
           == old(target.data[..target.position]) + old(source.data[source.position..source.position + n])
        && target.data[target.position..] == old(target.data[target.position + n..])
      ensures target.position <= targetLength
    {
      var bytesToRead := BytesToRead(source.BytesLeft(), targetLength - target.position);
      ghost var before := target.data[..];
      ghost var piece := source.data[source.position..source.position + bytesToRead];
      ArrayCopy(source.data, source.position, target.data, target.position, bytesToRead);
      SplicePrefix(before, target.position, piece);
      SpliceSuffix(before, target.position, piece);
      target.position := target.position + bytesToRead;
    }

    /** skipToNextSync. Without the random access indicator the slice is
        dropped. With it and the data alignment indicator, the slice is taken
        to start on a packet. Otherwise the bytes are shifted into `syncBytes`
        one by one until the decoder recognises a sync word; the position is
        then rewound by MHAS_SYNC_WORD_LENGTH, which fails when that would go
        before the start of the backing array. */
    method SkipToNextSync(pesBuffer: ParsableByteArray) returns (r: Result<bool>)
      requires pesBuffer.Valid()
      modifies this`syncBytes, pesBuffer`position
      ensures pesBuffer.Valid()
      ensures !flags.randomAccess ==>
        r == Ok(false) && pesBuffer.position == pesBuffer.limit && syncBytes == old(syncBytes)
      ensures flags.randomAccess && flags.dataAligned ==>
        r == Ok(true) && pesBuffer.position == old(pesBuffer.position) && syncBytes == old(syncBytes)
      ensures flags.randomAccess && !flags.dataAligned ==>
        var bytes := pesBuffer.data[old(pesBuffer.position)..pesBuffer.limit];
        match FirstSync(decoder.isSyncWord, old(syncBytes), bytes)
        case None =>
          && r == Ok(false) && pesBuffer.position == pesBuffer.limit
          && syncBytes == Accumulate(old(syncBytes), bytes)
        case Some(k) =>
          var end := old(pesBuffer.position) + k + 1;
          if end >= MHAS_SYNC_WORD_LENGTH then
            r == Ok(true) && pesBuffer.position == end - MHAS_SYNC_WORD_LENGTH && syncBytes == 0
          else
            && r == Err(IllegalArgument) && pesBuffer.position == end
            && syncBytes == Accumulate(old(syncBytes), bytes[..k + 1])
    {
      if !flags.randomAccess {
        pesBuffer.position := pesBuffer.limit;
        return Ok(false);
      }
      if flags.dataAligned {
        return Ok(true);
      }
      var start := pesBuffer.position;
      ghost var s0 := syncBytes;
      ghost var bytes := pesBuffer.data[start..pesBuffer.limit];
      while pesBuffer.position < pesBuffer.limit
        invariant start <= pesBuffer.position <= pesBuffer.limit
        invariant syncBytes == Accumulate(s0, bytes[..pesBuffer.position - start])
        invariant FirstSync(decoder.isSyncWord, s0, bytes[..pesBuffer.position - start]).None?
      {
        var i := pesBuffer.position - start;
        var b := pesBuffer.data[pesBuffer.position];
        pesBuffer.position := pesBuffer.position + 1;
        syncBytes := ShiftIn(syncBytes, b);
        assert bytes[..i + 1][..i] == bytes[..i];
        assert Accumulate(s0, bytes[..i + 1]) == syncBytes;
        if decoder.isSyncWord(syncBytes) {
          assert FirstSync(decoder.isSyncWord, s0, bytes[..i + 1]) == Some(i);
          FirstSyncOfPrefix(decoder.isSyncWord, s0, bytes, i + 1);
          if pesBuffer.position < MHAS_SYNC_WORD_LENGTH {
            return Err(IllegalArgument);
          }
          pesBuffer.position := pesBuffer.position - MHAS_SYNC_WORD_LENGTH;
          syncBytes := 0;
          return Ok(true);
        }
      }
      assert bytes[..pesBuffer.position - start] == bytes;
      return Ok(false);
    }

    /** parseHeader: parses the header scratch buffer, restarts the payload
        count, adds the packet's header and payload lengths to the frame, and
        for CONFIG and AUDIO_TRUNCATION packets sizes the data scratch buffer
        to the payload. */
    method ParseHeader() returns (r: Outcome)
      requires ValidBuffers() && state == ReadingPacketHeader
      requires frameBytes == SampleBytes(events[frameStart..])
      requires headerScratchBytes.position == MAX_MHAS_PACKET_HEADER_SIZE
      modifies this`header, this`payloadBytesRead, this`frameBytes, this`headerDataFinished,
        this`payloadSoFar, headerScratchBytes`position, dataScratchBytes
      ensures ValidBuffers()
      ensures dataScratchBytes.data == old(dataScratchBytes.data) || fresh(dataScratchBytes.data)
      ensures headerScratchBytes.position == 0
      ensures match decoder.parseMhasPacketHeader(old(headerScratchBytes.data[..]))
        case Err(_) =>
          && r == Fail(ParserError) && Valid()
          && header == old(header) && payloadBytesRead == old(payloadBytesRead)
          && frameBytes == old(frameBytes) && headerDataFinished == old(headerDataFinished)
          && payloadSoFar == old(payloadSoFar)
          && dataScratchBytes.data == old(dataScratchBytes.data)
          && dataScratchBytes.position == old(dataScratchBytes.position)
          && dataScratchBytes.limit == old(dataScratchBytes.limit)
        case Ok(h) =>
          && r == Pass && header == Some(h) && headerDataFinished
          && payloadBytesRead == 0 && payloadSoFar == []
          && frameBytes == old(frameBytes) + h.packetLength + h.headerLength
          && (IsBuffered(h.packetType) ==>
                && dataScratchBytes.position == 0 && dataScratchBytes.limit == h.packetLength)
          && (!IsBuffered(h.packetType) ==>
                && dataScratchBytes.data == old(dataScratchBytes.data)
                && dataScratchBytes.position == old(dataScratchBytes.position)
                && dataScratchBytes.limit == old(dataScratchBytes.limit))
    {
      headerScratchBytes.position := 0;
      var parsed := decoder.parseMhasPacketHeader(headerScratchBytes.data[..]);
      if parsed.Err? {
        return Fail(ParserError);
      }
      var h := parsed.value;
      header := Some(h);
      payloadBytesRead := 0;
      payloadSoFar := [];
      frameBytes := frameBytes + h.packetLength + h.headerLength;
      if IsBuffered(h.packetType) {
        dataScratchBytes.EnsureCapacity(h.packetLength);
        dataScratchBytes.position := 0;
        dataScratchBytes.limit := h.packetLength;
      }
      headerDataFinished := true;
      return Pass;
    }

    /** maybeAdjustHeaderScratchBuffer: once a header has been parsed, the
        bytes after the position (read ahead of the header but part of the
        stream that follows it) move to the front of the buffer, in order,
        and reading resumes after them. */
    method MaybeAdjustHeaderScratchBuffer()
      requires Valid() && state == ReadingPacketHeader
      modifies this`headerDataFinished, headerScratchBytes`position, headerScratchBytes.data
      ensures Valid()
      ensures headerScratchBytes.position < MAX_MHAS_PACKET_HEADER_SIZE
      ensures old(headerDataFinished && headerScratchBytes.position > 0) ==>
        var p := old(headerScratchBytes.position);
        var left := MAX_MHAS_PACKET_HEADER_SIZE - p;
        && !headerDataFinished && headerScratchBytes.position == left
        && headerScratchBytes.data[..left] == old(headerScratchBytes.data[p..])
        && headerScratchBytes.data[left..] == old(headerScratchBytes.data[left..])
      ensures !old(headerDataFinished && headerScratchBytes.position > 0) ==>
        && headerDataFinished == old(headerDataFinished)
        && headerScratchBytes.position == old(headerScratchBytes.position)
        && headerScratchBytes.data[..] == old(headerScratchBytes.data[..])
    {
      if headerDataFinished && headerScratchBytes.position > 0 {
        var left := headerScratchBytes.BytesLeft();
        ArrayCopy(headerScratchBytes.data, headerScratchBytes.position, headerScratchBytes.data, 0, left);
        headerScratchBytes.position := left;
        headerDataFinished := false;
      }
    }

    /** The number of payload bytes still to come from the header scratch buffer. */
    function HeaderBytesToWrite(): nat
      reads this, headerScratchBytes
      requires header.Some? && headerScratchBytes.Valid() && payloadBytesRead <= header.value.packetLength
    {
      if headerScratchBytes.position != MAX_MHAS_PACKET_HEADER_SIZE
      then BytesToRead(headerScratchBytes.BytesLeft(), header.value.packetLength - payloadBytesRead)
      else 0
    }

    /** The payload bytes still to come from the header scratch buffer. */
    ghost function HeaderPiece(): seq<byte>
      reads this, headerScratchBytes, headerScratchBytes.data
      requires header.Some? && headerScratchBytes.Valid() && payloadBytesRead <= header.value.packetLength
    {
      var p := headerScratchBytes.position;
      headerScratchBytes.data[p..p + HeaderBytesToWrite()]
    }

    /** The payload bytes one payload step takes from the slice: those after
        the header scratch buffer's, up to the packet length. */
    ghost function SlicePiece(data: ParsableByteArray): seq<byte>
      reads this, headerScratchBytes, data, data.data
      requires header.Some? && headerScratchBytes.Valid() && data.Valid()
      requires payloadBytesRead <= header.value.packetLength
    {
      var n := BytesToRead(data.BytesLeft(), header.value.packetLength - payloadBytesRead - HeaderBytesToWrite());
      data.data[data.position..data.position + n]
    }

    /** The payload bytes one payload step writes: first those left in the
        header scratch buffer, then those of the slice. */
    ghost function NextPayloadBytes(data: ParsableByteArray): seq<byte>
      reads this, headerScratchBytes, headerScratchBytes.data, data, data.data
      requires header.Some? && headerScratchBytes.Valid() && data.Valid()
      requires payloadBytesRead <= header.value.packetLength
    {
      HeaderPiece() + SlicePiece(data)
    }

    /** The `sampleData` calls of one payload step: the payload bytes left in
        the header scratch buffer, unless it is used up, then those of the slice. */
    ghost function WriteEvents(data: ParsableByteArray): seq<Event>
      reads this, headerScratchBytes, headerScratchBytes.data, data, data.data
      requires header.Some? && headerScratchBytes.Valid() && data.Valid()
      requires payloadBytesRead <= header.value.packetLength
    {
      (if headerScratchBytes.position != MAX_MHAS_PACKET_HEADER_SIZE
       then [SampleData(HeaderPiece())] else [])
      + [SampleData(SlicePiece(data))]
    }

    /** maybeCopyToDataScratchBuffer: for CONFIG and AUDIO_TRUNCATION packets,
        appends to the data scratch buffer, without consuming them, the bytes
        WriteSampleData is about to write. */
    method MaybeCopyToDataScratchBuffer(data: ParsableByteArray)
      requires ValidBuffers() && data.Valid() && Apart(data)
      requires header.Some? && payloadBytesRead <= header.value.packetLength
      requires IsBuffered(header.value.packetType) ==> dataScratchBytes.limit == header.value.packetLength
      modifies dataScratchBytes`position, dataScratchBytes.data
      ensures ValidBuffers()
      ensures !IsBuffered(header.value.packetType) ==>
        && dataScratchBytes.position == old(dataScratchBytes.position)
        && dataScratchBytes.data[..] == old(dataScratchBytes.data[..])
      ensures IsBuffered(header.value.packetType) && old(dataScratchBytes.position) == payloadBytesRead ==>
        var next := old(NextPayloadBytes(data));
        && dataScratchBytes.position == payloadBytesRead + |next|
        && dataScratchBytes.data[..dataScratchBytes.position]
           == old(dataScratchBytes.data[..payloadBytesRead]) + next
    {
      var h := header.value;
      if IsBuffered(h.packetType) {
        StageHeaderRest();
        CopyData(data, dataScratchBytes, h.packetLength);
      }
    }

    /** The first copy of maybeCopyToDataScratchBuffer: the payload bytes
        read ahead into the header scratch buffer, unless it is used up. */
    method StageHeaderRest()
      requires ValidBuffers() && header.Some? && payloadBytesRead <= header.value.packetLength
      requires dataScratchBytes.limit == header.value.packetLength
      modifies dataScratchBytes`position, dataScratchBytes.data
      ensures ValidBuffers()
      ensures dataScratchBytes.position <= header.value.packetLength
      ensures old(dataScratchBytes.position) == payloadBytesRead ==>
        var n := HeaderBytesToWrite();
        var p := headerScratchBytes.position;
        && dataScratchBytes.position == payloadBytesRead + n
        && dataScratchBytes.data[..dataScratchBytes.position]
           == old(dataScratchBytes.data[..payloadBytesRead]) + headerScratchBytes.data[p..p + n]
    {
      if headerScratchBytes.position != MAX_MHAS_PACKET_HEADER_SIZE {
        CopyData(headerScratchBytes, dataScratchBytes, header.value.packetLength);
      }
    }

    /** writeSampleData: writes the payload bytes left in the header scratch
        buffer, then those of the slice, never reading past the packet length.
        The first write is skipped when the header scratch buffer is used up. */
    method WriteSampleData(data: ParsableByteArray)
      requires ValidBuffers() && data.Valid() && Apart(data)
      requires header.Some? && payloadBytesRead <= header.value.packetLength
      modifies this`payloadBytesRead, this`events, this`payloadSoFar,
        headerScratchBytes`position, data`position
      ensures ValidBuffers() && data.Valid()
      ensures headerScratchBytes.position == old(headerScratchBytes.position) + old(HeaderBytesToWrite())
      ensures data.position == old(data.position) + |old(NextPayloadBytes(data))| - old(HeaderBytesToWrite())
      ensures payloadBytesRead == old(payloadBytesRead) + |old(NextPayloadBytes(data))|
      ensures payloadSoFar == old(payloadSoFar) + old(NextPayloadBytes(data))
      ensures events == old(events) + old(WriteEvents(data))
      ensures SampleBytes(events[frameStart..]) == old(SampleBytes(events[frameStart..])) + |old(NextPayloadBytes(data))|
      ensures payloadBytesRead <= header.value.packetLength
      ensures payloadBytesRead < header.value.packetLength ==> data.position == data.limit
    {
      ghost var slice := SlicePiece(data);
      WriteHeaderRest();
      var bytesToRead := BytesToRead(data.BytesLeft(), header.value.packetLength - payloadBytesRead);
      assert data.data[data.position..data.position + bytesToRead] == slice;
      WritePayloadPiece(data, bytesToRead);
    }

    /** The first write of writeSampleData: the payload bytes read ahead
        into the header scratch buffer, unless it is used up. */
    method WriteHeaderRest()
      requires headerScratchBytes.Valid() && frameStart <= |events|
      requires header.Some? && payloadBytesRead <= header.value.packetLength
      modifies this`payloadBytesRead, this`events, this`payloadSoFar, headerScratchBytes`position
      ensures headerScratchBytes.Valid()
      ensures var n := old(HeaderBytesToWrite());
        var p := old(headerScratchBytes.position);
        var piece := old(HeaderPiece());
        && headerScratchBytes.position == p + n
        && payloadBytesRead == old(payloadBytesRead) + n
        && payloadSoFar == old(payloadSoFar) + piece
        && events == old(events) + (if p != MAX_MHAS_PACKET_HEADER_SIZE then [SampleData(piece)] else [])
        && SampleBytes(events[frameStart..]) == SampleBytes(old(events)[frameStart..]) + n
    {
      if headerScratchBytes.position != MAX_MHAS_PACKET_HEADER_SIZE {
        var bytesToRead := BytesToRead(headerScratchBytes.BytesLeft(), header.value.packetLength - payloadBytesRead);
        WritePayloadPiece(headerScratchBytes, bytesToRead);
      } else {
        assert payloadSoFar == old(payloadSoFar) + [];
      }
    }

    /** One `sampleData` call of writeSampleData, counted as payload read. */
    method WritePayloadPiece(source: ParsableByteArray, length: nat)
      requires source.Valid() && length <= source.BytesLeft() && frameStart <= |events|
      modifies this`events, this`payloadBytesRead, this`payloadSoFar, source`position
      ensures source.Valid() && source.position == old(source.position) + length
      ensures var piece := old(source.data[source.position..source.position + length]);
        && events == old(events) + [SampleData(piece)]
        && payloadSoFar == old(payloadSoFar) + piece
        && payloadBytesRead == old(payloadBytesRead) + length
        && SampleBytes(events[frameStart..]) == SampleBytes(old(events)[frameStart..]) + length
    {
      ghost var piece := source.data[source.position..source.position + length];
      SampleDataOut(source, length);
      payloadBytesRead := payloadBytesRead + length;
      payloadSoFar := payloadSoFar + piece;
    }

    /** TrackOutput.sampleData: `length` bytes from the position of `source`
        go to the output, and the source advances past them. */
    method SampleDataOut(source: ParsableByteArray, length: nat)
      requires source.Valid() && length <= source.BytesLeft()
      requires frameStart <= |events|
      modifies this`events, source`position
      ensures source.Valid()
      ensures source.position == old(source.position) + length
      ensures events == old(events) + [SampleData(source.data[old(source.position)..source.position])]
      ensures SampleBytes(events[frameStart..]) == SampleBytes(old(events)[frameStart..]) + length
    {
      var bytes := source.data[source.position..source.position + length];
      SampleBytesAppend(events, frameStart, SampleData(bytes));
      events := events + [SampleData(bytes)];
      source.position := source.position + length;
    }

    /** parseConfig: a decoded configuration replaces the sampling rate and
        frame length and marks the frame as a key frame; a format is declared
        only when the packet's label differs from the last declared one. */
    method ParseConfig(bits: seq<byte>) returns (r: Outcome)
      requires header.Some? && frameStart <= |events|
      modifies this`samplingRate, this`standardFrameLength, this`mainStreamLabel, this`events, this`configFound
      ensures match decoder.parseMpegh3daConfig(bits)
        case Err(_) =>
          && r == Fail(ParserError) && events == old(events) && configFound == old(configFound)
          && samplingRate == old(samplingRate) && standardFrameLength == old(standardFrameLength)
          && mainStreamLabel == old(mainStreamLabel)
        case Ok(config) =>
          && r == Pass && configFound
          && samplingRate == config.samplingFrequency
          && standardFrameLength == config.standardFrameSamples
          && mainStreamLabel == header.value.packetLabel
          && events == old(events) +
               (if old(mainStreamLabel) != header.value.packetLabel
                then [Format(header.value.packetLabel, config.samplingFrequency)] else [])
      ensures SampleBytes(events[frameStart..]) == SampleBytes(old(events)[frameStart..])
    {
      var parsed := decoder.parseMpegh3daConfig(bits);
      if parsed.Err? {
        return Fail(ParserError);
      }
      var config := parsed.value;
      samplingRate := config.samplingFrequency;
      standardFrameLength := config.standardFrameSamples;
      if mainStreamLabel != header.value.packetLabel {
        mainStreamLabel := header.value.packetLabel;
        SampleBytesAppend(events, frameStart, Format(mainStreamLabel, samplingRate));
        events := events + [Format(mainStreamLabel, samplingRate)];
      }
      configFound := true;
      return Pass;
    }

    /** finalizeFrame: emits one metadata record for the access unit, whose
        size is every byte written since the unit began; it is a key frame
        exactly when a configuration was decoded for it, which also ends the
        wait for a random access point. The record carries the timestamp from
        before the update; after a gap the next timestamp is the pending one. */
    method FinalizeFrame()
      requires frameStart <= |events|
      requires frameBytes == SampleBytes(events[frameStart..])
      modifies this`rapPending, this`timeUs, this`dataPending, this`events,
        this`configFound, this`truncationSamples, this`frameBytes, this`frameStart
      ensures events == old(events) + [SampleMetadata(old(timeUs), old(configFound), old(frameBytes))]
      ensures events[|events| - 1].size == SampleBytes(old(events)[old(frameStart)..])
      ensures rapPending == (old(rapPending) && !old(configFound))
      ensures old(dataPending) ==> timeUs == old(timeUsPending)
      ensures !old(dataPending) ==>
        timeUs == decoder.advanceTimeUs(old(timeUs), standardFrameLength, old(truncationSamples), samplingRate)
      ensures !dataPending && !configFound && truncationSamples == 0 && frameBytes == 0
      ensures frameStart == |events|
    {
      var keyFrame := false;
      if configFound {
        keyFrame := true;
        rapPending := false;
      }
      var pts := timeUs;
      if dataPending {
        dataPending := false;
        timeUs := timeUsPending;
      } else {
        timeUs := decoder.advanceTimeUs(timeUs, standardFrameLength, truncationSamples, samplingRate);
      }
      events := events + [SampleMetadata(pts, keyFrame, frameBytes)];
      configFound := false;
      truncationSamples := 0;
      frameBytes := 0;
      frameStart := |events|;
    }
  }
}

/** What the decoder guarantees, stated over `Step` and `Run`: the effect of
    each kind of byte, the buffer bound, the message-level meaning of channel
    voice and system-exclusive messages, the pitch-bend round trip, and the
    absence of running status. */
module MidiProperties {
  import opened MidiProtocol

  // ---------------------------------------------------------------------
  // Reference definitions: MIDI 1.0 channel voice lengths and the
  // velocity-0 note-off, with this decoder's 0xFn length and handler choice
  // ---------------------------------------------------------------------

  /** Data bytes following a status byte: one for program change (0xCn) and
      channel pressure (0xDn), the buffer capacity for system messages
      (0xFn), two otherwise. */
  function ExpectedDataLength(b: byte): uint8
    requires IsStatusByte(b)
  {
    var kind := b >> 4;
    if kind == 0xC || kind == 0xD then 1
    else if kind == 0xF then MaxMidiData
    else 2
  }

  /** The handler calls one complete channel voice message stands for. */
  function ChannelVoiceEvents(b: byte, ds: seq<byte>): seq<Event>
    requires 0x80 <= b < 0xF0
    requires |ds| == ExpectedDataLength(b) as int
  {
    var channel, kind := b & 0x0F, b >> 4;
    if kind == 0x8 then [Event.NoteOff(channel, ds[0])]
    else if kind == 0x9 then
      if ds[1] == 0 then [Event.NoteOff(channel, ds[0])]
      else [Event.NoteOn(channel, ds[0], ds[1])]
    else if kind == 0xB then [Event.ControlChange(channel, ds[0], ds[1])]
    else if kind == 0xC then [Event.ProgramChange(channel, ds[0])]
    else if kind == 0xE then [Event.PitchBend(channel, PitchBendValue(ds[0], ds[1]))]
    else []
  }

  predicate AllData(ds: seq<byte>)
  {
    forall i :: 0 <= i < |ds| ==> !IsStatusByte(ds[i])
  }

  function Min(a: int, b: int): int
  {
    if a <= b then a else b
  }

  // ---------------------------------------------------------------------
  // Composition of runs
  // ---------------------------------------------------------------------

  lemma InitValid()
    ensures Valid(Init) && SevenBit(Init.data)
  {
    forall i | 0 <= i < |Init.data|
      ensures Init.data[i] < 0x80
    {
    }
  }

  /** Decoding `a + b` is decoding `a`, then `b` from where `a` left off:
      draining the queue in several calls is draining it in one. */
  lemma {:induction false} RunAppend(s: DecoderState, a: seq<byte>, b: seq<byte>)
    requires Valid(s)
    ensures Run(s, a + b).state == Run(Run(s, a).state, b).state
    ensures Run(s, a + b).events == Run(s, a).events + Run(Run(s, a).state, b).events
    decreases |b|
  {
    if b == [] {
      assert a + b == a;
    } else {
      var front := b[..|b| - 1];
      assert (a + b)[..|a + b| - 1] == a + front;
      assert (a + b)[|a + b| - 1] == b[|b| - 1];
      RunAppend(s, a, front);
    }
  }

  lemma RunSingle(s: DecoderState, x: byte)
    requires Valid(s)
    ensures Run(s, [x]) == Step(s, x)
  {
    assert [x][..0] == [];
  }

  lemma RunPair(s: DecoderState, x: byte, y: byte)
    requires Valid(s)
    ensures var s1 := Step(s, x);
            && Run(s, [x, y]).state == Step(s1.state, y).state
            && Run(s, [x, y]).events == s1.events + Step(s1.state, y).events
  {
    var p := [x, y];
    assert p[..|p| - 1] == [x] && p[|p| - 1] == y;
    RunSingle(s, x);
    var before := Run(s, [x]);
    assert Run(s, p) == Outcome(Step(before.state, y).state, before.events + Step(before.state, y).events);
  }

  lemma RunTriple(s: DecoderState, x: byte, y: byte, z: byte)
    requires Valid(s)
    ensures var s1 := Step(s, x);
            var s2 := Step(s1.state, y);
            && Run(s, [x, y, z]).state == Step(s2.state, z).state
            && Run(s, [x, y, z]).events == s1.events + s2.events + Step(s2.state, z).events
  {
    var p := [x, y, z];
    assert p[..|p| - 1] == [x, y] && p[|p| - 1] == z;
    RunPair(s, x, y);
    var before := Run(s, [x, y]);
    assert Run(s, p) == Outcome(Step(before.state, z).state, before.events + Step(before.state, z).events);
  }

  // ---------------------------------------------------------------------
  // One byte at a time
  // ---------------------------------------------------------------------

  /** A status byte with no sysex in progress starts a message: status from
      the high nibble (never Unknown), channel from the low nibble, index 0,
      the expected data length from the table; nothing is dispatched. */
  lemma StatusByteStartsMessage(s: DecoderState, b: byte)
    requires Valid(s) && IsStatusByte(b) && s.status != MidiStatus.Extended
    ensures Step(s, b).events == []
    ensures Step(s, b).state.status.Code() == (b >> 4) as int - 8 < 8
    ensures Step(s, b).state.status != MidiStatus.Unknown
    ensures Step(s, b).state.channel == b & 0x0F && Step(s, b).state.channel < 16
    ensures Step(s, b).state.index == 0
    ensures Step(s, b).state.remaining == ExpectedDataLength(b)
    ensures Step(s, b).state.data == s.data
  {
  }

  /** A status byte while a sysex is in progress dispatches exactly the bytes
      collected so far, returns to Unknown and is itself consumed: channel,
      index, expected count and buffer stay as they were. */
  lemma StatusByteEndsSysex(s: DecoderState, b: byte)
    requires Valid(s) && IsStatusByte(b) && s.status == MidiStatus.Extended
    ensures Step(s, b).events == [Event.Sysex(s.data[..s.index])]
    ensures |s.data[..s.index]| <= MaxMidiData as int
    ensures Step(s, b).state.status == MidiStatus.Unknown
    ensures Step(s, b).state.channel == s.channel
    ensures Step(s, b).state.index == s.index
    ensures Step(s, b).state.remaining == s.remaining
    ensures Step(s, b).state.data == s.data
  {
  }

  /** A data byte that no message is waiting for changes nothing. */
  lemma OrphanDataByteIgnored(s: DecoderState, b: byte)
    requires Valid(s) && !IsStatusByte(b) && s.remaining == 0
    ensures Step(s, b) == Outcome(s, [])
  {
  }

  /** A data byte a message is waiting for is stored at the write index, and
      only there; the message is dispatched when it was the last one. */
  lemma DataByteAccepted(s: DecoderState, b: byte)
    requires Valid(s) && !IsStatusByte(b) && s.remaining > 0
    ensures s.index < MaxMidiData
    ensures |Step(s, b).state.data| == |s.data|
    ensures Step(s, b).state.data[s.index] == b
    ensures forall j :: 0 <= j < |s.data| && j != s.index as int ==>
              Step(s, b).state.data[j] == s.data[j]
    ensures Step(s, b).state.index == s.index + 1
    ensures Step(s, b).state.remaining == s.remaining - 1
    ensures Step(s, b).state.status == s.status && Step(s, b).state.channel == s.channel
    ensures Step(s, b).events != [] ==> Step(s, b).state.remaining == 0
    ensures Step(s, b).state.remaining == 0 ==>
              Step(s, b).events == OptionToSeq(DispatchCommand(Step(s, b).state))
  {
  }

  /** No running status: completing a message keeps its status and leaves
      nothing expected, so a further data byte without a new status byte is
      dropped. */
  lemma NoRunningStatus(s: DecoderState, b: byte, d: byte)
    requires Valid(s) && !IsStatusByte(b) && !IsStatusByte(d) && s.remaining == 1
    ensures Step(s, b).state.status == s.status
    ensures Step(s, b).state.remaining == 0
    ensures Step(Step(s, b).state, d) == Outcome(Step(s, b).state, [])
  {
    OrphanDataByteIgnored(Step(s, b).state, d);
  }

  // ---------------------------------------------------------------------
  // Whole streams
  // ---------------------------------------------------------------------

  /** Data bytes alone, when no message is waiting (as at process start),
      produce no handler call and leave the state as it was. */
  lemma {:induction false} DataBytesAloneIgnored(s: DecoderState, ds: seq<byte>)
    requires Valid(s) && s.remaining == 0 && AllData(ds)
    ensures Run(s, ds) == Outcome(s, [])
    decreases |ds|
  {
    if ds != [] {
      var front := ds[..|ds| - 1];
      assert AllData(front) by {
        forall i | 0 <= i < |front| ensures !IsStatusByte(front[i]) {
          assert front[i] == ds[i];
        }
      }
      DataBytesAloneIgnored(s, front);
      OrphanDataByteIgnored(s, ds[|ds| - 1]);
    }
  }

  lemma DataBytesFromInitIgnored(ds: seq<byte>)
    requires AllData(ds)
    ensures Valid(Init)
    ensures Run(Init, ds) == Outcome(Init, [])
  {
    InitValid();
    DataBytesAloneIgnored(Init, ds);
  }

  /** The argument ranges of the handler interface: channels 0-15, 7-bit
      note, controller, value and program numbers, a non-zero note-on
      velocity, a pitch bend in [-8192, 8191], and a sysex payload of 7-bit
      bytes that fits the 32-byte buffer. */
  predicate WellFormed(e: Event)
  {
    match e
    case NoteOn(c, n, v) => c < 16 && n < 0x80 && 0 < v < 0x80
    case NoteOff(c, n) => c < 16 && n < 0x80
    case ControlChange(c, k, v) => c < 16 && k < 0x80 && v < 0x80
    case PitchBend(c, v) => c < 16 && -0x2000 <= v as int <= 0x1FFF
    case ProgramChange(c, p) => c < 16 && p < 0x80
    case Sysex(p) => |p| <= MaxMidiData as int && SevenBit(p)
  }

  /** Only data bytes are ever stored, so the buffer stays 7-bit. */
  lemma StepKeepsSevenBit(s: DecoderState, b: byte)
    requires Valid(s) && SevenBit(s.data)
    ensures SevenBit(Step(s, b).state.data)
  {
    if !IsStatusByte(b) && s.remaining > 0 {
      var d := Step(s, b).state.data;
      forall i | 0 <= i < |d| ensures d[i] < 0x80 {
        if i != s.index as int {
          assert d[i] == s.data[i];
        }
      }
    }
  }

  lemma {:induction false} RunKeepsSevenBit(s: DecoderState, bs: seq<byte>)
    requires Valid(s) && SevenBit(s.data)
    ensures SevenBit(Run(s, bs).state.data)
    decreases |bs|
  {
    if bs != [] {
      RunKeepsSevenBit(s, bs[..|bs| - 1]);
      StepKeepsSevenBit(Run(s, bs[..|bs| - 1]).state, bs[|bs| - 1]);
    }
  }

  lemma StepEventsWellFormed(s: DecoderState, b: byte)
    requires Valid(s) && SevenBit(s.data)
    ensures forall e :: e in Step(s, b).events ==> WellFormed(e)
  {
    StepKeepsSevenBit(s, b);
    var t := Step(s, b).state;
    if IsStatusByte(b) && s.status == MidiStatus.Extended {
      assert SevenBit(s.data[..s.index]) by {
        forall i | 0 <= i < s.index as int ensures s.data[..s.index][i] < 0x80 {
          assert s.data[..s.index][i] == s.data[i];
        }
      }
    } else if !IsStatusByte(b) && s.remaining > 0 && t.remaining == 0 {
      assert t.data[0] < 0x80 && t.data[1] < 0x80;
      if t.status == MidiStatus.PitchBend {
        PitchBendArithmetic(t.data[0], t.data[1]);
      }
    }
  }

  /** Every handler call made, on any input from a reachable state, has
      arguments in the ranges of the handler interface; in particular no
      sysex exceeds 32 bytes. */
  lemma {:induction false} RunEventsWellFormed(s: DecoderState, bs: seq<byte>)
    requires Valid(s) && SevenBit(s.data)
    ensures forall e :: e in Run(s, bs).events ==> WellFormed(e)
    decreases |bs|
  {
    if bs != [] {
      var before := Run(s, bs[..|bs| - 1]);
      RunEventsWellFormed(s, bs[..|bs| - 1]);
      RunKeepsSevenBit(s, bs[..|bs| - 1]);
      StepEventsWellFormed(before.state, bs[|bs| - 1]);
    }
  }

  /** A system-exclusive message is being collected and `collected` is what
      the buffer holds of it. */
  predicate Collecting(t: DecoderState, collected: seq<byte>)
  {
    && t.status == MidiStatus.Extended
    && |collected| <= MaxMidiData as int
    && t.index as int == |collected|
    && t.remaining as int == MaxMidiData as int - |collected|
    && |collected| <= |t.data|
    && t.data[..t.index] == collected
  }

  /** The first `n` bytes of a stream, or all of it when it is shorter. */
  function Truncate(ds: seq<byte>, n: nat): seq<byte>
  {
    ds[..Min(|ds|, n)]
  }

  lemma TruncateSnoc(ds: seq<byte>, d: byte, n: nat)
    ensures Truncate(ds + [d], n) == Truncate(Truncate(ds, n) + [d], n)
  {
    if |ds| < n {
      assert Truncate(ds, n) == ds;
    } else {
      assert (ds + [d])[..n] == ds[..n];
    }
  }

  /** One data byte of a system-exclusive message: stored while the buffer
      has room, dropped once it is full; never dispatched. */
  lemma SysexDataStep(t: DecoderState, d: byte, collected: seq<byte>)
    requires Valid(t) && !IsStatusByte(d) && Collecting(t, collected)
    ensures Step(t, d).events == []
    ensures Collecting(Step(t, d).state, Truncate(collected + [d], MaxMidiData as nat))
  {
    if t.remaining == 0 {
      OrphanDataByteIgnored(t, d);
      assert (collected + [d])[..|collected|] == collected;
    } else {
      DataByteAccepted(t, d);
      var next := Step(t, d).state;
      assert next.data[..t.index + 1] == collected + [d] by {
        forall j | 0 <= j < t.index as int + 1
          ensures next.data[j] == (collected + [d])[j]
        {
          if j < t.index as int {
            assert t.data[..t.index][j] == collected[j];
          }
        }
      }
    }
  }

  /** One more data byte at the end of a stream that is collecting a sysex. */
  lemma SysexRunStep(s: DecoderState, p: seq<byte>, d: byte, collected: seq<byte>)
    requires Valid(s) && !IsStatusByte(d)
    requires Run(s, p).events == [] && Collecting(Run(s, p).state, collected)
    ensures Run(s, p + [d]).events == []
    ensures Collecting(Run(s, p + [d]).state, Truncate(collected + [d], MaxMidiData as nat))
  {
    RunSnoc(s, p, d);
    SysexDataStep(Run(s, p).state, d, collected);
  }

  /** A 0xFn byte outside a sysex starts collecting with nothing collected. */
  lemma SysexStarts(s: DecoderState, f: byte)
    requires Valid(s) && s.status != MidiStatus.Extended && f >= 0xF0
    ensures Run(s, [f]).events == []
    ensures Collecting(Run(s, [f]).state, [])
  {
    RunSingle(s, f);
    StatusByteStartsMessage(s, f);
  }

  /** While a system-exclusive message is being collected, the first 32 data
      bytes are stored in order and later ones are dropped; nothing is
      dispatched. */
  lemma {:induction false} SysexCollects(s: DecoderState, f: byte, ds: seq<byte>)
    requires Valid(s) && s.status != MidiStatus.Extended
    requires f >= 0xF0 && AllData(ds)
    ensures Run(s, [f] + ds).events == []
    ensures Collecting(Run(s, [f] + ds).state, Truncate(ds, MaxMidiData as nat))
    decreases |ds|
  {
    if ds == [] {
      assert [f] + ds == [f];
      SysexStarts(s, f);
    } else {
      var front := ds[..|ds| - 1];
      var d := ds[|ds| - 1];
      assert AllData(front) by {
        forall i | 0 <= i < |front| ensures !IsStatusByte(front[i]) {
          assert front[i] == ds[i];
        }
      }
      SysexCollects(s, f, front);
      var p := [f] + front;
      assert [f] + ds == p + [d];
      assert !IsStatusByte(d);
      SysexRunStep(s, p, d, Truncate(front, MaxMidiData as nat));
      assert front + [d] == ds;
      TruncateSnoc(front, d, MaxMidiData as nat);
    }
  }

  /** After a sysex has ended, data bytes may still be stored (the expected
      count is not reset) but never reach a handler until a new status byte
      arrives. */
  lemma {:induction false} UnknownNeverDispatches(s: DecoderState, ds: seq<byte>)
    requires Valid(s) && s.status == MidiStatus.Unknown && AllData(ds)
    ensures Run(s, ds).events == []
    ensures Run(s, ds).state.status == MidiStatus.Unknown
    decreases |ds|
  {
    if ds != [] {
      var front := ds[..|ds| - 1];
      assert AllData(front) by {
        forall i | 0 <= i < |front| ensures !IsStatusByte(front[i]) {
          assert front[i] == ds[i];
        }
      }
      UnknownNeverDispatches(s, front);
      assert !IsStatusByte(ds[|ds| - 1]);
    }
  }

  /** A system-exclusive message, terminated by any status byte, yields
      exactly one sysex call with its payload truncated to 32 bytes; the
      terminator is consumed and the decoder returns to Unknown. */
  lemma SysexMessage(s: DecoderState, f: byte, ds: seq<byte>, t: byte)
    requires Valid(s) && s.status != MidiStatus.Extended
    requires f >= 0xF0 && AllData(ds) && IsStatusByte(t)
    ensures Run(s, [f] + ds + [t]).events == [Event.Sysex(Truncate(ds, MaxMidiData as nat))]
    ensures Run(s, [f] + ds + [t]).state.status == MidiStatus.Unknown
  {
    SysexCollects(s, f, ds);
    var mid := Run(s, [f] + ds).state;
    RunAppend(s, [f] + ds, [t]);
    RunSingle(mid, t);
    StatusByteEndsSysex(mid, t);
  }

  /** The command the decoder dispatches for a completed channel voice
      message is the call `ChannelVoiceEvents` gives that message. */
  lemma DispatchAgreesWithTable(t: DecoderState, b: byte, ds: seq<byte>)
    requires |t.data| == MaxMidiData as int
    requires 0x80 <= b < 0xF0
    requires |ds| == ExpectedDataLength(b) as int
    requires t.status.Code() == (b >> 4) as int - 8 && t.channel == b & 0x0F
    requires t.data[0] == ds[0] && (|ds| == 2 ==> t.data[1] == ds[1])
    ensures OptionToSeq(DispatchCommand(t)) == ChannelVoiceEvents(b, ds)
  {
    var kind := b >> 4;
    if kind == 0x8 {
      assert t.status == MidiStatus.NoteOff;
    } else if kind == 0x9 {
      assert t.status == MidiStatus.NoteOn;
    } else if kind == 0xA {
      assert t.status == MidiStatus.PolyKeyPressure;
    } else if kind == 0xB {
      assert t.status == MidiStatus.ControlChange;
    } else if kind == 0xC {
      assert t.status == MidiStatus.ProgramChange;
    } else if kind == 0xD {
      assert t.status == MidiStatus.ChannelPressure;
    } else {
      assert kind == 0xE;
      assert t.status == MidiStatus.PitchBend;
    }
  }

  /** The steps of one channel voice message, byte by byte: after the last
      data byte nothing is expected and the call `ChannelVoiceEvents` gives
      is made. */
  lemma ChannelMessageSteps(s: DecoderState, b: byte, ds: seq<byte>)
    requires Valid(s) && s.status != MidiStatus.Extended
    requires 0x80 <= b < 0xF0
    requires |ds| == ExpectedDataLength(b) as int && AllData(ds)
    ensures var s1 := Step(s, b).state;
            var s2 := Step(s1, ds[0]);
            && Step(s, b).events == []
            && (|ds| == 1 ==> s2.events == ChannelVoiceEvents(b, ds)
                                && s2.state.remaining == 0
                                && s2.state.status.Code() == (b >> 4) as int - 8)
            && (|ds| == 2 ==> s2.events == []
                                && Step(s2.state, ds[1]).events == ChannelVoiceEvents(b, ds)
                                && Step(s2.state, ds[1]).state.remaining == 0
                                && Step(s2.state, ds[1]).state.status.Code() == (b >> 4) as int - 8)
  {
    StatusByteStartsMessage(s, b);
    var s1 := Step(s, b).state;
    assert !IsStatusByte(ds[0]);
    DataByteAccepted(s1, ds[0]);
    var s2 := Step(s1, ds[0]).state;
    if |ds| == 1 {
      DispatchAgreesWithTable(s2, b, ds);
    } else {
      assert !IsStatusByte(ds[1]);
      DataByteAccepted(s2, ds[1]);
      var s3 := Step(s2, ds[1]).state;
      DispatchAgreesWithTable(s3, b, ds);
    }
  }

  /** A complete channel voice message, from a decoder not inside a sysex,
      makes exactly the call `ChannelVoiceEvents` gives it, and leaves the
      decoder waiting for a new status byte. */
  lemma CompleteChannelMessage(s: DecoderState, b: byte, ds: seq<byte>)
    requires Valid(s) && s.status != MidiStatus.Extended
    requires 0x80 <= b < 0xF0
    requires |ds| == ExpectedDataLength(b) as int && AllData(ds)
    ensures Run(s, [b] + ds).events == ChannelVoiceEvents(b, ds)
    ensures Run(s, [b] + ds).state.status.Code() == (b >> 4) as int - 8
    ensures Run(s, [b] + ds).state.remaining == 0
  {
    ChannelMessageSteps(s, b, ds);
    if |ds| == 1 {
      assert [b] + ds == [b, ds[0]];
      RunPair(s, b, ds[0]);
    } else {
      assert [b] + ds == [b, ds[0], ds[1]];
      RunTriple(s, b, ds[0], ds[1]);
    }
  }

  // ---------------------------------------------------------------------
  // Pitch bend
  // ---------------------------------------------------------------------

  /** For 7-bit data bytes the or of the shifted bytes is their sum, so the
      value is `d1 * 128 + d0 - 0x2000`, in [-8192, 8191]. */
  lemma PitchBendArithmetic(d0: byte, d1: byte)
    requires d0 < 0x80 && d1 < 0x80
    ensures PitchBendValue(d0, d1) as int == d1 as int * 0x80 + d0 as int - 0x2000
    ensures -0x2000 <= PitchBendValue(d0, d1) as int <= 0x1FFF
  {
  }

  /** For any two bytes, every intermediate value of the `int16_t`
      computation fits: `d1 << 7` loses no bits, the or with `d0` is at most
      0x7FFF, and the value after subtracting 0x2000 lies in
      [-0x2000, 0x5FFF]. */
  lemma PitchBendNoWrap(d0: byte, d1: byte)
    ensures ((d1 as bv16) << 7) as int == d1 as int * 0x80 <= 0x7F80
    ensures (((d1 as bv16) << 7) | (d0 as bv16)) as int <= 0x7FFF
    ensures -0x2000 <= PitchBendValue(d0, d1) as int <= 0x5FFF
  {
  }

  /** The sender's encoding of a pitch-bend value: the low and high seven bits
      of the value biased by 0x2000. */
  function PitchBendLsb(v: int16): byte
    requires -0x2000 <= v as int < 0x2000
  {
    ((v as int + 0x2000) % 0x80) as byte
  }

  function PitchBendMsb(v: int16): byte
    requires -0x2000 <= v as int < 0x2000
  {
    ((v as int + 0x2000) / 0x80) as byte
  }

  lemma ByteOfInt(x: int)
    requires 0 <= x < 0x80
    ensures (x as byte) as int == x && (x as byte) < 0x80
  {
  }

  /** Decoding the two encoded data bytes gives back the value. */
  lemma PitchBendRoundTrip(v: int16)
    requires -0x2000 <= v as int < 0x2000
    ensures PitchBendLsb(v) < 0x80 && PitchBendMsb(v) < 0x80
    ensures PitchBendValue(PitchBendLsb(v), PitchBendMsb(v)) == v
  {
    var u := v as int + 0x2000;
    ByteOfInt(u % 0x80);
    ByteOfInt(u / 0x80);
    PitchBendArithmetic(PitchBendLsb(v), PitchBendMsb(v));
  }

  lemma PitchBendStatusByte(channel: byte)
    requires channel < 16
    ensures 0xE0 <= 0xE0 | channel < 0xF0
    ensures (0xE0 | channel) >> 4 == 0xE && (0xE0 | channel) & 0x0F == channel
  {
  }

  /** Feeding `[0xEn, lsb, msb]` reproduces the encoded value on channel n. */
  lemma PitchBendMessageRoundTrip(s: DecoderState, channel: byte, v: int16)
    requires Valid(s) && s.status != MidiStatus.Extended
    requires channel < 16 && -0x2000 <= v as int < 0x2000
    ensures Run(s, [0xE0 | channel, PitchBendLsb(v), PitchBendMsb(v)]).events
            == [Event.PitchBend(channel, v)]
  {
    var b: byte := 0xE0 | channel;
    PitchBendStatusByte(channel);
    var ds := [PitchBendLsb(v), PitchBendMsb(v)];
    PitchBendRoundTrip(v);
    assert AllData(ds) by {
      assert !IsStatusByte(ds[0]) && !IsStatusByte(ds[1]);
    }
    assert ChannelVoiceEvents(b, ds) == [Event.PitchBend(channel, v)];
    CompleteChannelMessage(s, b, ds);
    assert [b] + ds == [b, PitchBendLsb(v), PitchBendMsb(v)];
  }

  // ---------------------------------------------------------------------
  // Scenarios
  // ---------------------------------------------------------------------

  lemma NoteOnScenario()
    ensures Valid(Init)
    ensures Run(Init, [0x90, 0x3C, 0x40]).events == [Event.NoteOn(0, 60, 64)]
  {
    InitValid();
    CompleteChannelMessage(Init, 0x90, [0x3C, 0x40]);
    assert [0x90 as byte] + [0x3C, 0x40] == [0x90, 0x3C, 0x40];
  }

  lemma NoteOnZeroVelocityScenario()
    ensures Valid(Init)
    ensures Run(Init, [0x90, 0x3C, 0x00]).events == [Event.NoteOff(0, 60)]
  {
    InitValid();
    CompleteChannelMessage(Init, 0x90, [0x3C, 0x00]);
    assert [0x90 as byte] + [0x3C, 0x00] == [0x90, 0x3C, 0x00];
  }

  lemma ControlChangeScenario()
    ensures Valid(Init)
    ensures Run(Init, [0xB0, 0x07, 0x7F]).events == [Event.ControlChange(0, 7, 127)]
  {
    InitValid();
    CompleteChannelMessage(Init, 0xB0, [0x07, 0x7F]);
    assert [0xB0 as byte] + [0x07, 0x7F] == [0xB0, 0x07, 0x7F];
  }

  lemma SysexScenario()
    ensures Valid(Init)
    ensures Run(Init, [0xF0, 0x01, 0x02, 0xF7]).events == [Event.Sysex([0x01, 0x02])]
    ensures Run(Init, [0xF0, 0x01, 0x02, 0xF7]).state.status == MidiStatus.Unknown
  {
    InitValid();
    SysexMessage(Init, 0xF0, [0x01, 0x02], 0xF7);
    assert Truncate([0x01, 0x02], MaxMidiData as nat) == [0x01, 0x02];
    assert [0xF0 as byte] + [0x01, 0x02] + [0xF7] == [0xF0, 0x01, 0x02, 0xF7];
  }

  /** With no running status, a second note sent without a status byte is lost. */
  lemma RunningStatusScenario()
    ensures Valid(Init)
    ensures Run(Init, [0x90, 0x3C, 0x40, 0x3E, 0x40]).events == [Event.NoteOn(0, 60, 64)]
  {
    NoteOnScenario();
    var mid := Run(Init, [0x90, 0x3C, 0x40]);
    CompleteChannelMessage(Init, 0x90, [0x3C, 0x40]);
    assert [0x90 as byte] + [0x3C, 0x40] == [0x90, 0x3C, 0x40];
    var rest: seq<byte> := [0x3E, 0x40];
    assert AllData(rest) by {
      assert !IsStatusByte(rest[0]) && !IsStatusByte(rest[1]);
    }
    DataBytesAloneIgnored(mid.state, rest);
    RunAppend(Init, [0x90, 0x3C, 0x40], [0x3E, 0x40]);
    assert [0x90 as byte, 0x3C, 0x40] + [0x3E, 0x40] == [0x90, 0x3C, 0x40, 0x3E, 0x40];
  }

  /** The status byte that ends a sysex is consumed, so a note-on sent without
      a preceding EOX is lost. */
  lemma SysexTerminatorConsumedScenario()
    ensures Valid(Init)
    ensures Run(Init, [0xF0, 0x01, 0x90, 0x3C, 0x40]).events == [Event.Sysex([0x01])]
  {
    InitValid();
    SysexMessage(Init, 0xF0, [0x01], 0x90);
    assert [0xF0 as byte] + [0x01] + [0x90] == [0xF0, 0x01, 0x90];
    assert Truncate([0x01], MaxMidiData as nat) == [0x01];
    var mid := Run(Init, [0xF0, 0x01, 0x90]).state;
    var rest: seq<byte> := [0x3C, 0x40];
    assert AllData(rest) by {
      assert !IsStatusByte(rest[0]) && !IsStatusByte(rest[1]);
    }
    UnknownNeverDispatches(mid, rest);
    RunAppend(Init, [0xF0, 0x01, 0x90], [0x3C, 0x40]);
    assert [0xF0 as byte, 0x01, 0x90] + [0x3C, 0x40] == [0xF0, 0x01, 0x90, 0x3C, 0x40];
  }
}

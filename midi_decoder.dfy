/** The decoder object: the fields of the `Midi` class, updated in place one
    wire byte at a time. The handlers it calls are represented by `log`, the
    sequence of handler calls made so far. */
module MidiDecoder {
  import opened MidiProtocol

  class Midi {
    var midiStatus: MidiStatus
    var midiChannel: byte
    var midiDataRemaining: uint8
    var midiDataIndex: uint8
    const midiData: array<byte>
    /** The handler calls made so far, oldest first. */
    var log: seq<Event>

    /** The fields as a decoder state. */
    function State(): DecoderState
      reads this, midiData
    {
      DecoderState(midiStatus, midiChannel, midiDataRemaining, midiDataIndex, midiData[..])
    }

    predicate Valid()
      reads this, midiData
    {
      MidiProtocol.Valid(State())
    }

    /** The static initialisers: status Unknown, channel 0xFF, nothing
        expected, index 0, a zeroed 32-byte buffer. */
    constructor ()
      ensures Valid()
      ensures State() == Init
      ensures log == []
      ensures fresh(midiData)
    {
      midiStatus := MidiStatus.Unknown;
      midiChannel := 0xFF;
      midiDataRemaining := 0;
      midiDataIndex := 0;
      midiData := new byte[MaxMidiData](_ => 0);
      log := [];
      new;
      assert midiData[..] == seq(MaxMidiData as int, _ => 0);
    }

    /** Decodes one wire byte; a completed message is handed to its handler. */
    method Decode(b: byte)
      requires Valid()
      modifies this, midiData
      ensures Valid()
      ensures State() == Step(old(State()), b).state
      ensures log == old(log) + Step(old(State()), b).events
    {
      if b & 0x80 != 0 {
        if midiStatus == MidiStatus.Extended {
          log := log + [Event.Sysex(midiData[..midiDataIndex])];
          midiStatus := MidiStatus.Unknown;
          return;
        }
        midiStatus := StatusOfCode((b >> 4) as int - 8);
        midiDataRemaining := MidiStatusToDataLength[midiStatus.Code()];
        midiDataIndex := 0;
        midiChannel := b & 0x0F;
      } else {
        if midiDataRemaining > 0 {
          midiData[midiDataIndex] := b;
          midiDataIndex := midiDataIndex + 1;
          midiDataRemaining := midiDataRemaining - 1;
          if midiDataRemaining == 0 {
            var command := DispatchCommand(State());
            if command.Some? {
              log := log + [command.value];
            }
          }
        }
      }
    }

    /** Drains the receive queue, given as the bytes it yields oldest first,
        decoding each as it is dequeued. */
    method Dispatch(queue: seq<byte>)
      requires Valid()
      modifies this, midiData
      ensures Valid()
      ensures State() == Run(old(State()), queue).state
      ensures log == old(log) + Run(old(State()), queue).events
    {
      ghost var start, startLog := State(), log;
      var pending := queue;
      ghost var done: seq<byte> := [];
      ghost var decoded := Run(start, done);
      while pending != []
        invariant done + pending == queue
        invariant decoded == Run(start, done)
        invariant Valid() && State() == decoded.state
        invariant log == startLog + decoded.events
        decreases |pending|
      {
        var received := pending[0];
        pending := pending[1..];
        Decode(received);
        RunSnoc(start, done, received);
        done := done + [received];
        decoded := Run(start, done);
      }
      assert done == queue;
    }
  }
}

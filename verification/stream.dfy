/** The byte-at-a-time state machine of `UBXParser.parse_bytes`
    (gps_interface.py), as a function from the parser's fields and one
    input byte to its fields afterwards. */
module Stream {
  import opened Bytes
  import opened Checksums
  import Nmea

  /** `UBXParser.state`; the number the source uses is given with each. */
  datatype Phase =
    | Idle      // 0: between messages
    | Sync2     // 1: header0 seen, header1 expected
    | Class     // 2: class byte expected
    | Id        // 3: message id expected
    | LenLo     // 4: low length byte expected
    | LenHi     // 5: high length byte expected
    | Payload   // 6: payload bytes, `length` still to come
    | CkA       // 7: received ck_a expected
    | CkB       // 8: received ck_b expected
    | Text      // 100: inside a `$` sentence

  /** One element of `UBXParser.messages`:
      `(groupID, subID, msglength, payload, msg_ck_a, msg_ck_b)`. */
  datatype Frame = Frame(groupID: Byte, subID: Byte, msglength: nat, payload: seq<Byte>, ckA: Byte, ckB: Byte)

  /** Every field of a `UBXParser`. `forwards` says whether an
      `nmea_parser` was given; `trace` is the sequence of characters handed
      to its `update` method so far. */
  datatype Machine = Machine(
    state: Phase,
    header0: Byte,
    header1: Byte,
    forwards: bool,
    length: nat,
    msglength: nat,
    message: seq<Byte>,
    ckA: Byte,
    ckB: Byte,
    msgCkA: Byte,
    msgCkB: Byte,
    groupID: Byte,
    subID: Byte,
    messages: seq<Frame>,
    nmeaMessages: seq<string>,
    trace: string)

  /** The fields right after `UBXParser(header, nmea_parser)`. (`groupID`
      and `subID` do not exist before the first class byte; 0 stands in.) */
  function Initial(header0: Byte, header1: Byte, forwards: bool): (m: Machine)
    ensures Valid(m)
  {
    Machine(Idle, header0, header1, forwards, 0, 0, [], 0, 0, 0, 0, 0, 0, [], [], [])
  }

  /** A text buffer as state 100 keeps it: `$` then printable ASCII. */
  predicate SentenceBuffer(s: seq<Byte>)
  {
    |s| >= 1 && s[0] == '$' as int && forall k :: 1 <= k < |s| ==> 32 <= s[k] < 128
  }

  /** Every delivered frame carries as many payload bytes as it declares,
      and at most 0xFFFF. */
  predicate FramesWellFormed(frames: seq<Frame>)
  {
    forall f <- frames :: f.msglength <= 0xFFFF && |f.payload| == f.msglength
  }

  /** What holds of the binary-frame fields in each state. */
  predicate FrameStateValid(m: Machine)
  {
    && (m.state == LenHi ==> m.length < 256)
    && (m.state == Payload ==> m.msglength <= 0xFFFF && |m.message| + m.length == m.msglength)
    && (m.state == CkB ==> m.msglength <= 0xFFFF && |m.message| == m.msglength)
  }

  /** What holds of the fields between any two input bytes. */
  predicate Valid(m: Machine)
  {
    && m.state != CkA
    && FrameStateValid(m)
    && (m.state == Text ==> SentenceBuffer(m.message))
    && FramesWellFormed(m.messages)
  }

  /** The result of feeding bytes: either every byte was consumed, or the
      `ValueError` of `verify_nmea_checksum` escaped from `parse_bytes`,
      leaving the fields as they were when it was raised. */
  datatype Outcome = Done(after: Machine) | Raised(after: Machine)

  /** `nmea_parser.update(chr(byte))`, when there is an `nmea_parser`. */
  function Forward(m: Machine, b: Byte): string
  {
    if m.forwards then m.trace + [b as char] else m.trace
  }

  /** `update_checksum(byte)` on the machine's accumulators. */
  function WithChecksum(m: Machine, b: Byte): Machine
  {
    var ck := Update(CkPair(m.ckA, m.ckB), b);
    m.(ckA := ck.a, ckB := ck.b)
  }

  /** The first `if`/`elif` chain of the loop body, on `state` 0, 100 and
      1 to 6. */
  function Dispatch(m: Machine, b: Byte): Outcome
  {
    match m.state
    case Idle =>
      if b == m.header0 then Done(m.(state := Sync2))
      else if b == '$' as int then Done(m.(state := Text, message := [b], trace := Forward(m, b)))
      else Done(m)
    case Text =>
      if b == '$' as int then
        Done(m.(message := [b], trace := Forward(m, b)))
      else if 32 <= b < 128 then
        Done(m.(message := m.message + [b], trace := Forward(m, b)))
      else if b == 13 || b == 10 then
        var m' := m.(trace := Forward(m, b));
        if Nmea.Verdict(m.message).ValueError? then Raised(m')
        else if m.message != [] then
          Done(m'.(nmeaMessages := m.nmeaMessages + [Ascii(m.message)], message := [], state := Idle))
        else Done(m'.(state := Idle))
      else if b == m.header0 then Done(m.(state := Sync2))
      else Done(m.(state := Idle))
    case Sync2 =>
      Done(m.(state := if b == m.header1 then Class else Idle))
    case Class =>
      Done(WithChecksum(m.(ckA := 0, ckB := 0, groupID := b, state := Id), b))
    case Id =>
      Done(WithChecksum(m.(subID := b, state := LenLo), b))
    case LenLo =>
      Done(WithChecksum(m.(length := b, state := LenHi), b))
    case LenHi =>
      // `length |= byte*256`: `length` holds the low byte here, so the
      // bitwise or is this sum.
      var n := m.length + 256 * b;
      Done(WithChecksum(m.(length := n, msglength := n, message := [], state := Payload), b))
    case Payload =>
      if m.length == 0 then Done(m.(state := CkA))
      else Done(WithChecksum(m.(message := m.message + [b], length := m.length - 1), b))
    case CkA => Done(m)
    case CkB => Done(m)
  }

  /** The second chain (`if state == 7 … elif state == 8 …`), run on the
      same byte after the first. */
  function TakeChecksumByte(m: Machine, b: Byte): Machine
  {
    if m.state == CkA then m.(msgCkA := b, state := CkB)
    else if m.state == CkB then
      m.(msgCkB := b, state := Idle,
         messages := m.messages + [Frame(m.groupID, m.subID, m.msglength, m.message, m.msgCkA, b)])
    else m
  }

  /** One iteration of `for byte in msg`. */
  function Step(m: Machine, b: Byte): Outcome
  {
    match Dispatch(m, b)
    case Raised(m') => Raised(m')
    case Done(m') => Done(TakeChecksumByte(m', b))
  }

  /** `parse_bytes(msg)`: every byte in order, stopping at a raised error. */
  function Run(m: Machine, msg: seq<Byte>): Outcome
    decreases |msg|
  {
    if msg == [] then Done(m)
    else match Step(m, msg[0])
      case Raised(m') => Raised(m')
      case Done(m') => Run(m', msg[1..])
  }

  /** Continue from an outcome with more bytes. */
  function Then(o: Outcome, msg: seq<Byte>): Outcome
  {
    match o
    case Raised(m) => Raised(m)
    case Done(m) => Run(m, msg)
  }

  /** `verify_checksum()`: the computed pair equals the received pair. */
  predicate ChecksumOk(m: Machine)
  {
    m.ckA == m.msgCkA && m.ckB == m.msgCkB
  }

  /** The text states: state 0 and state 100. */
  lemma TextStepPreservesValid(m: Machine, b: Byte)
    requires Valid(m) && (m.state == Idle || m.state == Text)
    ensures var m' := Step(m, b).after;
      && Valid(m')
      && m'.header0 == m.header0 && m'.header1 == m.header1 && m'.forwards == m.forwards
      && m'.messages == m.messages
      && (m'.nmeaMessages == m.nmeaMessages || m'.nmeaMessages == m.nmeaMessages + [Ascii(m.message)])
      && (m'.trace == m.trace || m'.trace == m.trace + [b as char])
  {
    var d := Dispatch(m, b).after;
    assert d.state != CkA && d.state != CkB && d.state != Payload && d.state != LenHi;
    assert d.messages == m.messages;
    if m.state == Text && b != '$' as int && 32 <= b < 128 {
      assert SentenceBuffer(d.message);
    }
  }

  /** The binary states 1 to 8. */
  lemma FrameStepPreservesValid(m: Machine, b: Byte)
    requires Valid(m) && m.state != Idle && m.state != Text
    ensures Step(m, b).Done?
    ensures var m' := Step(m, b).after;
      && Valid(m')
      && m'.header0 == m.header0 && m'.header1 == m.header1 && m'.forwards == m.forwards
      && m'.nmeaMessages == m.nmeaMessages && m'.trace == m.trace
      && (m'.messages == m.messages || (|m'.messages| == |m.messages| + 1 && m.messages <= m'.messages))
  {
    var d := Dispatch(m, b).after;
    assert d.messages == m.messages && d.state != Text;
    if m.state == Payload && m.length > 0 {
      assert |d.message| + d.length == d.msglength;
    }
    assert FrameStateValid(d);
    var m' := TakeChecksumByte(d, b);
    if d.state == CkB {
      var f := Frame(d.groupID, d.subID, d.msglength, d.message, d.msgCkA, b);
      assert m'.messages == m.messages + [f];
      assert forall g <- m'.messages :: g in m.messages || g == f;
    }
  }

  /** One byte keeps every invariant: in particular state 7 is never left
      standing, the header and configuration never change, the output
      queues only grow, and each delivered frame's payload length is its
      declared length. */
  lemma StepPreservesValid(m: Machine, b: Byte)
    requires Valid(m)
    ensures Valid(Step(m, b).after)
    ensures var m' := Step(m, b).after;
      && m'.header0 == m.header0 && m'.header1 == m.header1 && m'.forwards == m.forwards
      && m.messages <= m'.messages && |m'.messages| <= |m.messages| + 1
      && m.nmeaMessages <= m'.nmeaMessages && |m'.nmeaMessages| <= |m.nmeaMessages| + 1
      && m.trace <= m'.trace
  {
    if m.state == Idle || m.state == Text {
      TextStepPreservesValid(m, b);
    } else {
      FrameStepPreservesValid(m, b);
    }
  }

  /** Feeding a whole chunk keeps the invariant, whether or not it raised. */
  lemma {:induction false} RunPreservesValid(m: Machine, msg: seq<Byte>)
    requires Valid(m)
    ensures Valid(Run(m, msg).after)
    ensures Run(m, msg).after.header0 == m.header0 && Run(m, msg).after.header1 == m.header1
    ensures Run(m, msg).after.forwards == m.forwards
    ensures m.messages <= Run(m, msg).after.messages
    ensures m.nmeaMessages <= Run(m, msg).after.nmeaMessages
    decreases |msg|
  {
    if msg != [] {
      StepPreservesValid(m, msg[0]);
      if Step(m, msg[0]).Done? {
        RunPreservesValid(Step(m, msg[0]).after, msg[1..]);
      }
    }
  }

  /** Chunk-size independence: feeding `s + t` in one call is feeding `s`
      and then `t`, unless the first call raised (the rest of that chunk is
      then never looked at). */
  lemma {:induction false} RunAppend(m: Machine, s: seq<Byte>, t: seq<Byte>)
    ensures Run(m, s + t) == Then(Run(m, s), t)
    decreases |s|
  {
    if s == [] {
      assert s + t == t;
    } else {
      assert (s + t)[0] == s[0] && (s + t)[1..] == s[1..] + t;
      if Step(m, s[0]).Done? {
        RunAppend(Step(m, s[0]).after, s[1..], t);
      }
    }
  }

  /** Once a call raised, whatever followed in the chunk changes nothing. */
  lemma RunStops(m: Machine, msg: seq<Byte>, k: nat, m': Machine)
    requires k <= |msg| && Run(m, msg[..k]) == Raised(m')
    ensures Run(m, msg) == Raised(m')
  {
    assert msg[..k] + msg[k..] == msg;
    RunAppend(m, msg[..k], msg[k..]);
  }

  /** Feeding one byte at a time gives what feeding the chunk gives. */
  lemma RunSnoc(m: Machine, s: seq<Byte>, b: Byte)
    ensures Run(m, s + [b]) == match Run(m, s)
      case Raised(m') => Raised(m')
      case Done(m') => Step(m', b)
  {
    RunAppend(m, s, [b]);
    if Run(m, s).Done? {
      var m' := Run(m, s).after;
      assert [b][0] == b && [b][1..] == [];
      if Step(m', b).Done? {
        assert Run(Step(m', b).after, []) == Step(m', b);
      }
    }
  }
}

/** What `parse_bytes` does with whole frames and sentences: frames are
    delivered unconditionally with the received checksum, the encoder's
    output decodes to the message it encoded, sentences are delivered and
    forwarded character by character, and stray or interrupting bytes
    resynchronise the parser as the source's branches say. */
module StreamProps {
  import opened Bytes
  import opened Checksums
  import opened Stream
  import Nmea
  import Encoder
  import Hexadecimal

  // Feeding bytes chunk by chunk. Every statement below is about an exact
  // chunk of bytes; longer inputs are put together with `Compose`.

  /** One byte fed alone is one step. */
  lemma RunSingle(m: Machine, b: Byte)
    ensures Run(m, [b]) == Step(m, b)
  {
    assert [b][1..] == [];
  }

  /** A chunk that leaves the parser in `mid`, then another from there. */
  lemma Compose(m: Machine, s: seq<Byte>, t: seq<Byte>, mid: Machine, o: Outcome)
    requires Run(m, s) == Done(mid) && Run(mid, t) == o
    ensures Run(m, s + t) == o
  {
    RunAppend(m, s, t);
  }

  lemma TwoSteps(m: Machine, b1: Byte, b2: Byte, m1: Machine, m2: Machine)
    requires Step(m, b1) == Done(m1) && Step(m1, b2) == Done(m2)
    ensures Run(m, [b1, b2]) == Done(m2)
  {
    RunSingle(m, b1);
    RunSingle(m1, b2);
    assert [b1, b2] == [b1] + [b2];
    Compose(m, [b1], [b2], m1, Done(m2));
  }

  // One byte in each binary state.

  lemma StepClass(m: Machine, b: Byte)
    requires m.state == Class
    ensures Step(m, b) == Done(WithChecksum(m.(ckA := 0, ckB := 0, groupID := b, state := Id), b))
  {
  }

  lemma StepId(m: Machine, b: Byte)
    requires m.state == Id
    ensures Step(m, b) == Done(WithChecksum(m.(subID := b, state := LenLo), b))
  {
  }

  lemma StepLenLo(m: Machine, b: Byte)
    requires m.state == LenLo
    ensures Step(m, b) == Done(WithChecksum(m.(length := b, state := LenHi), b))
  {
  }

  lemma StepLenHi(m: Machine, b: Byte)
    requires m.state == LenHi
    ensures var n := m.length + 256 * b;
      Step(m, b) == Done(WithChecksum(m.(length := n, msglength := n, message := [], state := Payload), b))
  {
  }

  lemma StepPayload(m: Machine, b: Byte)
    requires m.state == Payload && m.length > 0
    ensures Step(m, b) == Done(WithChecksum(m.(message := m.message + [b], length := m.length - 1), b))
  {
  }

  /** In state 6 with nothing left to read, the same byte is taken as the
      received `ck_a` in the same iteration (line 145 is an `if`, not an
      `elif`), so a zero-length frame needs no extra byte. */
  lemma EmptyPayloadTakesCkA(m: Machine, b: Byte)
    requires m.state == Payload && m.length == 0
    ensures Step(m, b) == Done(m.(state := CkB, msgCkA := b))
  {
  }

  lemma StepCkB(m: Machine, b: Byte)
    requires m.state == CkB
    ensures Step(m, b) ==
      Done(m.(msgCkB := b, state := Idle,
              messages := m.messages + [Frame(m.groupID, m.subID, m.msglength, m.message, m.msgCkA, b)]))
  {
  }

  // Whole frames.

  /** The two sync bytes, from state 0 or from inside a sentence when the
      first of them is not a byte a sentence accepts. */
  lemma SyncRun(m: Machine)
    requires m.state == Idle ||
             (m.state == Text && !(32 <= m.header0 < 128) && m.header0 != 13 && m.header0 != 10)
    ensures Run(m, [m.header0, m.header1]) == Done(m.(state := Class))
  {
    assert Step(m, m.header0) == Done(m.(state := Sync2));
    assert Step(m.(state := Sync2), m.header1) == Done(m.(state := Class));
    TwoSteps(m, m.header0, m.header1, m.(state := Sync2), m.(state := Class));
  }

  /** The four header bytes after the sync pair (states 2 to 5): they set
      `groupID`, `subID` and `length`, empty the payload buffer, and restart
      the checksum over exactly these four bytes. */
  lemma HeaderRun(m: Machine, cls: Byte, id: Byte, lo: Byte, hi: Byte)
    requires m.state == Class
    ensures var ck := Checksum([cls, id, lo, hi]);
      Run(m, [cls, id, lo, hi]) ==
      Done(m.(groupID := cls, subID := id, length := lo + 256 * hi, msglength := lo + 256 * hi,
              message := [], ckA := ck.a, ckB := ck.b, state := Payload))
  {
    var m1 := WithChecksum(m.(ckA := 0, ckB := 0, groupID := cls, state := Id), cls);
    var m2 := WithChecksum(m1.(subID := id, state := LenLo), id);
    ClassIdRun(m, cls, id);
    LengthRun(m2, lo, hi);
    assert [cls, id, lo, hi] == [cls, id] + [lo, hi];
    var n := lo + 256 * hi;
    var m3 := WithChecksum(m2.(length := lo, state := LenHi), lo);
    Compose(m, [cls, id], [lo, hi], m2,
            Done(WithChecksum(m3.(length := n, msglength := n, message := [], state := Payload), hi)));
    HeaderFields(m, cls, id, lo, hi);
  }

  lemma ClassIdRun(m: Machine, cls: Byte, id: Byte)
    requires m.state == Class
    ensures var m1 := WithChecksum(m.(ckA := 0, ckB := 0, groupID := cls, state := Id), cls);
      Run(m, [cls, id]) == Done(WithChecksum(m1.(subID := id, state := LenLo), id))
  {
    var m1 := WithChecksum(m.(ckA := 0, ckB := 0, groupID := cls, state := Id), cls);
    StepClass(m, cls);
    StepId(m1, id);
    TwoSteps(m, cls, id, m1, WithChecksum(m1.(subID := id, state := LenLo), id));
  }

  lemma LengthRun(m: Machine, lo: Byte, hi: Byte)
    requires m.state == LenLo
    ensures var n := lo + 256 * hi;
      var m3 := WithChecksum(m.(length := lo, state := LenHi), lo);
      Run(m, [lo, hi]) == Done(WithChecksum(m3.(length := n, msglength := n, message := [], state := Payload), hi))
  {
    var n := lo + 256 * hi;
    var m3 := WithChecksum(m.(length := lo, state := LenHi), lo);
    StepLenLo(m, lo);
    StepLenHi(m3, hi);
    TwoSteps(m, lo, hi, m3, WithChecksum(m3.(length := n, msglength := n, message := [], state := Payload), hi));
  }

  lemma ChecksumOfFour(cls: Byte, id: Byte, lo: Byte, hi: Byte)
    ensures Checksum([cls, id, lo, hi]) == Update(Update(Update(Update(CkPair(0, 0), cls), id), lo), hi)
  {
    var h := [cls, id, lo, hi];
    var z := CkPair(0, 0);
    assert h[..3] == [cls, id, lo] && [cls, id, lo][..2] == [cls, id] && [cls, id][..1] == [cls] && [cls][..0] == [];
    assert Accumulate(z, [cls]) == Update(z, cls);
    assert Accumulate(z, [cls, id]) == Update(Accumulate(z, [cls]), id);
    assert Accumulate(z, [cls, id, lo]) == Update(Accumulate(z, [cls, id]), lo);
    assert Accumulate(z, h) == Update(Accumulate(z, [cls, id, lo]), hi);
  }

  /** The fields the four header bytes leave behind. */
  lemma HeaderFields(m: Machine, cls: Byte, id: Byte, lo: Byte, hi: Byte)
    ensures var n := lo + 256 * hi;
      var ck := Checksum([cls, id, lo, hi]);
      var m1 := WithChecksum(m.(ckA := 0, ckB := 0, groupID := cls, state := Id), cls);
      var m2 := WithChecksum(m1.(subID := id, state := LenLo), id);
      var m3 := WithChecksum(m2.(length := lo, state := LenHi), lo);
      WithChecksum(m3.(length := n, msglength := n, message := [], state := Payload), hi) ==
      m.(groupID := cls, subID := id, length := n, msglength := n, message := [], ckA := ck.a, ckB := ck.b, state := Payload)
  {
    ChecksumOfFour(cls, id, lo, hi);
  }

  /** In state 6 with at least `|p|` bytes still to come, the payload
      bytes are appended to `message` and accumulated into the checksum. */
  lemma {:induction false} PayloadRun(m: Machine, p: seq<Byte>)
    requires m.state == Payload && m.length >= |p|
    ensures var ck := Accumulate(CkPair(m.ckA, m.ckB), p);
      Run(m, p) == Done(m.(message := m.message + p, length := m.length - |p|, ckA := ck.a, ckB := ck.b))
    decreases |p|
  {
    var ck := CkPair(m.ckA, m.ckB);
    if p == [] {
      assert m.message + p == m.message;
    } else {
      var p0, rest := p[0], p[1..];
      assert p == [p0] + rest;
      var m1 := WithChecksum(m.(message := m.message + [p0], length := m.length - 1), p0);
      var ck' := Accumulate(ck, p);
      var target := m.(message := m.message + p, length := m.length - |p|, ckA := ck'.a, ckB := ck'.b);
      PayloadTarget(m, p0, rest);
      PayloadRun(m1, rest);
      StepPayload(m, p0);
      RunSingle(m, p0);
      Compose(m, [p0], rest, m1, Done(target));
    }
  }

  /** The fields after one payload byte and then the rest of the payload
      are the fields after the whole payload. */
  lemma PayloadTarget(m: Machine, p0: Byte, rest: seq<Byte>)
    requires m.length >= 1 + |rest|
    ensures var m1 := WithChecksum(m.(message := m.message + [p0], length := m.length - 1), p0);
      var ck1, ck := Accumulate(CkPair(m1.ckA, m1.ckB), rest), Accumulate(CkPair(m.ckA, m.ckB), [p0] + rest);
      m1.(message := m1.message + rest, length := m1.length - |rest|, ckA := ck1.a, ckB := ck1.b) ==
      m.(message := m.message + ([p0] + rest), length := m.length - |[p0] + rest|, ckA := ck.a, ckB := ck.b)
  {
    var ck := CkPair(m.ckA, m.ckB);
    assert [p0][..0] == [];
    AccumulateAppend(ck, [p0], rest);
  }

  /** The two received checksum bytes once the payload is exhausted
      (state 6 with nothing left, then 7 and 8): the frame is appended to
      `messages` with the received pair, and the state returns to 0. */
  lemma ChecksumPairRun(m: Machine, a: Byte, b: Byte)
    requires m.state == Payload && m.length == 0
    ensures Run(m, [a, b]) ==
      Done(m.(state := Idle, msgCkA := a, msgCkB := b,
              messages := m.messages + [Frame(m.groupID, m.subID, m.msglength, m.message, a, b)]))
  {
    var m6 := m.(state := CkB, msgCkA := a);
    EmptyPayloadTakesCkA(m, a);
    StepCkB(m6, b);
    TwoSteps(m, a, b, m6, m6.(msgCkB := b, state := Idle,
                              messages := m.messages + [Frame(m.groupID, m.subID, m.msglength, m.message, a, b)]));
  }

  /** A whole frame after the sync pair, whatever its bytes: it is
      delivered with the declared length, the payload, and the RECEIVED
      checksum pair, whether or not that pair matches; the accumulators
      then hold the checksum of exactly `class, id, len_lo, len_hi,
      payload`, and nothing on the text side changes. */
  lemma FrameRun(m: Machine, cls: Byte, id: Byte, lo: Byte, hi: Byte, payload: seq<Byte>, a: Byte, b: Byte)
    requires m.state == Class && |payload| == lo + 256 * hi
    ensures var region := [cls, id, lo, hi] + payload;
      var ck := Checksum(region);
      Run(m, region + [a, b]) ==
      Done(m.(state := Idle, groupID := cls, subID := id, length := 0, msglength := |payload|,
              message := payload, ckA := ck.a, ckB := ck.b, msgCkA := a, msgCkB := b,
              messages := m.messages + [Frame(cls, id, |payload|, payload, a, b)]))
  {
    var region := [cls, id, lo, hi] + payload;
    var ck := Checksum(region);
    var m5 := m.(groupID := cls, subID := id, length := 0, msglength := |payload|,
                 message := payload, ckA := ck.a, ckB := ck.b, state := Payload);
    BodyRun(m, cls, id, lo, hi, payload);
    ChecksumPairRun(m5, a, b);
    Compose(m, region, [a, b], m5,
            Done(m5.(state := Idle, msgCkA := a, msgCkB := b,
                     messages := m5.messages + [Frame(m5.groupID, m5.subID, m5.msglength, m5.message, a, b)])));
  }

  /** The header and the payload: the payload is collected and the
      checksum accumulated over both. */
  lemma BodyRun(m: Machine, cls: Byte, id: Byte, lo: Byte, hi: Byte, payload: seq<Byte>)
    requires m.state == Class && |payload| == lo + 256 * hi
    ensures var ck := Checksum([cls, id, lo, hi] + payload);
      Run(m, [cls, id, lo, hi] + payload) ==
      Done(m.(groupID := cls, subID := id, length := 0, msglength := |payload|,
              message := payload, ckA := ck.a, ckB := ck.b, state := Payload))
  {
    var head := [cls, id, lo, hi];
    var ck4 := Checksum(head);
    var n := |payload|;
    var m4 := m.(groupID := cls, subID := id, length := n, msglength := n,
                 message := [], ckA := ck4.a, ckB := ck4.b, state := Payload);
    HeaderRun(m, cls, id, lo, hi);
    AccumulateAppend(CkPair(0, 0), head, payload);
    var ck := Checksum(head + payload);
    assert CkPair(m4.ckA, m4.ckB) == ck4;
    assert Accumulate(ck4, payload) == ck;
    PayloadRun(m4, payload);
    assert m4.message + payload == payload && m4.length - |payload| == 0;
    var m5 := m4.(message := payload, length := 0, ckA := ck.a, ckB := ck.b);
    assert Run(m4, payload) == Done(m5);
    Compose(m, head, payload, m4, Done(m5));
  }

  /** The parser's binary path inverts the encoder: feeding
      `raw_ubx_msg(message, header)` to a parser with that header, idle or
      in the middle of a sentence that a non-printable first sync byte
      interrupts, delivers exactly one frame `(message[0], message[1],
      len(message) - 2, message[2:], ck_a, ck_b)`, `verify_checksum()`
      holds, the state is back to 0, and no sentence is added. */
  lemma RoundTrip(m: Machine, message: seq<Byte>)
    requires Valid(m)
    requires m.state == Idle ||
             (m.state == Text && !(32 <= m.header0 < 128) && m.header0 != 13 && m.header0 != 10)
    requires 2 <= |message| <= 0xFFFF + 2
    ensures Encoder.RawFrame(message, [m.header0, m.header1]).Some?
    ensures var out := Run(m, Encoder.RawFrame(message, [m.header0, m.header1]).value);
      var ck := Checksum(Encoder.Body(message));
      && out.Done?
      && out.after.state == Idle
      && out.after.messages == m.messages + [Frame(message[0], message[1], |message| - 2, message[2..], ck.a, ck.b)]
      && ChecksumOk(out.after)
      && out.after.nmeaMessages == m.nmeaMessages
      && out.after.trace == m.trace
  {
    var h0, h1 := m.header0, m.header1;
    var p := message[2..];
    var lo, hi := |p| % 256, |p| / 256;
    var body := Encoder.Body(message);
    assert Take(message, 2) == [message[0], message[1]];
    assert body == [message[0], message[1], lo, hi] + p;
    var ck := Checksum(body);
    var f := Encoder.RawFrame(message, [h0, h1]).value;
    assert f == [h0, h1] + (body + [ck.a, ck.b]);
    var m2 := m.(state := Class);
    SyncRun(m);
    FrameRun(m2, message[0], message[1], lo, hi, p, ck.a, ck.b);
    Compose(m, [h0, h1], body + [ck.a, ck.b], m2, Run(m2, body + [ck.a, ck.b]));
  }

  /** A frame whose payload byte `k` was altered in transit is still
      delivered, carrying the altered payload and the checksum pair as
      sent, and `verify_checksum()` is False. */
  lemma CorruptedFrameDelivered(m: Machine, message: seq<Byte>, k: nat, y: Byte)
    requires Valid(m) && m.state == Idle
    requires 2 <= k < |message| <= 0xFFFF + 2 && y != message[k]
    ensures Encoder.RawFrame(message, [m.header0, m.header1]).Some?
    ensures var sent := Encoder.RawFrame(message, [m.header0, m.header1]).value;
      var ck := Checksum(Encoder.Body(message));
      var out := Run(m, sent[k + 4 := y]);
      && out.Done?
      && out.after.messages == m.messages + [Frame(message[0], message[1], |message| - 2, message[k := y][2..], ck.a, ck.b)]
      && !ChecksumOk(out.after)
  {
    var p' := message[k := y][2..];
    var lo, hi := (|message| - 2) % 256, (|message| - 2) / 256;
    var region' := [message[0], message[1], lo, hi] + p';
    var ck := Checksum(Encoder.Body(message));
    CorruptedLayout(message, [m.header0, m.header1], k, y);
    var m2 := m.(state := Class);
    SyncRun(m);
    FrameRun(m2, message[0], message[1], lo, hi, p', ck.a, ck.b);
    Compose(m, [m.header0, m.header1], region' + [ck.a, ck.b], m2, Run(m2, region' + [ck.a, ck.b]));
  }

  /** Where the altered byte sits in the encoded frame, and that the
      checksum of the altered region differs from the one sent. */
  lemma CorruptedLayout(message: seq<Byte>, header: seq<Byte>, k: nat, y: Byte)
    requires |header| == 2
    requires 2 <= k < |message| <= 0xFFFF + 2 && y != message[k]
    ensures Encoder.RawFrame(message, header).Some?
    ensures var p' := message[k := y][2..];
      var lo, hi := (|message| - 2) % 256, (|message| - 2) / 256;
      var region' := [message[0], message[1], lo, hi] + p';
      var ck := Checksum(Encoder.Body(message));
      && Encoder.RawFrame(message, header).value[k + 4 := y] == header + (region' + [ck.a, ck.b])
      && Checksum(region') != ck
  {
    var p, p' := message[2..], message[k := y][2..];
    var lo, hi := |p| % 256, |p| / 256;
    var body := Encoder.Body(message);
    assert Take(message, 2) == [message[0], message[1]];
    assert body == [message[0], message[1], lo, hi] + p;
    var ck := Checksum(body);
    var region' := [message[0], message[1], lo, hi] + p';
    assert Encoder.RawFrame(message, header).value[k + 4 := y] == header + (region' + [ck.a, ck.b]);
    assert body == body[..k + 2] + [message[k]] + body[k + 3..];
    assert region' == body[..k + 2] + [y] + body[k + 3..];
    ChecksumDetectsByteChange(body[..k + 2], message[k], y, body[k + 3..]);
  }

  // Sentences.

  lemma StepPrintable(m: Machine, c: Byte)
    requires m.state == Text && 32 <= c < 128 && c != '$' as int
    ensures Step(m, c) == Done(m.(message := m.message + [c], trace := Forward(m, c)))
  {
  }

  lemma StepDollar(m: Machine)
    requires m.state == Text || (m.state == Idle && m.header0 != '$' as int)
    ensures Step(m, '$' as int) ==
      Done(m.(state := Text, message := ['$' as int], trace := Forward(m, '$' as int)))
  {
  }

  lemma StepTerminator(m: Machine, t: Byte)
    requires m.state == Text && (t == 13 || t == 10)
    requires m.message != [] && !Nmea.Verdict(m.message).ValueError?
    ensures Step(m, t) ==
      Done(m.(trace := Forward(m, t), nmeaMessages := m.nmeaMessages + [Ascii(m.message)], message := [], state := Idle))
  {
  }

  lemma StepMalformed(m: Machine, t: Byte)
    requires m.state == Text && (t == 13 || t == 10)
    requires Nmea.Verdict(m.message).ValueError?
    ensures Step(m, t) == Raised(m.(trace := Forward(m, t)))
  {
  }

  /** Bytes that state 100 appends to its buffer without a decision. */
  predicate PlainText(cs: seq<Byte>)
  {
    forall k :: 0 <= k < |cs| ==> 32 <= cs[k] < 128 && cs[k] != '$' as int
  }

  /** The trace after forwarding `cs` (when there is an `nmea_parser`). */
  function ForwardAll(m: Machine, cs: seq<Byte>): string
  {
    if m.forwards then m.trace + Ascii(cs) else m.trace
  }

  lemma ForwardCons(m: Machine, c: Byte, rest: seq<Byte>)
    ensures ForwardAll(m.(trace := Forward(m, c)), rest) == ForwardAll(m, [c] + rest)
  {
    AsciiAppend([c], rest);
    assert Ascii([c]) == [c as char];
  }

  lemma ForwardSnoc(m: Machine, s: seq<Byte>, t: Byte)
    ensures Forward(m.(trace := ForwardAll(m, s)), t) == ForwardAll(m, s + [t])
  {
    AsciiAppend(s, [t]);
    assert Ascii([t]) == [t as char];
  }

  /** In state 100, printable bytes other than `$` are appended to the
      buffer and forwarded one by one. */
  lemma {:induction false} TextRun(m: Machine, cs: seq<Byte>)
    requires m.state == Text && PlainText(cs)
    ensures Run(m, cs) == Done(m.(message := m.message + cs, trace := ForwardAll(m, cs)))
    decreases |cs|
  {
    if cs == [] {
      assert m.message + cs == m.message;
      assert m.trace + Ascii(cs) == m.trace;
    } else {
      var c, rest := cs[0], cs[1..];
      var m1 := m.(message := m.message + [c], trace := Forward(m, c));
      assert PlainText(rest) by {
        forall k | 0 <= k < |rest| ensures 32 <= rest[k] < 128 && rest[k] != '$' as int {
          assert rest[k] == cs[k + 1];
        }
      }
      StepPrintable(m, c);
      RunSingle(m, c);
      TextRun(m1, rest);
      assert m1.message + rest == m.message + cs;
      ForwardCons(m, c, rest);
      assert [c] + rest == cs;
      Compose(m, [c], rest, m1, Done(m.(message := m.message + cs, trace := ForwardAll(m, cs))));
    }
  }

  /** `$` and the text of a sentence, from state 0 or mid-sentence: the
      buffer holds exactly the sentence and all of it is forwarded. */
  lemma SentenceTextRun(m: Machine, s: seq<Byte>)
    requires m.state == Text || (m.state == Idle && m.header0 != '$' as int)
    requires SentenceBuffer(s) && forall k :: 1 <= k < |s| ==> s[k] != '$' as int
    ensures Run(m, s) == Done(m.(state := Text, message := s, trace := ForwardAll(m, s)))
  {
    var dollar := '$' as int;
    var text := s[1..];
    assert PlainText(text) by {
      forall k | 0 <= k < |text| ensures 32 <= text[k] < 128 && text[k] != dollar {
        assert text[k] == s[k + 1];
      }
    }
    assert [dollar] + text == s;
    var m1 := m.(state := Text, message := [dollar], trace := Forward(m, dollar));
    StepDollar(m);
    RunSingle(m, dollar);
    TextRun(m1, text);
    ForwardCons(m, dollar, text);
    Compose(m, [dollar], text, m1, Done(m.(state := Text, message := s, trace := ForwardAll(m, s))));
  }

  /** A sentence `$…` whose check does not raise, followed by CR or LF, fed
      to an idle parser or to one in the middle of another sentence: the
      sentence is appended to `nmea_messages` whether or not its checksum
      matches, a partial sentence in progress is dropped, the state returns
      to 0, and the characters forwarded to the sentence interpreter are
      those of the sentence and its terminator. */
  lemma SentenceRun(m: Machine, s: seq<Byte>, t: Byte)
    requires m.state == Text || (m.state == Idle && m.header0 != '$' as int)
    requires SentenceBuffer(s) && forall k :: 1 <= k < |s| ==> s[k] != '$' as int
    requires !Nmea.Verdict(s).ValueError?
    requires t == 13 || t == 10
    ensures Run(m, s + [t]) ==
      Done(m.(state := Idle, message := [], nmeaMessages := m.nmeaMessages + [Ascii(s)],
              trace := ForwardAll(m, s + [t])))
  {
    var m2 := m.(state := Text, message := s, trace := ForwardAll(m, s));
    SentenceTextRun(m, s);
    StepTerminator(m2, t);
    RunSingle(m2, t);
    ForwardSnoc(m, s, t);
    Compose(m, s, [t], m2,
            Done(m.(state := Idle, message := [], nmeaMessages := m.nmeaMessages + [Ascii(s)],
                    trace := ForwardAll(m, s + [t]))));
  }

  /** A sentence sent with its correct checksum passes the check, is
      delivered, and is forwarded with its terminator. */
  lemma WellFormedSentenceRun(m: Machine, body: seq<Byte>, t: Byte)
    requires m.state == Text || (m.state == Idle && m.header0 != '$' as int)
    requires forall k :: 0 <= k < |body| ==> 32 <= body[k] < 128 && body[k] != '$' as int
    requires t == 13 || t == 10
    ensures Nmea.Verdict(Nmea.Sentence(body)) == Nmea.Returned(true)
    ensures Run(m, Nmea.Sentence(body) + [t]).after.nmeaMessages == m.nmeaMessages + [Ascii(Nmea.Sentence(body))]
    ensures Run(m, Nmea.Sentence(body) + [t]).after.state == Idle
  {
    var s := Nmea.Sentence(body);
    Nmea.SentenceVerifies(body);
    SentenceShape(body);
    SentenceRun(m, s, t);
  }

  /** A sentence built from printable characters other than `$` is a
      buffer the text states accept in full. */
  lemma SentenceShape(body: seq<Byte>)
    requires forall k :: 0 <= k < |body| ==> 32 <= body[k] < 128 && body[k] != '$' as int
    ensures var s := Nmea.Sentence(body);
      SentenceBuffer(s) && forall k :: 1 <= k < |s| ==> s[k] != '$' as int
  {
    var s := Nmea.Sentence(body);
    var x := Xor(body);
    var hi, lo := Hexadecimal.HexChar(x / 16), Hexadecimal.HexChar(x % 16);
    assert s == [36] + body + [42, hi as int, lo as int];
  }

  /** A terminated sentence whose two characters after `*` do not read as
      a hexadecimal number makes `parse_bytes` raise at the line end: the
      terminator has already been forwarded, the buffer still holds the
      sentence, the state is still 100, and nothing is delivered. */
  lemma MalformedChecksumRaises(m: Machine, s: seq<Byte>, t: Byte)
    requires m.state == Text || (m.state == Idle && m.header0 != '$' as int)
    requires SentenceBuffer(s) && forall k :: 1 <= k < |s| ==> s[k] != '$' as int
    requires |s| >= 4 && s[|s| - 3] == '*' as int && Hexadecimal.ParseInt16(s[|s| - 2..]).None?
    requires t == 13 || t == 10
    ensures Run(m, s + [t]) ==
      Raised(m.(state := Text, message := s, trace := ForwardAll(m, s + [t])))
  {
    Nmea.VerdictOfBuffer(s);
    var m2 := m.(state := Text, message := s, trace := ForwardAll(m, s));
    SentenceTextRun(m, s);
    StepMalformed(m2, t);
    RunSingle(m2, t);
    ForwardSnoc(m, s, t);
    Compose(m, s, [t], m2, Raised(m.(state := Text, message := s, trace := ForwardAll(m, s + [t]))));
  }

  // Resynchronisation.

  /** A first sync byte followed by anything but the second is discarded
      together with that byte, which is not looked at again (not even
      when it is `$` or the first sync byte): nothing else changes. */
  lemma FalseSyncDiscarded(m: Machine, x: Byte)
    requires m.state == Idle && x != m.header1
    ensures Run(m, [m.header0, x]) == Done(m)
  {
    assert Step(m, m.header0) == Done(m.(state := Sync2));
    assert Step(m.(state := Sync2), x) == Done(m);
    TwoSteps(m, m.header0, x, m.(state := Sync2), m);
  }

  /** In state 0, bytes that are neither the first sync byte nor `$` are
      ignored and leave every field as it was. */
  lemma {:induction false} IdleIgnoresNoise(m: Machine, noise: seq<Byte>)
    requires m.state == Idle
    requires forall k :: 0 <= k < |noise| ==> noise[k] != m.header0 && noise[k] != '$' as int
    ensures Run(m, noise) == Done(m)
    decreases |noise|
  {
    if noise != [] {
      assert Step(m, noise[0]) == Done(m);
      RunSingle(m, noise[0]);
      IdleIgnoresNoise(m, noise[1..]);
      assert [noise[0]] + noise[1..] == noise;
      Compose(m, [noise[0]], noise[1..], m, Done(m));
    }
  }

  /** A byte in state 100 that is neither printable, nor a line end, nor
      the first sync byte abandons the sentence: state 0, nothing
      delivered, and the stale buffer is left as it was until the next `$`
      replaces it; the noise after it is ignored. */
  lemma AbandonedSentence(m: Machine, b: Byte, noise: seq<Byte>)
    requires m.state == Text && b != m.header0 && !(32 <= b < 128) && b != 13 && b != 10
    requires forall k :: 0 <= k < |noise| ==> noise[k] != m.header0 && noise[k] != '$' as int
    ensures Run(m, [b] + noise) == Done(m.(state := Idle))
  {
    assert Step(m, b) == Done(m.(state := Idle));
    RunSingle(m, b);
    IdleIgnoresNoise(m.(state := Idle), noise);
    Compose(m, [b], noise, m.(state := Idle), Done(m.(state := Idle)));
  }

  /** A frame followed directly by a sentence: one frame and one sentence
      come out, each as if fed alone, after those already queued. */
  lemma FrameThenSentence(m: Machine, message: seq<Byte>, s: seq<Byte>, t: Byte)
    requires Valid(m) && m.state == Idle && m.header0 != '$' as int
    requires 2 <= |message| <= 0xFFFF + 2
    requires SentenceBuffer(s) && forall k :: 1 <= k < |s| ==> s[k] != '$' as int
    requires !Nmea.Verdict(s).ValueError?
    requires t == 13 || t == 10
    ensures Encoder.RawFrame(message, [m.header0, m.header1]).Some?
    ensures var out := Run(m, Encoder.RawFrame(message, [m.header0, m.header1]).value + s + [t]);
      var ck := Checksum(Encoder.Body(message));
      && out.Done? && out.after.state == Idle
      && out.after.messages == m.messages + [Frame(message[0], message[1], |message| - 2, message[2..], ck.a, ck.b)]
      && out.after.nmeaMessages == m.nmeaMessages + [Ascii(s)]
  {
    var f := Encoder.RawFrame(message, [m.header0, m.header1]).value;
    RoundTrip(m, message);
    RunPreservesValid(m, f);
    SentenceAfter(m, f, s, t);
  }

  /** A sentence followed directly by a frame: the sentence and then the
      frame come out, each as if fed alone, after those already queued. */
  lemma SentenceThenFrame(m: Machine, s: seq<Byte>, t: Byte, message: seq<Byte>)
    requires Valid(m) && m.state == Idle && m.header0 != '$' as int
    requires SentenceBuffer(s) && forall k :: 1 <= k < |s| ==> s[k] != '$' as int
    requires !Nmea.Verdict(s).ValueError?
    requires t == 13 || t == 10
    requires 2 <= |message| <= 0xFFFF + 2
    ensures Encoder.RawFrame(message, [m.header0, m.header1]).Some?
    ensures var out := Run(m, s + [t] + Encoder.RawFrame(message, [m.header0, m.header1]).value);
      var ck := Checksum(Encoder.Body(message));
      && out.Done? && out.after.state == Idle
      && out.after.messages == m.messages + [Frame(message[0], message[1], |message| - 2, message[2..], ck.a, ck.b)]
      && out.after.nmeaMessages == m.nmeaMessages + [Ascii(s)]
  {
    var m1 := m.(state := Idle, message := [], nmeaMessages := m.nmeaMessages + [Ascii(s)],
                 trace := ForwardAll(m, s + [t]));
    SentenceRun(m, s, t);
    RunPreservesValid(m, s + [t]);
    RoundTrip(m1, message);
    var f := Encoder.RawFrame(message, [m.header0, m.header1]).value;
    Compose(m, s + [t], f, m1, Run(m1, f));
  }

  /** With the default sync pair of both `UBXParser` and `raw_ubx_msg`
      (`b'\xB5\x62'`), a fresh parser decodes an encoded command into
      exactly that one frame, with its checksum verified. */
  lemma DefaultHeaderRoundTrip(message: seq<Byte>, forwards: bool)
    requires 2 <= |message| <= 0xFFFF + 2
    ensures Encoder.RawFrame(message, Encoder.UBLOX_HEADER).Some?
    ensures var m := Initial(Encoder.UBLOX_HEADER[0], Encoder.UBLOX_HEADER[1], forwards);
      var out := Run(m, Encoder.RawFrame(message, Encoder.UBLOX_HEADER).value);
      var ck := Checksum(Encoder.Body(message));
      && out.Done? && out.after.state == Idle && ChecksumOk(out.after)
      && out.after.messages == [Frame(message[0], message[1], |message| - 2, message[2..], ck.a, ck.b)]
      && out.after.nmeaMessages == []
  {
    var m := Initial(Encoder.UBLOX_HEADER[0], Encoder.UBLOX_HEADER[1], forwards);
    assert [m.header0, m.header1] == Encoder.UBLOX_HEADER;
    RoundTrip(m, message);
  }

  /** Whatever left the parser idle, a sentence fed next is delivered and
      leaves the frames alone. */
  lemma SentenceAfter(m: Machine, f: seq<Byte>, s: seq<Byte>, t: Byte)
    requires Run(m, f).Done? && Run(m, f).after.state == Idle && m.header0 != '$' as int
    requires Run(m, f).after.header0 == m.header0
    requires SentenceBuffer(s) && forall k :: 1 <= k < |s| ==> s[k] != '$' as int
    requires !Nmea.Verdict(s).ValueError?
    requires t == 13 || t == 10
    ensures var mid, out := Run(m, f).after, Run(m, f + s + [t]);
      && out.Done? && out.after.state == Idle
      && out.after.messages == mid.messages
      && out.after.nmeaMessages == mid.nmeaMessages + [Ascii(s)]
  {
    var mid := Run(m, f).after;
    assert f + s + [t] == f + (s + [t]);
    SentenceRun(mid, s, t);
    Compose(m, f, s + [t], mid, Run(mid, s + [t]));
  }

  /** A false first sync byte in front of a sentence does not disturb it. */
  lemma FalseSyncThenSentence(m: Machine, x: Byte, s: seq<Byte>, t: Byte)
    requires m.state == Idle && m.header0 != '$' as int && x != m.header1
    requires SentenceBuffer(s) && forall k :: 1 <= k < |s| ==> s[k] != '$' as int
    requires !Nmea.Verdict(s).ValueError?
    requires t == 13 || t == 10
    ensures Run(m, [m.header0, x] + s + [t]) == Run(m, s + [t])
    ensures Run(m, [m.header0, x] + s + [t]).after.nmeaMessages == m.nmeaMessages + [Ascii(s)]
  {
    assert [m.header0, x] + s + [t] == [m.header0, x] + (s + [t]);
    FalseSyncDiscarded(m, x);
    SentenceRun(m, s, t);
    Compose(m, [m.header0, x], s + [t], m, Run(m, s + [t]));
  }
}

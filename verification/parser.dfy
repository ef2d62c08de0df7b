/** The `UBXParser` class of gps_interface.py: a receiver-side decoder
    whose fields are updated in place, one input byte at a time. Each
    method is proved against the pure machine of module `Stream`. */
module ParserClass {
  import opened Bytes
  import opened Checksums
  import opened Stream
  import Nmea
  import Hexadecimal

  class UBXParser {
    /** The two sync bytes the parser looks for. */
    const header0: Byte
    const header1: Byte
    /** Whether an `nmea_parser` was given to the constructor. */
    const forwards: bool

    var state: Phase
    var length: nat
    var msglength: nat
    var message: seq<Byte>
    var ckA: Byte
    var ckB: Byte
    var msgCkA: Byte
    var msgCkB: Byte
    var groupID: Byte
    var subID: Byte
    var messages: seq<Frame>
    var nmeaMessages: seq<string>
    /** The characters handed to `nmea_parser.update`, in order. */
    var trace: string

    /** The parser's fields as a value. */
    function Snapshot(): Machine
      reads this
    {
      Machine(state, header0, header1, forwards, length, msglength, message,
              ckA, ckB, msgCkA, msgCkB, groupID, subID, messages, nmeaMessages, trace)
    }

    /** `UBXParser(header, nmea_parser)`: only the first two bytes of the
        header are kept. */
    constructor(header: seq<Byte>, forwards: bool)
      requires |header| >= 2
      ensures Snapshot() == Initial(header[0], header[1], forwards)
      ensures Valid(Snapshot())
    {
      header0, header1 := header[0], header[1];
      this.forwards := forwards;
      state := Idle;
      msglength, length := 0, 0;
      message := [];
      ckA, ckB := 0, 0;
      msgCkA, msgCkB := 0, 0;
      groupID, subID := 0, 0;
      messages := [];
      nmeaMessages := [];
      trace := [];
    }

    /** `update_checksum(byte)`: one step of the 8-bit Fletcher sum. */
    method UpdateChecksum(b: Byte)
      modifies this
      ensures CkPair(ckA, ckB) == Update(old(CkPair(ckA, ckB)), b)
      ensures Snapshot() == WithChecksum(old(Snapshot()), b)
    {
      ckA := (ckA + b) % 256;
      ckB := (ckB + ckA) % 256;
    }

    /** `verify_checksum()`: whether the received pair equals the pair
        accumulated over the frame. */
    method VerifyChecksum() returns (ok: bool)
      ensures ok <==> ChecksumOk(Snapshot())
    {
      ok := ckA == msgCkA && ckB == msgCkB;
    }

    /** `verify_nmea_checksum()` on the buffered sentence: the XOR of the
        characters between `$` and the last three, compared with the
        number those last three hold after `*`; `ValueError` where that
        number cannot be read. Nothing is changed. */
    method VerifyNmeaChecksum() returns (r: Nmea.Checked)
      ensures r == Nmea.Verdict(message)
    {
      var body, tail := DropLast(message, 3), TakeLast(message, 3);
      if |tail| == 0 || tail[0] != '*' as int {
        return Nmea.Returned(false);
      }
      var text := Drop(body, 1);
      var csum: bv8 := 0;
      for i := 0 to |text|
        invariant csum == XorBits(text[..i])
      {
        assert text[..i + 1][..i] == text[..i];
        csum := csum ^ (text[i] as bv8);
      }
      assert text[..|text|] == text;
      var parsed := Hexadecimal.ParseInt16(tail[1..]);
      if parsed.None? {
        return Nmea.ValueError;
      }
      r := Nmea.Returned(csum as int == parsed.value);
    }

    /** The first `if`/`elif` chain on states 0 and 100; `raised` when
        `verify_nmea_checksum` raised. */
    method TextByte(b: Byte) returns (raised: bool)
      requires state == Idle || state == Text
      modifies this
      ensures Dispatch(old(Snapshot()), b) == if raised then Raised(Snapshot()) else Done(Snapshot())
    {
      raised := false;
      if state == Idle {
        if b == header0 {
          state := Sync2;
        } else if b == '$' as int {
          state := Text;
          message := [b];
          if forwards { trace := trace + [b as char]; }
        }
      } else {
        if b == '$' as int {
          message := [b];
          if forwards { trace := trace + [b as char]; }
        } else if 32 <= b < 128 {
          message := message + [b];
          if forwards { trace := trace + [b as char]; }
        } else if b == 13 || b == 10 {
          if forwards { trace := trace + [b as char]; }
          var checked := VerifyNmeaChecksum();
          if checked.ValueError? {
            return true;
          }
          if message != [] {
            nmeaMessages := nmeaMessages + [Ascii(message)];
            message := [];
          }
          state := Idle;
        } else if b == header0 {
          state := Sync2;
        } else {
          state := Idle;
        }
      }
    }

    /** The first chain on states 1 to 6 (and nothing on 7 and 8). */
    method FrameByte(b: Byte)
      requires state != Idle && state != Text
      modifies this
      ensures Dispatch(old(Snapshot()), b) == Done(Snapshot())
    {
      if state == Sync2 {
        state := if b == header1 then Class else Idle;
      } else if state == Class {
        ClassByte(b);
      } else if state == Id {
        IdByte(b);
      } else if state == LenLo {
        LenLoByte(b);
      } else if state == LenHi {
        LenHiByte(b);
      } else if state == Payload {
        PayloadByte(b);
      }
    }

    /** State 2: the class byte restarts the checksum. */
    method ClassByte(b: Byte)
      requires state == Class
      modifies this
      ensures Dispatch(old(Snapshot()), b) == Done(Snapshot())
    {
      ghost var target := WithChecksum(Snapshot().(ckA := 0, ckB := 0, groupID := b, state := Id), b);
      assert Dispatch(Snapshot(), b) == Done(target);
      ckA, ckB := 0, 0;
      groupID := b;
      state := Id;
      UpdateChecksum(b);
      assert Snapshot() == target;
    }

    /** State 3: the message id. */
    method IdByte(b: Byte)
      requires state == Id
      modifies this
      ensures Dispatch(old(Snapshot()), b) == Done(Snapshot())
    {
      subID := b;
      state := LenLo;
      UpdateChecksum(b);
    }

    /** State 4: the low length byte. */
    method LenLoByte(b: Byte)
      requires state == LenLo
      modifies this
      ensures Dispatch(old(Snapshot()), b) == Done(Snapshot())
    {
      length := b;
      state := LenHi;
      UpdateChecksum(b);
    }

    /** State 5: the high length byte; the payload buffer is emptied. */
    method LenHiByte(b: Byte)
      requires state == LenHi
      modifies this
      ensures Dispatch(old(Snapshot()), b) == Done(Snapshot())
    {
      ghost var m0 := Snapshot();
      ghost var n := m0.length + 256 * b;
      ghost var target := WithChecksum(m0.(length := n, msglength := n, message := [], state := Payload), b);
      assert Dispatch(m0, b) == Done(target);
      length := length + 256 * b;
      msglength := length;
      message := [];
      UpdateChecksum(b);
      state := Payload;
      assert Snapshot() == target;
    }

    /** State 6: a payload byte, or the end of the payload. */
    method PayloadByte(b: Byte)
      requires state == Payload
      modifies this
      ensures Dispatch(old(Snapshot()), b) == Done(Snapshot())
    {
      if length == 0 {
        state := CkA;
      } else {
        message := message + [b];
        length := length - 1;
        UpdateChecksum(b);
      }
    }

    /** The second chain (`if state == 7 … elif state == 8 …`): the two
        received checksum bytes, and the frame appended to `messages`. */
    method ChecksumByte(b: Byte)
      modifies this
      ensures Snapshot() == TakeChecksumByte(old(Snapshot()), b)
    {
      if state == CkA {
        msgCkA := b;
        state := CkB;
      } else if state == CkB {
        msgCkB := b;
        var _ := VerifyChecksum();
        state := Idle;
        messages := messages + [Frame(groupID, subID, msglength, message, msgCkA, msgCkB)];
      }
    }

    /** One pass of the body of `for byte in msg`; `raised` when
        `verify_nmea_checksum` raised, which leaves the fields as they were
        at that moment. (Where the source says `continue`, the state is 0
        and the second chain does nothing.) */
    method ParseByte(b: Byte) returns (raised: bool)
      modifies this
      ensures Step(old(Snapshot()), b) == if raised then Raised(Snapshot()) else Done(Snapshot())
    {
      raised := false;
      if state == Idle || state == Text {
        raised := TextByte(b);
        if raised {
          return;
        }
      } else {
        FrameByte(b);
      }
      ChecksumByte(b);
    }

    /** `parse_bytes(msg)`: the bytes in order until the end or until the
        `ValueError` of `verify_nmea_checksum` escapes. The fields end as
        the machine says, and a parser that satisfied the invariant still
        does, raised or not. */
    method ParseBytes(msg: seq<Byte>) returns (raised: bool)
      modifies this
      ensures Run(old(Snapshot()), msg) == if raised then Raised(Snapshot()) else Done(Snapshot())
      ensures old(Valid(Snapshot())) ==> Valid(Snapshot())
    {
      ghost var start := Snapshot();
      raised := false;
      var i := 0;
      while i < |msg|
        invariant 0 <= i <= |msg|
        invariant Run(start, msg[..i]) == Done(Snapshot())
      {
        ghost var before := Snapshot();
        var r := ParseByte(msg[i]);
        ghost var prefix := msg[..i + 1];
        assert Run(start, prefix) == Step(before, msg[i]) by {
          assert prefix == msg[..i] + [msg[i]];
          RunSnoc(start, msg[..i], msg[i]);
        }
        if r {
          RunStops(start, msg, i + 1, Snapshot());
          raised := true;
          break;
        }
        i := i + 1;
      }
      if !raised {
        assert msg[..i] == msg;
      }
      if Valid(start) {
        RunPreservesValid(start, msg);
      }
    }
  }
}

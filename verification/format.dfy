/** The log formatters of gps_interface.py: `hexify`, which writes octets
    as space-separated upper-case hexadecimal pairs, `format_raw_message`
    for an encoded frame about to be sent, and `format_binary_message` for
    a frame the parser delivered. */
module Format {
  import opened Bytes
  import opened Hexadecimal
  import opened Checksums
  import Stream
  import Encoder

  /** `' '.join(parts)` */
  function JoinSpace(parts: seq<string>): (r: string)
    decreases |parts|
  {
    if |parts| == 0 then ""
    else if |parts| == 1 then parts[0]
    else parts[0] + " " + JoinSpace(parts[1..])
  }

  /** Joining two non-empty lists is joining each and putting a space
      between the results. */
  lemma {:induction false} JoinSpaceAppend(a: seq<string>, b: seq<string>)
    requires a != [] && b != []
    ensures JoinSpace(a + b) == JoinSpace(a) + " " + JoinSpace(b)
    decreases |a|
  {
    if |a| == 1 {
      assert (a + b)[1..] == b;
    } else {
      assert (a + b)[1..] == a[1..] + b;
      JoinSpaceAppend(a[1..], b);
    }
  }

  lemma JoinSpaceThree(a: string, b: string, c: string)
    ensures JoinSpace([a, b, c]) == a + " " + b + " " + c
  {
    assert [a, b, c][1..] == [b, c] && [b, c][1..] == [c];
    assert JoinSpace([c]) == c;
    assert JoinSpace([b, c]) == b + " " + c;
    assert JoinSpace([a, b, c]) == a + " " + (b + " " + c);
    assert a + " " + (b + " " + c) == a + " " + b + " " + c;
  }

  lemma JoinSpaceFour(a: string, b: string, c: string, d: string)
    ensures JoinSpace([a, b, c, d]) == a + " " + b + " " + c + " " + d
  {
    assert [a, b, c, d][1..] == [b, c, d];
    JoinSpaceThree(b, c, d);
    assert a + " " + (b + " " + c + " " + d) == a + " " + b + " " + c + " " + d;
  }

  /** `f'{c:02X}'` for each octet. */
  function Pairs(msg: seq<Byte>): (r: seq<string>)
    ensures |r| == |msg|
  {
    seq(|msg|, i requires 0 <= i < |msg| => Hex(msg[i], 2))
  }

  /** `hexify(msg)` */
  function Hexify(msg: seq<Byte>): string
  {
    JoinSpace(Pairs(msg))
  }

  /** `hexify` of a non-empty octet string: the first pair, then (when
      there is more) a space and the rest. */
  lemma HexifyCons(v: Byte, rest: seq<Byte>)
    ensures Hexify([v] + rest) == if rest == [] then Hex(v, 2) else Hex(v, 2) + " " + Hexify(rest)
  {
    assert Pairs([v] + rest)[1..] == Pairs(rest);
  }

  /** `hexify(a + b)` is `hexify(a) + ' ' + hexify(b)` for non-empty parts. */
  lemma HexifyAppend(a: seq<Byte>, b: seq<Byte>)
    requires a != [] && b != []
    ensures Hexify(a + b) == Hexify(a) + " " + Hexify(b)
  {
    assert Pairs(a + b) == Pairs(a) + Pairs(b);
    JoinSpaceAppend(Pairs(a), Pairs(b));
  }

  /** Reads space-separated pairs of hexadecimal digits back into octets:
      an inverse of `hexify` used to state what it preserves. */
  function ReadPairs(s: string): Option<seq<Byte>>
    decreases |s|
  {
    if |s| < 2 || !IsHexDigit(s[0] as int) || !IsHexDigit(s[1] as int) then None
    else
      var v := 16 * DigitValue(s[0] as int) + DigitValue(s[1] as int);
      if |s| == 2 then Some([v])
      else if s[2] != ' ' then None
      else match ReadPairs(s[3..])
        case None => None
        case Some(rest) => Some([v] + rest)
  }

  /** `hexify` loses nothing: every non-empty octet string reads back
      from its rendering. */
  lemma {:induction false} HexifyRoundTrip(msg: seq<Byte>)
    requires msg != []
    ensures ReadPairs(Hexify(msg)) == Some(msg)
    decreases |msg|
  {
    var v, rest := msg[0], msg[1..];
    assert [v] + rest == msg;
    HexifyCons(v, rest);
    HexOfByte(v);
    var s := Hexify(msg);
    var d0, d1 := HexChar(v / 16), HexChar(v % 16);
    assert s[0] == d0 && s[1] == d1;
    assert IsHexDigit(s[0] as int) && IsHexDigit(s[1] as int);
    assert 16 * DigitValue(s[0] as int) + DigitValue(s[1] as int) == v;
    if rest == [] {
      assert |s| == 2 && msg == [v];
      assert ReadPairs(s) == Some([v]);
    } else {
      assert s[2] == ' ' && s[3..] == Hexify(rest);
      HexifyRoundTrip(rest);
      assert ReadPairs(s[3..]) == Some(rest);
    }
  }

  /** The length of a rendering: two digits per octet and one space
      between neighbours. */
  lemma {:induction false} HexifyLength(msg: seq<Byte>)
    ensures |Hexify(msg)| == if msg == [] then 0 else 3 * |msg| - 1
    decreases |msg|
  {
    if msg != [] {
      var v, rest := msg[0], msg[1..];
      assert [v] + rest == msg;
      HexifyCons(v, rest);
      HexOfByte(v);
      HexifyLength(rest);
    }
  }

  /** `int.from_bytes(s, 'little')` */
  function FromBytesLE(s: seq<Byte>): nat
    decreases |s|
  {
    if s == [] then 0 else s[0] + 256 * FromBytesLE(s[1..])
  }

  /** `format_raw_message(msg)`: the first four octets, the next two as one
      little-endian number in four digits, the octets between those and
      the last two (left out when there are none), and `*` with the last
      two octets. */
  function FormatRawMessage(msg: seq<Byte>): string
  {
    var head := [Hexify(Take(msg, 4)), Hex(FromBytesLE(Take(Drop(msg, 4), 2)), 4)];
    var middle := DropLast(Drop(msg, 6), 2);
    var parts := head + (if middle != [] then [Hexify(middle)] else []) + ["*" + Hexify(TakeLast(msg, 2))];
    JoinSpace(parts)
  }

  /** The four slices `format_raw_message` cuts a frame of at least
      eight octets into. */
  lemma RawSlices(msg: seq<Byte>)
    requires |msg| >= 8
    ensures Take(msg, 4) == msg[..4] && Take(Drop(msg, 4), 2) == msg[4..6]
    ensures DropLast(Drop(msg, 6), 2) == msg[6..|msg| - 2] && TakeLast(msg, 2) == msg[|msg| - 2..]
  {
  }

  /** The parts `format_raw_message` joins, named by the slices. */
  lemma RawParts(msg: seq<Byte>)
    requires |msg| >= 8
    ensures var a, b, x := Hexify(msg[..4]), Hex(FromBytesLE(msg[4..6]), 4), Hexify(msg[|msg| - 2..]);
      FormatRawMessage(msg) ==
        JoinSpace([a, b] + (if |msg| > 8 then [Hexify(msg[6..|msg| - 2])] else []) + ["*" + x])
  {
    RawSlices(msg);
  }

  /** `format_raw_message` on a frame of at least nine octets: all four
      fields are present. */
  lemma RawMessageLayout(msg: seq<Byte>)
    requires |msg| >= 9
    ensures FormatRawMessage(msg) ==
      Hexify(msg[..4]) + " " + Hex(FromBytesLE(msg[4..6]), 4) + " " + Hexify(msg[6..|msg| - 2])
        + " *" + Hexify(msg[|msg| - 2..])
  {
    var n := |msg|;
    var a, b, c, x := Hexify(msg[..4]), Hex(FromBytesLE(msg[4..6]), 4), Hexify(msg[6..n - 2]), Hexify(msg[n - 2..]);
    assert FormatRawMessage(msg) == JoinSpace([a, b, c, "*" + x]) by {
      RawParts(msg);
      assert [a, b] + [c] + ["*" + x] == [a, b, c, "*" + x];
    }
    assert JoinSpace([a, b, c, "*" + x]) == a + " " + b + " " + c + " *" + x by {
      JoinSpaceFour(a, b, c, "*" + x);
      StarField(a + " " + b + " " + c, x);
    }
  }

  /** `format_raw_message` on a frame of exactly eight octets (an empty
      payload): the payload field is left out. */
  lemma RawMessageLayoutEmpty(msg: seq<Byte>)
    requires |msg| == 8
    ensures FormatRawMessage(msg) ==
      Hexify(msg[..4]) + " " + Hex(FromBytesLE(msg[4..6]), 4) + " *" + Hexify(msg[6..])
  {
    var a, b, x := Hexify(msg[..4]), Hex(FromBytesLE(msg[4..6]), 4), Hexify(msg[6..]);
    assert FormatRawMessage(msg) == JoinSpace([a, b, "*" + x]) by {
      RawParts(msg);
      assert [a, b] + [] + ["*" + x] == [a, b, "*" + x];
    }
    assert JoinSpace([a, b, "*" + x]) == a + " " + b + " *" + x by {
      JoinSpaceThree(a, b, "*" + x);
      StarField(a + " " + b, x);
    }
  }

  /** A space and then the field `*` + `x`. */
  lemma StarField(p: string, x: string)
    ensures p + " " + ("*" + x) == p + " *" + x
  {
  }

  /** A little-endian pair of octets holding a number below 0x10000. */
  lemma LittleEndianPair(n: nat)
    requires n <= 0xFFFF
    ensures FromBytesLE([n % 256, n / 256]) == n
  {
    var lo, hi := n % 256, n / 256;
    assert [lo, hi][1..] == [hi] && [hi][1..] == [];
    assert FromBytesLE([hi]) == hi;
  }

  /** `format_binary_message(frame)` on a delivered frame
      `(class, id, length, payload, ck_a, ck_b)`. The payload is always
      printed, so an empty one leaves two spaces before `*`. */
  function FormatBinaryMessage(f: Stream.Frame): string
  {
    Hex(f.groupID, 2) + " " + Hex(f.subID, 2) + " " + Hex(f.msglength, 4) + " " + Hexify(f.payload)
      + " *" + Hex(f.ckA, 2) + " " + Hex(f.ckB, 2)
  }

  /** The frame `(message[0], message[1], len(message) - 2, message[2:],
      ck_a, ck_b)` that the parser builds from `raw_ubx_msg(message)`. */
  function DecodedFrame(message: seq<Byte>): Stream.Frame
    requires 2 <= |message| <= 0xFFFF + 2
  {
    var ck := Checksum(Encoder.Body(message));
    Stream.Frame(message[0], message[1], |message| - 2, message[2..], ck.a, ck.b)
  }

  /** The fields of the decoded frame, as slices of the command. */
  lemma DecodedFields(message: seq<Byte>)
    requires 2 <= |message| <= 0xFFFF + 2
    ensures var d, ck := DecodedFrame(message), Checksum(Encoder.Body(message));
      [d.groupID, d.subID] == message[..2] && d.msglength == |message| - 2 &&
      d.payload == message[2..] && [d.ckA, d.ckB] == [ck.a, ck.b]
  {
  }

  /** `raw_ubx_msg(message, header)` piece by piece: header, command,
      little-endian length, payload, checksum pair. */
  lemma RawFrameSplit(message: seq<Byte>, header: seq<Byte>)
    requires 2 <= |message| <= 0xFFFF + 2
    ensures Encoder.RawFrame(message, header).Some?
    ensures var n, ck := |message| - 2, Checksum(Encoder.Body(message));
      Encoder.RawFrame(message, header).value ==
      header + message[..2] + [n % 256, n / 256] + message[2..] + [ck.a, ck.b]
  {
    assert Take(message, 2) == message[..2];
  }

  /** The line `format_binary_message` writes, split at its spaces. */
  lemma BinaryLayout(f: Stream.Frame)
    ensures FormatBinaryMessage(f) ==
      Hexify([f.groupID, f.subID]) + " " + Hex(f.msglength, 4) + " " + Hexify(f.payload)
        + " *" + Hexify([f.ckA, f.ckB])
  {
    var g, s, a, b := Hex(f.groupID, 2), Hex(f.subID, 2), Hex(f.ckA, 2), Hex(f.ckB, 2);
    HexifyPair(f.groupID, f.subID);
    HexifyPair(f.ckA, f.ckB);
    var len, pay := Hex(f.msglength, 4), Hexify(f.payload);
    assert FormatBinaryMessage(f) == g + " " + s + " " + len + " " + pay + " *" + a + " " + b;
    assert g + " " + s + " " + len + " " + pay + " *" + a + " " + b
        == (g + " " + s) + " " + len + " " + pay + " *" + (a + " " + b);
  }

  lemma HexifyPair(x: Byte, y: Byte)
    ensures Hexify([x, y]) == Hex(x, 2) + " " + Hex(y, 2)
  {
    assert [x, y] == [x] + [y] && [y] == [y] + [];
    HexifyCons(x, [y]);
    HexifyCons(y, []);
  }

  /** For a two-byte header and a non-empty payload, the line logged when
      sending a frame is the header followed by the line logged when that
      frame is received: the two formatters agree. */
  lemma RawAndBinaryAgree(message: seq<Byte>, header: seq<Byte>)
    requires |header| == 2 && 3 <= |message| <= 0xFFFF + 2
    ensures Encoder.RawFrame(message, header).Some?
    ensures FormatRawMessage(Encoder.RawFrame(message, header).value) ==
            Hexify(header) + " " + FormatBinaryMessage(DecodedFrame(message))
  {
    RawFrameSplit(message, header);
    var f := Encoder.RawFrame(message, header).value;
    var n := |message| - 2;
    var ck := Checksum(Encoder.Body(message));
    var cmd, p := message[..2], message[2..];
    var len, sum := [n % 256, n / 256], [ck.a, ck.b];
    var H, C, L, P, K := Hexify(header), Hexify(cmd), Hex(n, 4), Hexify(p), Hexify(sum);
    assert FormatRawMessage(f) == Hexify(header + cmd) + " " + L + " " + P + " *" + K by {
      FieldsOfFrame(header, cmd, len, p, sum);
      RawMessageLayout(f);
      LittleEndianPair(n);
    }
    HexifyAppend(header, cmd);
    var d := DecodedFrame(message);
    assert FormatBinaryMessage(d) == C + " " + L + " " + P + " *" + K by {
      BinaryLayout(d);
      DecodedFields(message);
    }
    SpacedRegroup(H, C, L, P, K);
  }

  lemma SpacedRegroup(h: string, c: string, l: string, p: string, k: string)
    ensures (h + " " + c) + " " + l + " " + p + " *" + k == h + " " + (c + " " + l + " " + p + " *" + k)
  {
  }

  lemma FieldsOfFrame(h: seq<Byte>, c: seq<Byte>, l: seq<Byte>, p: seq<Byte>, k: seq<Byte>)
    requires |h| == 2 && |c| == 2 && |l| == 2 && |k| == 2
    ensures var f := h + c + l + p + k;
      f[..4] == h + c && f[4..6] == l && f[6..|f| - 2] == p && f[|f| - 2..] == k
  {
  }

  /** `f'{0:04X}'` */
  lemma ZeroHex4()
    ensures Hex(0, 4) == "0000"
  {
    assert HexDigits(0) == ['0'];
    assert seq(3, _ => '0') == "000";
  }

  /** With an empty payload the two formatters part ways: the received
      frame's line has one space more, right before `*`, than the header
      and the sent frame's line. */
  lemma EmptyPayloadLinesDiffer(cmd: seq<Byte>, header: seq<Byte>)
    requires |header| == 2 && |cmd| == 2
    ensures Encoder.RawFrame(cmd, header).Some?
    ensures var raw := FormatRawMessage(Encoder.RawFrame(cmd, header).value);
      |raw| == 23 &&
      Hexify(header) + " " + FormatBinaryMessage(DecodedFrame(cmd)) == raw[..16] + " " + raw[16..]
  {
    RawFrameSplit(cmd, header);
    var f := Encoder.RawFrame(cmd, header).value;
    var ck := Checksum(Encoder.Body(cmd));
    var sum := [ck.a, ck.b];
    assert cmd[..2] == cmd && cmd[2..] == [];
    FieldsOfFrame(header, cmd, [0, 0], [], sum);
    RawMessageLayoutEmpty(f);
    LittleEndianPair(0);
    ZeroHex4();
    HexifyAppend(header, cmd);
    var H, C, K := Hexify(header), Hexify(cmd), Hexify(sum);
    var lead := H + " " + C + " " + "0000";
    assert FormatRawMessage(f) == lead + " *" + K;
    HexifyLength(header);
    HexifyLength(cmd);
    HexifyLength(sum);
    assert |lead| == 16 && |FormatRawMessage(f)| == 23;
    var d := DecodedFrame(cmd);
    BinaryLayout(d);
    DecodedFields(cmd);
    HexifyLength([]);
    assert FormatBinaryMessage(d) == C + " " + "0000" + " " + "" + " *" + K;
    EmptyRegroup(H, C, "0000", K);
  }

  lemma EmptyRegroup(h: string, c: string, z: string, k: string)
    ensures var lead := h + " " + c + " " + z;
      h + " " + (c + " " + z + " " + "" + " *" + k) == (lead + " *" + k)[..|lead|] + " " + (lead + " *" + k)[|lead|..]
  {
    var lead := h + " " + c + " " + z;
    assert (lead + " *" + k)[..|lead|] == lead;
    assert (lead + " *" + k)[|lead|..] == " *" + k;
  }
}

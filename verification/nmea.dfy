/** The NMEA 0183 sentence check of `UBXParser.verify_nmea_checksum`
    (gps_interface.py): the XOR of the characters between `$` and `*`
    compared with the number written after `*`. */
module Nmea {
  import opened Bytes
  import opened Checksums
  import opened Hexadecimal

  /** What a call of `verify_nmea_checksum()` does: return a boolean, or
      raise the `ValueError` of `int(checksum[1:], 16)`. */
  datatype Checked = Returned(ok: bool) | ValueError

  /** The outcome of `verify_nmea_checksum()` on the buffer `message`:
      `message[:-3]` is the body, `message[-3:]` the tail; a tail that does
      not start with `*` gives False, otherwise the XOR of `body[1:]` is
      compared with `int(tail[1:], 16)`. */
  function Verdict(message: seq<Byte>): Checked
  {
    var body, tail := DropLast(message, 3), TakeLast(message, 3);
    if tail == [] || tail[0] != '*' as int then Returned(false)
    else match ParseInt16(tail[1..])
      case None => ValueError
      case Some(v) => Returned(Xor(Drop(body, 1)) == v)
  }

  /** The two upper-case hexadecimal digits of a byte, as octets. */
  function HexBytes(v: Byte): (r: seq<Byte>)
    ensures |r| == 2
  {
    [HexChar(v / 16) as int, HexChar(v % 16) as int]
  }

  /** A sentence as a receiver sends it (without its line terminator):
      `$`, the body, `*` and the body's XOR in two upper-case digits. */
  function Sentence(body: seq<Byte>): seq<Byte>
  {
    [36] + body + [42] + HexBytes(Xor(body))
  }

  /** For a buffer that starts with `$` (every buffer the parser checks),
      the check passes exactly when the third-last character is `*` and the
      two characters after it read as the XOR of everything between `$`
      and `*`; it raises exactly when they do not read as a number. */
  lemma VerdictOfBuffer(message: seq<Byte>)
    requires |message| >= 1 && message[0] == '$' as int
    ensures Verdict(message) == Returned(true) <==>
      |message| >= 4 && message[|message| - 3] == '*' as int &&
      ParseInt16(message[|message| - 2..]) == Some(Xor(message[1..|message| - 3]))
    ensures Verdict(message) == ValueError <==>
      |message| >= 4 && message[|message| - 3] == '*' as int &&
      ParseInt16(message[|message| - 2..]).None?
  {
    if |message| >= 3 {
      var n := |message|;
      assert TakeLast(message, 3)[1..] == message[n - 2..];
      if n >= 4 {
        assert Drop(DropLast(message, 3), 1) == message[1..n - 3];
      }
    }
  }

  /** A sentence whose checksum the receiver computed passes the check. */
  lemma SentenceVerifies(body: seq<Byte>)
    ensures Verdict(Sentence(body)) == Returned(true)
  {
    var s := Sentence(body);
    var x := Xor(body);
    assert TakeLast(s, 3) == [42] + HexBytes(x);
    assert TakeLast(s, 3)[1..] == HexBytes(x);
    assert DropLast(s, 3) == [36] + body;
    assert Drop(DropLast(s, 3), 1) == body;
    ParseInt16OfHexByte(x);
  }

  /** Corrupting one character of the body of a well-formed sentence makes
      the check return False: the sentence is not rejected with an error. */
  lemma CorruptedSentenceFails(p: seq<Byte>, x: Byte, y: Byte, q: seq<Byte>)
    requires x != y
    ensures Verdict([36] + p + [y] + q + [42] + HexBytes(Xor(p + [x] + q))) == Returned(false)
  {
    var c := Xor(p + [x] + q);
    var s := [36] + p + [y] + q + [42] + HexBytes(c);
    assert TakeLast(s, 3) == [42] + HexBytes(c);
    assert TakeLast(s, 3)[1..] == HexBytes(c);
    assert DropLast(s, 3) == [36] + (p + [y] + q);
    assert Drop(DropLast(s, 3), 1) == p + [y] + q;
    ParseInt16OfHexByte(c);
    XorDetectsByteChange(p, x, y, q);
  }
}

/** The UBX frame encoder `raw_ubx_msg` (gps_interface.py): sync header,
    class and id, little-endian 16-bit payload length, payload, and the
    two Fletcher checksum bytes over everything between header and
    checksum. */
module Encoder {
  import opened Bytes
  import opened Checksums

  /** The sync pair of u-blox receivers, the default `header` of
      `raw_ubx_msg` and of `UBXParser`. */
  const UBLOX_HEADER: seq<Byte> := [0xB5, 0x62]

  /** `cmd + struct.pack('<H', len(payload)) + payload` with
      `cmd, payload = message[:2], message[2:]`: the checksummed region. */
  function Body(message: seq<Byte>): seq<Byte>
    requires |Drop(message, 2)| <= 0xFFFF
  {
    var payload := Drop(message, 2);
    Take(message, 2) + [|payload| % 256, |payload| / 256] + payload
  }

  /** The bytes `raw_ubx_msg(message, header)` returns, or `None` where
      `struct.pack('<H', …)` raises because the payload is longer than
      0xFFFF octets. */
  function RawFrame(message: seq<Byte>, header: seq<Byte>): (r: Option<seq<Byte>>)
    ensures r.None? <==> |message| > 0xFFFF + 2
    ensures r.Some? ==> |r.value| == |header| + |message| + 4
  {
    if |Drop(message, 2)| > 0xFFFF then None
    else
      var body := Body(message);
      var ck := Checksum(body);
      Some(header + body + [ck.a, ck.b])
  }

  /** The layout of an encoded frame: the header, the (at most two) command
      bytes, the payload length in little-endian order, the payload
      unchanged, and last the checksum pair over everything between header
      and checksum. */
  lemma FrameLayout(message: seq<Byte>, header: seq<Byte>)
    requires |message| <= 0xFFFF + 2
    ensures RawFrame(message, header).Some?
    ensures var f, h, k := RawFrame(message, header).value, |header|, |Take(message, 2)|;
      && |f| == h + |message| + 4
      && f[..h] == header
      && f[h..h + k] == Take(message, 2)
      && f[h + k] as int + 256 * f[h + k + 1] as int == |Drop(message, 2)|
      && f[h + k + 2..|f| - 2] == Drop(message, 2)
      && CkPair(f[|f| - 2], f[|f| - 1]) == Checksum(f[h..|f| - 2])
  {
    var f, h, k := RawFrame(message, header).value, |header|, |Take(message, 2)|;
    var body := Body(message);
    var p := Drop(message, 2);
    assert f == header + body + [Checksum(body).a, Checksum(body).b];
    assert f[h..|f| - 2] == body;
    assert body[k] == |p| % 256 && body[k + 1] == |p| / 256;
  }

  /** `raw_ubx_msg`: the checksum pair is accumulated byte by byte, as the
      source's loop does. */
  method RawUbxMsg(message: seq<Byte>, header: seq<Byte>) returns (r: Option<seq<Byte>>)
    ensures r == RawFrame(message, header)
  {
    if |Drop(message, 2)| > 0xFFFF {
      return None;
    }
    var body := Body(message);
    var ckA: Byte, ckB: Byte := 0, 0;
    for i := 0 to |body|
      invariant CkPair(ckA, ckB) == Checksum(body[..i])
    {
      assert body[..i + 1][..i] == body[..i];
      ckA := (ckA + body[i]) % 256;
      ckB := (ckB + ckA) % 256;
    }
    assert body[..|body|] == body;
    r := Some(header + body + [ckA, ckB]);
  }
}

/** Octets, an Option type, and the Python slicing conventions
    (`s[:k]`, `s[k:]`, `s[:-k]`, `s[-k:]`) that the decoder and the
    formatters rely on when a sequence is shorter than the slice. */
module Bytes {

  /** One element of a Python `bytes` value. */
  type Byte = b: int | 0 <= b < 256

  datatype Option<+T> = None | Some(value: T)

  /** `s[:k]` */
  function Take<T>(s: seq<T>, k: nat): (r: seq<T>)
    ensures |r| == if k <= |s| then k else |s|
    ensures r <= s
  {
    if k <= |s| then s[..k] else s
  }

  /** `s[k:]` */
  function Drop<T>(s: seq<T>, k: nat): (r: seq<T>)
    ensures Take(s, k) + r == s
  {
    if k <= |s| then s[k..] else []
  }

  /** `s[-k:]` for k > 0 */
  function TakeLast<T>(s: seq<T>, k: nat): (r: seq<T>)
    ensures |r| == if k <= |s| then k else |s|
  {
    if k <= |s| then s[|s| - k..] else s
  }

  /** `s[:-k]` for k > 0 */
  function DropLast<T>(s: seq<T>, k: nat): (r: seq<T>)
    ensures r + TakeLast(s, k) == s
  {
    if k <= |s| then s[..|s| - k] else []
  }

  /** `bytes.decode('us-ascii')` and `chr(b)`, one character per octet. */
  function Ascii(s: seq<Byte>): (r: string)
    ensures |r| == |s|
    ensures forall i :: 0 <= i < |s| ==> r[i] as int == s[i]
  {
    seq(|s|, i requires 0 <= i < |s| => s[i] as char)
  }

  lemma AsciiAppend(s: seq<Byte>, t: seq<Byte>)
    ensures Ascii(s + t) == Ascii(s) + Ascii(t)
  {
  }
}

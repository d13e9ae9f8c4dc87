/** Small helpers shared by the analyzer's components: optional values,
    results, raw little-endian reads from a mapped file and C strings. */
module Common {

  datatype Option<+T> = None | Some(value: T)

  datatype Result<+T, +E> = Success(value: T) | Failure(error: E)

  /** One byte of a mapped file or of the input sentence. */
  type byte = bv8

  const NUL: byte := 0

  const TWO32: int := 0x1_0000_0000

  /** The C string stored at the start of `s`: every byte before the first
      NUL, or all of `s` when it holds no NUL. */
  function CString(s: seq<byte>): seq<byte>
  {
    if s == [] || s[0] == NUL then [] else [s[0]] + CString(s[1..])
  }

  /** The string read is the longest NUL-free prefix of `s`. */
  lemma {:induction false} CStringShape(s: seq<byte>)
    ensures var r := CString(s);
      |r| <= |s| && r == s[..|r|] && NUL !in r && (|r| < |s| ==> s[|r|] == NUL)
  {
    if s != [] && s[0] != NUL {
      CStringShape(s[1..]);
      assert s == [s[0]] + s[1..];
    }
  }

  /** An unsigned 16-bit integer stored little-endian at `s[off..off+2]`. */
  function Le16(s: seq<byte>, off: nat): (r: nat)
    requires off + 2 <= |s|
    ensures r < 0x1_0000
  {
    s[off] as int + 0x100 * s[off + 1] as int
  }

  /** An unsigned 32-bit integer stored little-endian at `s[off..off+4]`. */
  function Le32(s: seq<byte>, off: nat): (r: nat)
    requires off + 4 <= |s|
    ensures r < TWO32
  {
    Le16(s, off) + 0x1_0000 * Le16(s, off + 2)
  }

  /** The two's-complement reading of a 16-bit pattern (an int16_t). */
  function Signed16(u: nat): (r: int)
    requires u < 0x1_0000
    ensures -0x8000 <= r < 0x8000 && r % 0x1_0000 == u
  {
    if u < 0x8000 then u else u - 0x1_0000
  }

  /** The two's-complement reading of a 32-bit pattern (an int32_t). */
  function Signed32(u: nat): (r: int)
    requires u < TWO32
    ensures -0x8000_0000 <= r < 0x8000_0000 && r % TWO32 == u
  {
    if u < 0x8000_0000 then u else u - TWO32
  }

  /** `static_cast<uint32_t>` of an integer: reduction modulo 2^32. */
  function U32(x: int): (r: nat)
    ensures r < TWO32
    ensures 0 <= x < TWO32 ==> r == x
  {
    x % TWO32
  }

  /** The character at `i` of a NUL-terminated string: the terminator is
      read as NUL. */
  function CharAt(s: string, i: nat): (r: char)
    requires i <= |s|
    ensures i < |s| ==> r == s[i]
    ensures i == |s| ==> r == '\0'
  {
    if i < |s| then s[i] else '\0'
  }

  /** C `isspace` in the "C" locale. */
  predicate IsSpace(c: char) {
    c == ' ' || ('\t' <= c <= '\r')
  }

  /** Bytes read as characters, one character per byte. */
  function Text(bs: seq<byte>): (r: string)
    ensures |r| == |bs|
    ensures forall i :: 0 <= i < |bs| ==> r[i] as int == bs[i] as int
  {
    seq(|bs|, i requires 0 <= i < |bs| => (bs[i] as int) as char)
  }
}

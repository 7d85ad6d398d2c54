/**
 * UTF-8 encoding of text (Python's `str.encode("utf-8")`). Dafny characters
 * are Unicode scalar values, exactly the characters a strictly decoded
 * Python string can hold, so encoding never fails.
 */
module Utf8 {
  import opened Base

  /** A continuation octet `10xxxxxx` carrying six bits. */
  function Continuation(bits: int): (b: Byte)
    requires 0 <= bits < 64
    ensures 0x80 <= b < 0xC0
  {
    0x80 + bits
  }

  /** The one to four octets encoding a single scalar value. */
  function EncodeChar(c: char): (r: Bytes)
    ensures 1 <= |r| <= 4
    ensures (c as int < 0x80) <==> |r| == 1
    ensures |r| == 1 ==> r[0] == c as int
    ensures |r| > 1 ==> r[0] >= 0xC0 && forall k :: 1 <= k < |r| ==> 0x80 <= r[k] < 0xC0
  {
    var n := c as int;
    if n < 0x80 then [n]
    else if n < 0x800 then [0xC0 + n / 64, Continuation(n % 64)]
    else if n < 0x10000 then [0xE0 + n / 4096, Continuation(n / 64 % 64), Continuation(n % 64)]
    else [0xF0 + n / 262144, Continuation(n / 4096 % 64), Continuation(n / 64 % 64), Continuation(n % 64)]
  }

  /** The UTF-8 octets of `s`, character by character. */
  function Encode(s: string): (r: Bytes)
    ensures |r| >= |s|
    ensures |s| == 0 <==> |r| == 0
  {
    if |s| == 0 then [] else EncodeChar(s[0]) + Encode(s[1..])
  }

  /** Encoding distributes over concatenation. */
  lemma {:induction false} EncodeAppend(a: string, b: string)
    ensures Encode(a + b) == Encode(a) + Encode(b)
    decreases |a|
  {
    if |a| > 0 {
      assert (a + b)[1..] == a[1..] + b;
      EncodeAppend(a[1..], b);
    } else {
      assert a + b == b;
    }
  }

  /** An ASCII character occurs among the octets of `s` only where `s` holds that character. */
  lemma {:induction false} EncodeKeepsAsciiAbsent(s: string, c: char)
    requires c as int < 0x80 && c !in s
    ensures c as int !in Encode(s)
    decreases |s|
  {
    if |s| > 0 {
      EncodeKeepsAsciiAbsent(s[1..], c);
    }
  }
}

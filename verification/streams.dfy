/**
  Input streams as byte sequences. `InputStream.read()` returns the next octet
  or -1 once the stream is exhausted; a reader is a function of the bytes still
  unread and reports how many of them it consumed.
 */
module Streams {
  import opened JavaInts

  /** `in.read()` after `k` earlier reads. */
  function ReadAt(s: seq<Byte>, k: nat): (b: int)
    ensures -1 <= b < 256
    ensures b == -1 <==> k >= |s|
    ensures k < |s| ==> b == s[k]
  {
    if k < |s| then s[k] else -1
  }

  /**
    `(byte) in.read()` or `in.read() & 0xff` read as an octet: past the end both
    give the pattern 0xFF, the low byte of -1.
   */
  function OctetAt(s: seq<Byte>, k: nat): (b: Byte)
    ensures k < |s| ==> b == s[k]
    ensures k >= |s| ==> b == 255
  {
    ReadAt(s, k) % 256
  }

  /** The bytes still unread after `k` reads; reads past the end leave nothing. */
  function Drop(s: seq<Byte>, k: nat): (rest: seq<Byte>)
    ensures k <= |s| ==> rest == s[k..]
    ensures k >= |s| ==> rest == []
  {
    if k <= |s| then s[k..] else []
  }

  lemma DropAppend(a: seq<Byte>, b: seq<Byte>)
    ensures Drop(a + b, |a|) == b
  {
    assert (a + b)[|a|..] == b;
  }
}

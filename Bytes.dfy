/** Octets, 32-bit unsigned words and the fixed protocol strings shared by
    the server and the client. */
module Bytes {

  newtype byte = x: int | 0 <= x < 256

  /** C `uint32_t` / `unsigned`. */
  type u32 = x: int | 0 <= x < 0x1_0000_0000

  datatype Option<T> = None | Some(value: T)

  const TWO32: int := 0x1_0000_0000

  /** Conversion of any integer to `uint32_t`: reduction modulo 2^32. */
  function Wrap32(x: int): (r: u32)
    ensures (r - x) % TWO32 == 0
    ensures 0 <= x < TWO32 ==> r == x
  {
    x % TWO32
  }

  const NUL: byte := 0
  const LF: byte := 10
  const CR: byte := 13
  const DOT: byte := 46
  const SLASH: byte := 47

  const CRLF: seq<byte> := [CR, LF]
  /** "GET " */
  const GET: seq<byte> := [71, 69, 84, 32]
  /** "QUIT" */
  const QUIT: seq<byte> := [81, 85, 73, 84]
  /** "QUIT\r\n" */
  const QUIT_CMD: seq<byte> := QUIT + CRLF
  /** "+OK\r\n" */
  const OK_REPLY: seq<byte> := [43, 79, 75, CR, LF]
  /** "-ERR\r" : the first five bytes of the error reply */
  const ERR_PREFIX: seq<byte> := [45, 69, 82, 82, CR]
  /** "-ERR\r\n" */
  const ERR_REPLY: seq<byte> := ERR_PREFIX + [LF]
  /** "../" */
  const TRAVERSAL: seq<byte> := [DOT, DOT, SLASH]

  /** `s` followed by zero bytes up to length `n`: what a zeroed buffer of
      `n` bytes holds after `s` was stored at its start. */
  function Pad(s: seq<byte>, n: nat): (r: seq<byte>)
    requires |s| <= n
    ensures |r| == n && r[..|s|] == s
    ensures forall i :: |s| <= i < n ==> r[i] == NUL
  {
    s + seq(n - |s|, _ => NUL)
  }

  /** A buffer after `memset(buf, 0, n)`. */
  function Zeros(n: nat): seq<byte>
  {
    Pad([], n)
  }

  /** `memset(buf, 0, sizeof buf)`. */
  method Clear(buf: array<byte>)
    modifies buf
    ensures buf[..] == Zeros(buf.Length)
  {
    forall i | 0 <= i < buf.Length {
      buf[i] := NUL;
    }
  }

  /** Stores `d` at the start of `buf`, as a `read(fd, buf, ...)` or a
      sequence of `*ptr++ = c` from `buf` on does. */
  method StoreFront(buf: array<byte>, d: seq<byte>)
    requires |d| <= buf.Length
    modifies buf
    ensures buf[..] == d + old(buf[..])[|d|..]
  {
    forall i | 0 <= i < |d| {
      buf[i] := d[i];
    }
  }

  /** The C string held by a buffer: the bytes before its first NUL (all of
      them when there is none). */
  function CString(s: seq<byte>): (r: seq<byte>)
    ensures |r| <= |s| && r == s[..|r|]
    ensures NUL !in r
    ensures |r| < |s| ==> s[|r|] == NUL
  {
    if s == [] || s[0] == NUL then [] else [s[0]] + CString(s[1..])
  }

  /** A C string ends at the first NUL of its buffer at the latest. */
  lemma {:induction false} CStringStops(s: seq<byte>, i: nat)
    requires i < |s| && s[i] == NUL
    ensures |CString(s)| <= i
  {
    if s[0] != NUL {
      CStringStops(s[1..], i - 1);
    }
  }

  /** The C string of a buffer is the one NUL-free prefix that the buffer
      ends or follows with a NUL. */
  lemma CStringUnique(s: seq<byte>, r: seq<byte>)
    requires |r| <= |s| && r == s[..|r|] && NUL !in r && (|r| < |s| ==> s[|r|] == NUL)
    ensures r == CString(s)
  {
  }

  /** Writing a NUL into a buffer cuts its C string there. */
  lemma CStringCut(x: seq<byte>, y: seq<byte>)
    ensures CString(x + [NUL] + y) == CString(x)
  {
    var s := x + [NUL] + y;
    var r := CString(x);
    assert s[..|x|] == x;
    assert s[..|r|] == x[..|r|];
    CStringUnique(s, r);
  }

  /** `strstr(s, pat) != NULL`. */
  predicate Contains(s: seq<byte>, pat: seq<byte>)
  {
    |pat| <= |s| && (s[..|pat|] == pat || Contains(s[1..], pat))
  }

  /** `strstr(s, "x")` finds the one-byte pattern exactly when `x` occurs. */
  lemma {:induction false} ContainsByte(s: seq<byte>, x: byte)
    ensures Contains(s, [x]) <==> x in s
  {
    if s != [] {
      ContainsByte(s[1..], x);
      assert s == [s[0]] + s[1..];
    }
  }

  /** `htonl` followed by a write of the word's four bytes: the big-endian
      (network order) image of `x`. */
  function EncodeBE(x: u32): (b: seq<byte>)
    ensures |b| == 4
  {
    var low3 := x % 0x100_0000;
    var low2 := low3 % 0x1_0000;
    [(x / 0x100_0000) as byte, (low3 / 0x1_0000) as byte, (low2 / 0x100) as byte, (low2 % 0x100) as byte]
  }

  /** Four bytes read from the wire followed by `ntohl`. */
  function DecodeBE(b: seq<byte>): (x: u32)
    requires |b| == 4
  {
    b[0] as int * 0x100_0000 + b[1] as int * 0x1_0000 + b[2] as int * 0x100 + b[3] as int
  }

  /** The client decodes exactly the word the server encoded. */
  lemma DecodeEncode(x: u32)
    ensures DecodeBE(EncodeBE(x)) == x
  {
    var low3 := x % 0x100_0000;
    var low2 := low3 % 0x1_0000;
    assert x == (x / 0x100_0000) * 0x100_0000 + low3;
    assert low3 == (low3 / 0x1_0000) * 0x1_0000 + low2;
    assert low2 == (low2 / 0x100) * 0x100 + low2 % 0x100;
  }

  /** Every four wire bytes are the image of the word they decode to, so the
      codec is a bijection between words and 4-byte strings. */
  lemma EncodeDecode(b: seq<byte>)
    requires |b| == 4
    ensures EncodeBE(DecodeBE(b)) == b
  {
    var x := DecodeBE(b);
    var low2 := b[2] as int * 0x100 + b[3] as int;
    var low3 := b[1] as int * 0x1_0000 + low2;
    assert x == b[0] as int * 0x100_0000 + low3 && 0 <= low3 < 0x100_0000;
    assert x / 0x100_0000 == b[0] as int && x % 0x100_0000 == low3;
    assert low3 / 0x1_0000 == b[1] as int && low3 % 0x1_0000 == low2;
    assert low2 / 0x100 == b[2] as int && low2 % 0x100 == b[3] as int;
  }
}

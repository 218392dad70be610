/**
 * The two text helpers of the server: cutting a received line at its
 * first newline, and splitting an IPv4 address into the four octets it is
 * printed as.
 */
module ServerText {
  import opened Wrappers
  import opened CString

  predicate IsNewline(c: char) { c == '\n' }

  /**
   * The buffer after `remove_trailing_newline(s, len)`: the first '\n'
   * among the first len chars becomes NUL and nothing else changes; with
   * no '\n' there (or len <= 0) the buffer is unchanged.
   */
  function NewlineRemoved(s: seq<char>, len: int): (r: seq<char>)
    requires len <= |s|
    ensures |r| == |s|
    ensures (forall j :: 0 <= j < len ==> s[j] != '\n') ==> r == s
    ensures forall k :: 0 <= k < len && s[k] == '\n' && (forall j :: 0 <= j < k ==> s[j] != '\n') ==>
              r == s[k := NUL]
  {
    if len <= 0 then s
    else match FirstIndex(s, len, IsNewline)
      case Some(k) => s[k := NUL]
      case None => s
  }

  /** `remove_trailing_newline`: scans in place and stops at the first '\n'. */
  method RemoveTrailingNewline(s: array<char>, len: int)
    requires len <= s.Length
    modifies s
    ensures s[..] == NewlineRemoved(old(s[..]), len)
  {
    var i := 0;
    while i < len
      invariant 0 <= i && (i <= len || i == 0)
      invariant s[..] == old(s[..])
      invariant forall j :: 0 <= j < i ==> s[j] != '\n'
    {
      if s[i] == '\n' {
        s[i] := NUL;
        return;
      }
      i := i + 1;
    }
  }

  /** `in_addr_t`, the unsigned 32-bit value `s_addr` holds. */
  type U32 = x: int | 0 <= x < 0x1_0000_0000

  /**
   * The four numbers `display_ip` prints, in printing order: octet k is
   * `(addr >> 8k) & 0xFF`. On an unsigned 32-bit value the shift is a
   * division by 256^k and the mask a remainder modulo 256.
   */
  function Octets(addr: U32): (o: seq<int>)
    ensures |o| == 4
    ensures forall k :: 0 <= k < 4 ==> 0 <= o[k] < 256
  {
    [addr % 256, (addr / 256) % 256, (addr / 65536) % 256, (addr / 16777216) % 256]
  }

  /** The octets are the base-256 digits of the address, least significant first. */
  lemma {:induction false} OctetsRecombine(addr: U32)
    ensures var o := Octets(addr); o[0] + 256 * o[1] + 65536 * o[2] + 16777216 * o[3] == addr
  {
    var q1, q2, q3 := addr / 256, addr / 65536, addr / 16777216;
    assert q2 == q1 / 256;
    assert q3 == q2 / 256;
    assert q3 < 256;
    assert addr == 256 * q1 + addr % 256;
    assert q1 == 256 * q2 + q1 % 256;
    assert q2 == 256 * q3 + q2 % 256;
  }

  /** Two addresses print alike only if they are the same address. */
  lemma OctetsInjective(a: U32, b: U32)
    requires Octets(a) == Octets(b)
    ensures a == b
  {
    OctetsRecombine(a);
    OctetsRecombine(b);
  }
}

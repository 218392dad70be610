/**
 * C string conventions shared by the server and the client.
 *
 * A C buffer is a fixed-size `seq<char>`; its text is everything before the
 * first NUL. A buffer without any NUL is read as text in full: that is the
 * model's reading of the undefined behaviour of `strlen` on an
 * unterminated buffer.
 */
module CString {
  import opened Wrappers

  const NUL: char := '\0'

  predicate IsNul(c: char) { c == NUL }

  /**
   * The first index below n whose element satisfies stop: the scan
   * `for (i = 0; i < n; ++i) if (stop(s[i])) ...` that several routines of
   * the relay share.
   */
  function FirstIndex<T>(s: seq<T>, n: nat, stop: T -> bool): (r: Option<nat>)
    requires n <= |s|
    ensures r.Some? ==> r.value < n && stop(s[r.value])
    ensures r.Some? ==> forall j :: 0 <= j < r.value ==> !stop(s[j])
    ensures r.None? ==> forall j :: 0 <= j < n ==> !stop(s[j])
  {
    if n == 0 then None
    else match FirstIndex(s, n - 1, stop)
      case Some(k) => Some(k)
      case None => if stop(s[n - 1]) then Some(n - 1) else None
  }

  /** `strlen`: the number of chars before the first NUL. */
  function StrLen(s: seq<char>): (n: nat)
    ensures n <= |s|
    ensures forall j :: 0 <= j < n ==> s[j] != NUL
    ensures n < |s| ==> s[n] == NUL
  {
    match FirstIndex(s, |s|, IsNul)
    case Some(k) => k
    case None => |s|
  }

  /** The text a C buffer holds. */
  function CStr(s: seq<char>): (t: seq<char>)
    ensures NUL !in t
    ensures t <= s
  {
    s[..StrLen(s)]
  }

  /** A buffer of n zero bytes (a `memset(buf, 0, n)`). */
  function Zeros(n: nat): (z: seq<char>)
    ensures |z| == n && StrLen(z) == 0
  {
    var z := seq(n, _ => NUL);
    assert n > 0 ==> z[0] == NUL;
    z
  }

  /**
   * The text `snprintf(buf, size, ...)` leaves in a buffer of the given
   * size when the formatted text is `full`: at most size - 1 chars, the
   * rest cut off.
   */
  function Snprintf(full: seq<char>, size: nat): (t: seq<char>)
    requires size > 0
    ensures |t| < size && t <= full
    ensures |full| < size ==> t == full
    ensures |full| >= size ==> |t| == size - 1
  {
    if |full| < size then full else full[..size - 1]
  }

  /** Zero bytes after a buffer do not change its text. */
  lemma CStrPadded(b: seq<char>, z: seq<char>)
    requires forall j :: 0 <= j < |z| ==> z[j] == NUL
    ensures CStr(b + z) == CStr(b)
  {
    var s := b + z;
    var n := StrLen(b);
    assert forall j :: 0 <= j < |b| ==> s[j] == b[j];
    assert n < |s| ==> s[n] == NUL;
    assert s[..n] == b[..n];
  }
}

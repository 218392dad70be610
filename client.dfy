/**
 * The client's input handling: cleaning a line read by `fgets`, the checks
 * `main` applies to the nickname and the port argument, and what
 * `send_messages` does with each line (shut down, or send it formatted).
 */
module ChatClient {
  import opened Wrappers
  import opened CString

  /** Size of the message buffer. */
  const MAX_BUFFER: nat := 2048
  /** Size of the nickname buffer. */
  const USERNAME_LEN: nat := 32
  /** Size of the formatted-message buffer, `MAX_BUFFER + 64`. */
  const FORMATTED_LEN: nat := MAX_BUFFER + 64

  predicate IsLineEnd(c: char) { c == '\n' || c == '\r' }

  /** A char that ends the text once the buffer is sanitized. */
  predicate IsTerminator(c: char) { c == NUL || IsLineEnd(c) }

  /**
   * The buffer after `sanitize_input(s, maxLen)`: the first '\n' or '\r'
   * among the first maxLen chars becomes NUL; with none there, the last of
   * those chars becomes NUL. No other char changes, and the text is then
   * shorter than maxLen.
   */
  function Sanitized(s: seq<char>, maxLen: nat): (r: seq<char>)
    requires 0 < maxLen <= |s|
    ensures |r| == |s|
    ensures forall k :: 0 <= k < maxLen && IsLineEnd(s[k]) && (forall j :: 0 <= j < k ==> !IsLineEnd(s[j])) ==>
              r == s[k := NUL]
    ensures (forall j :: 0 <= j < maxLen ==> !IsLineEnd(s[j])) ==> r == s[maxLen - 1 := NUL]
    ensures StrLen(r) < maxLen
  {
    match FirstIndex(s, maxLen, IsLineEnd)
    case Some(k) =>
      var r := s[k := NUL];
      assert r[k] == NUL;
      r
    case None =>
      var r := s[maxLen - 1 := NUL];
      assert r[maxLen - 1] == NUL;
      r
  }

  /** `sanitize_input`: scans in place, cuts at the first line end, else forces the last char to NUL. */
  method SanitizeInput(str: array<char>, maxLen: nat)
    requires 0 < maxLen <= str.Length
    modifies str
    ensures str[..] == Sanitized(old(str[..]), maxLen)
  {
    var i := 0;
    while i < maxLen
      invariant 0 <= i <= maxLen
      invariant str[..] == old(str[..])
      invariant forall j :: 0 <= j < i ==> !IsLineEnd(str[j])
    {
      if str[i] == '\n' || str[i] == '\r' {
        str[i] := NUL;
        return;
      }
      i := i + 1;
    }
    str[maxLen - 1] := NUL;
  }

  /**
   * The length of the line typed into s, as far as the first maxLen chars
   * go: up to the first NUL, '\n' or '\r', and at most maxLen - 1 chars.
   */
  function TypedLength(s: seq<char>, maxLen: nat): (n: nat)
    requires 0 < maxLen <= |s|
    ensures n < maxLen
    ensures forall j :: 0 <= j < n ==> !IsTerminator(s[j])
    ensures n < maxLen - 1 ==> IsTerminator(s[n])
  {
    match FirstIndex(s, maxLen, IsTerminator)
    case Some(t) => t
    case None => maxLen - 1
  }

  /** After sanitizing, the text is exactly the typed line: its first TypedLength chars. */
  lemma SanitizedText(s: seq<char>, maxLen: nat)
    requires 0 < maxLen <= |s|
    ensures CStr(Sanitized(s, maxLen)) == s[..TypedLength(s, maxLen)]
  {
  }

  /** The nickname check of `main`: `strlen` below 2 or at least USERNAME_LEN - 1 is refused. */
  predicate NicknameAccepted(name: seq<char>)
    ensures NicknameAccepted(name) <==> 2 <= |CStr(name)| <= USERNAME_LEN - 2
  {
    !(StrLen(name) < 2 || StrLen(name) >= USERNAME_LEN - 1)
  }

  /**
   * A nickname read into the 32-byte buffer is accepted exactly when the
   * typed name is 2 to 30 chars long. A longer name is cut at 31 chars by
   * the sanitizing and then refused, so no accepted name is ever cut.
   */
  lemma NicknameRule(raw: seq<char>)
    requires |raw| == USERNAME_LEN
    ensures NicknameAccepted(Sanitized(raw, USERNAME_LEN)) <==> 2 <= TypedLength(raw, USERNAME_LEN) <= 30
    ensures NicknameAccepted(Sanitized(raw, USERNAME_LEN)) ==>
              CStr(Sanitized(raw, USERNAME_LEN)) == raw[..TypedLength(raw, USERNAME_LEN)]
  {
    SanitizedText(raw, USERNAME_LEN);
  }

  /** The port `main` uses: `(uint16_t)atoi(arg)`, the argument's value modulo 2^16. */
  function Port(arg: int): (p: int)
    ensures 0 <= p < 0x1_0000
    ensures (p - arg) % 0x1_0000 == 0
  {
    arg % 0x1_0000
  }

  /** The port check of `main`, applied to the truncated value. */
  predicate PortAccepted(arg: int)
    ensures PortAccepted(arg) <==> 1024 <= Port(arg)
  {
    var port := Port(arg);
    !(port < 1024 || port > 65535)
  }

  /**
   * The check refuses exactly the values whose 16-bit truncation is below
   * 1024: the test `port > 65535` never holds of a 16-bit value.
   */
  lemma PortRule(arg: int)
    ensures PortAccepted(arg) <==> 1024 <= arg % 0x1_0000
    ensures !(Port(arg) > 65535)
  {
  }

  /** An argument above 65535 is accepted, and the client then uses a different port. */
  lemma PortWrapsAround()
    ensures PortAccepted(66560) && Port(66560) == 1024
    ensures PortAccepted(-64512) && Port(-64512) == 1024
  {
  }

  /** The check the range test was meant to make: on the argument itself, before truncation. */
  predicate PortInRange(arg: int)
  {
    1024 <= arg <= 65535
  }

  /** An argument the range check accepts is used unchanged, and is accepted by the code's check too. */
  lemma PortInRangeIsExact(arg: int)
    ensures PortInRange(arg) <==> PortAccepted(arg) && Port(arg) == arg
  {
  }

  /** ASCII `tolower`, as `strcasecmp` applies it in the C locale. */
  function ToLower(c: char): char
  {
    if 'A' <= c <= 'Z' then (c as int + 32) as char else c
  }

  /** `strcasecmp(a, b) == 0`: same length and equal after lowering each char. */
  predicate EqualsIgnoringCase(a: seq<char>, b: seq<char>)
  {
    |a| == |b| && forall i :: 0 <= i < |a| ==> ToLower(a[i]) == ToLower(b[i])
  }

  /** The whole string lowered. */
  function Lowered(s: seq<char>): (r: seq<char>)
    ensures |r| == |s| && forall i :: 0 <= i < |s| ==> r[i] == ToLower(s[i])
  {
    if s == [] then [] else [ToLower(s[0])] + Lowered(s[1..])
  }

  /** The line that makes `send_messages` shut the client down instead of sending. */
  predicate IsQuitCommand(line: seq<char>)
    ensures IsQuitCommand(line) ==> |line| == 4
  {
    EqualsIgnoringCase(line, "quit") || EqualsIgnoringCase(line, "exit")
  }

  /** A line is a quit command exactly when, lowered, it reads "quit" or "exit". */
  lemma QuitCommandRule(line: seq<char>)
    ensures IsQuitCommand(line) <==> Lowered(line) == "quit" || Lowered(line) == "exit"
  {
  }

  /** `snprintf(formatted_msg, MAX_BUFFER + 64, "[%s]: %s\n", username, line)`. */
  function FormatMessage(username: seq<char>, line: seq<char>): (m: seq<char>)
    ensures |m| < FORMATTED_LEN
    ensures |username| <= USERNAME_LEN - 2 && |line| < MAX_BUFFER ==> m == "[" + username + "]: " + line + "\n"
  {
    Snprintf("[" + username + "]: " + line + "\n", FORMATTED_LEN)
  }

  /** What `send_messages` does with a line: shut down, or send this text. */
  datatype Action = Shutdown | Send(text: seq<char>)

  /** One pass of `send_messages` over the sanitized message buffer. */
  function OnLine(username: seq<char>, msgBuffer: seq<char>): (a: Action)
    ensures a.Shutdown? <==> IsQuitCommand(CStr(msgBuffer))
    ensures a.Send? ==> |a.text| < FORMATTED_LEN
  {
    if IsQuitCommand(CStr(msgBuffer)) then Shutdown
    else Send(FormatMessage(CStr(username), CStr(msgBuffer)))
  }

  /**
   * For a line read into the message buffer and an accepted nickname, the
   * client shuts down on "quit" or "exit" in any case, and otherwise sends
   * "[nickname]: line\n" with nothing cut off.
   */
  lemma OutgoingMessage(username: seq<char>, raw: seq<char>)
    requires NicknameAccepted(username) && |raw| == MAX_BUFFER
    ensures var line := raw[..TypedLength(raw, MAX_BUFFER)];
      OnLine(username, Sanitized(raw, MAX_BUFFER)) ==
        if IsQuitCommand(line) then Shutdown else Send("[" + CStr(username) + "]: " + line + "\n")
  {
    SanitizedText(raw, MAX_BUFFER);
  }
}

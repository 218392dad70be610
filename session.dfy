/**
 * What one connection handler (`handle_client`) broadcasts, as a function
 * of what its `recv` calls return: the handshake read of the alias, then
 * the read loop, then teardown.
 *
 * Every `recv` is an input. A script of outcomes that runs out before the
 * handler decides to disconnect stands for a handler still blocked in
 * `recv`.
 */
module Session {
  import opened Wrappers
  import opened CString
  import opened Registry

  /** Size of the handler's receive buffer. */
  const BUF_SIZE: nat := 2048

  /** What one `recv` call yields: some bytes, an orderly close, or an error. */
  datatype Recv = Received(bytes: seq<char>) | PeerClosed | RecvError

  /** The value `recv` returns. */
  function Ret(r: Recv): int
  {
    match r
    case Received(b) => |b|
    case PeerClosed => 0
    case RecvError => -1
  }

  /** A `recv` into a buffer of cap bytes delivers between 1 and cap bytes. */
  predicate Fits(r: Recv, cap: nat)
  {
    r.Received? ==> 0 < |r.bytes| <= cap
  }

  /** The buffer after a `recv` into it: the bytes read overwrite its start, the rest is kept. */
  function Fill(buf: seq<char>, r: Recv): (b: seq<char>)
    requires Fits(r, |buf|)
    ensures |b| == |buf|
    ensures r.Received? ==> b[..|r.bytes|] == r.bytes && b[|r.bytes|..] == buf[|r.bytes|..]
    ensures !r.Received? ==> b == buf
  {
    if r.Received? then r.bytes + buf[|r.bytes|..] else buf
  }

  /** The events announced to the other clients. */
  const JOINED := " joined\n"
  const LEFT := " left\n"

  /**
   * `snprintf(.., BUF_SIZE, "%s joined\n", alias)` and its "left" twin:
   * an announcement that fits the buffer is never cut.
   */
  function Notice(alias: seq<char>, event: seq<char>): (t: seq<char>)
    ensures |alias| + |event| < BUF_SIZE ==> t == alias + event
    ensures |t| < BUF_SIZE
  {
    Snprintf(alias + event, BUF_SIZE)
  }

  /**
   * The alias field after the handshake `recv` into it (the field starts
   * zeroed): its text is the text received, and empty when nothing was.
   */
  function AliasAfter(hs: Recv): (a: seq<char>)
    requires Fits(hs, ALIAS_LEN)
    ensures |a| == ALIAS_LEN
    ensures hs.Received? ==> CStr(a) == CStr(hs.bytes)
    ensures !hs.Received? ==> StrLen(a) == 0
  {
    if hs.Received? then CStrPadded(hs.bytes, Zeros(ALIAS_LEN)[|hs.bytes|..]); Fill(Zeros(ALIAS_LEN), hs)
    else Fill(Zeros(ALIAS_LEN), hs)
  }

  /** The handshake succeeds when `recv` returned > 0 and the alias is at least 2 chars long. */
  predicate HandshakeOk(hs: Recv)
    requires Fits(hs, ALIAS_LEN)
    ensures HandshakeOk(hs) <==> hs.Received? && StrLen(hs.bytes) >= 2
  {
    Ret(hs) > 0 && StrLen(AliasAfter(hs)) >= 2
  }

  /** What one pass of the read loop broadcasts, and whether it ends the loop. */
  datatype Step = Step(out: seq<seq<char>>, stop: bool)

  /**
   * One pass of the read loop: received text is relayed when non-empty
   * (whatever it says), an orderly close announces the leave and ends the
   * loop, and an error ends it without a word.
   */
  function LoopStep(alias: seq<char>, r: Recv): (st: Step)
    ensures st.stop <==> !r.Received?
    ensures r.RecvError? ==> st.out == []
    ensures |st.out| <= 1 && forall m :: 0 <= m < |st.out| ==> st.out[m] != []
  {
    match r
    case Received(b) => if StrLen(b) > 0 then Step([CStr(b)], false) else Step([], false)
    case PeerClosed => Step([Notice(alias, LEFT)], true)
    case RecvError => Step([], true)
  }

  /** What a handler has done: its broadcasts in order, the reads it consumed, and whether it disconnected. */
  datatype Trace = Trace(broadcasts: seq<seq<char>>, consumed: nat, disconnected: bool)

  /** A trace preceded by broadcasts already made and reads already consumed. */
  function Then(out: seq<seq<char>>, k: nat, t: Trace): Trace
  {
    Trace(out + t.broadcasts, k + t.consumed, t.disconnected)
  }

  predicate AllFit(script: seq<Recv>, cap: nat)
  {
    forall j :: 0 <= j < |script| ==> Fits(script[j], cap)
  }

  /** The read loop `while (!should_disconnect)` run over a script of `recv` outcomes. */
  function ReadLoop(alias: seq<char>, script: seq<Recv>): (t: Trace)
    ensures t.consumed <= |script|
    ensures t.disconnected ==> t.consumed > 0
  {
    if script == [] then Trace([], 0, false)
    else
      var st := LoopStep(alias, script[0]);
      if st.stop then Trace(st.out, 1, true)
      else
        Then(st.out, 1, ReadLoop(alias, script[1..]))
  }

  /**
   * Everything `handle_client` broadcasts. A failed handshake skips the
   * loop and announces nothing; a good one announces the join first.
   */
  function Run(hs: Recv, script: seq<Recv>): (t: Trace)
    requires Fits(hs, ALIAS_LEN)
    ensures !HandshakeOk(hs) ==> t == Trace([], 0, true)
    ensures HandshakeOk(hs) ==> |t.broadcasts| > 0 && t.broadcasts[0] == CStr(hs.bytes) + " joined\n"
    ensures t.consumed <= |script|
  {
    if !HandshakeOk(hs) then Trace([], 0, true)
    else
      var alias := CStr(AliasAfter(hs));
      Then([Notice(alias, JOINED)], 0, ReadLoop(alias, script))
  }

  /** The chat text of each read among script that carries non-empty text, in order. */
  function Chats(script: seq<Recv>): (c: seq<seq<char>>)
    ensures |c| <= |script|
    ensures forall m :: 0 <= m < |c| ==> c[m] != []
  {
    if script == [] then []
    else (if script[0].Received? && StrLen(script[0].bytes) > 0 then [CStr(script[0].bytes)] else []) + Chats(script[1..])
  }

  predicate EndsLoop(r: Recv) { !r.Received? }

  /** One more pass of the read loop, from read i of the script. */
  lemma ReadLoopUnfold(alias: seq<char>, script: seq<Recv>, i: nat)
    requires i < |script|
    ensures var st := LoopStep(alias, script[i]);
      ReadLoop(alias, script[i..]) ==
        if st.stop then Trace(st.out, 1, true) else Then(st.out, 1, ReadLoop(alias, script[i + 1..]))
  {
  }

  /**
   * The code of one pass, run on a buffer zeroed by the previous pass,
   * does what LoopStep says: the text `strlen` and `strcmp` see is the text
   * of the bytes received, and after a failed `recv` the zeroed buffer
   * never reads "exit", so an error never announces a leave.
   */
  lemma LoopStepByBuffer(alias: seq<char>, r: Recv)
    requires Fits(r, BUF_SIZE)
    ensures var buffer := Fill(Zeros(BUF_SIZE), r);
      LoopStep(alias, r) ==
        if Ret(r) > 0 then (if StrLen(buffer) > 0 then Step([CStr(buffer)], false) else Step([], false))
        else if Ret(r) == 0 || CStr(buffer) == "exit" then Step([Notice(alias, LEFT)], true)
        else Step([], true)
  {
    var buffer := Fill(Zeros(BUF_SIZE), r);
    if r.Received? {
      CStrPadded(r.bytes, Zeros(BUF_SIZE)[|r.bytes|..]);
      assert buffer == r.bytes + Zeros(BUF_SIZE)[|r.bytes|..];
    } else {
      assert CStr(buffer) == [];
    }
  }

  /**
   * One more pass of the read loop, seen from the start of the script:
   * after the broadcasts out of read i, the loop has either stopped or
   * goes on from read i + 1.
   */
  lemma ReadLoopAdvance(alias: seq<char>, script: seq<Recv>, i: nat, done: seq<seq<char>>)
    requires i < |script|
    requires ReadLoop(alias, script) == Then(done, i, ReadLoop(alias, script[i..]))
    ensures var st := LoopStep(alias, script[i]);
      ReadLoop(alias, script) ==
        if st.stop then Trace(done + st.out, i + 1, true)
        else Then(done + st.out, i + 1, ReadLoop(alias, script[i + 1..]))
  {
    ReadLoopUnfold(alias, script, i);
    var st := LoopStep(alias, script[i]);
    if !st.stop {
      ThenThen(done, i, st.out, 1, ReadLoop(alias, script[i + 1..]));
    }
  }

  /** Traces compose: what was done, then one step, then the rest. */
  lemma ThenThen(out: seq<seq<char>>, k: nat, more: seq<seq<char>>, m: nat, t: Trace)
    ensures Then(out, k, Then(more, m, t)) == Then(out + more, k + m, t)
  {
  }

  /** With no close or error in the script, the handler relays the non-empty text of every read, in order, and is still reading. */
  lemma {:induction false} ReadLoopRelaysAll(alias: seq<char>, script: seq<Recv>)
    requires forall j :: 0 <= j < |script| ==> script[j].Received?
    ensures ReadLoop(alias, script) == Trace(Chats(script), |script|, false)
  {
    if script != [] {
      assert forall j :: 0 <= j < |script[1..]| ==> script[1..][j] == script[j + 1];
      ReadLoopRelaysAll(alias, script[1..]);
    }
  }

  /**
   * The read loop relays, in order, the non-empty text of every read before
   * the first close or error, and stops at that one; it announces the
   * leave only when that one is an orderly close.
   */
  lemma {:induction false} ReadLoopStopsAt(alias: seq<char>, script: seq<Recv>, k: nat)
    requires |alias| <= ALIAS_LEN
    requires k < |script| && EndsLoop(script[k])
    requires forall j :: 0 <= j < k ==> script[j].Received?
    ensures ReadLoop(alias, script) ==
              Trace(Chats(script[..k]) + (if script[k].PeerClosed? then [alias + " left\n"] else []), k + 1, true)
  {
    var st := LoopStep(alias, script[0]);
    var tail := if script[k].PeerClosed? then [alias + " left\n"] else [];
    if k == 0 {
      assert st == Step(tail, true);
      assert Chats(script[..0]) == [];
    } else {
      var rest := script[1..];
      assert rest[k - 1] == script[k];
      assert forall j :: 0 <= j < k - 1 ==> rest[j] == script[j + 1];
      ReadLoopStopsAt(alias, rest, k - 1);
      var r := ReadLoop(alias, rest);
      calc {
        ReadLoop(alias, script);
        { assert !st.stop; }
        Then(st.out, 1, r);
        Then(st.out, 1, Trace(Chats(rest[..k - 1]) + tail, k, true));
        Trace(st.out + (Chats(rest[..k - 1]) + tail), k + 1, true);
        { assert st.out + (Chats(rest[..k - 1]) + tail) == (st.out + Chats(rest[..k - 1])) + tail; }
        Trace((st.out + Chats(rest[..k - 1])) + tail, k + 1, true);
        { assert script[..k][1..] == rest[..k - 1]; }
        Trace(Chats(script[..k]) + tail, k + 1, true);
      }
    }
  }

  /** "exit" is relayed as chat and the loop goes on: the exit test is only reached when `recv` returned <= 0. */
  lemma ExitIsRelayed(alias: seq<char>, rest: seq<Recv>)
    ensures var t := ReadLoop(alias, rest);
      ReadLoop(alias, [Received("exit")] + rest) == Trace(["exit"] + t.broadcasts, 1 + t.consumed, t.disconnected)
  {
    var script := [Received("exit")] + rest;
    assert script[1..] == rest;
    assert StrLen("exit") == 4 by {
      assert forall j :: 0 <= j < 4 ==> "exit"[j] != NUL;
    }
    assert CStr("exit") == "exit";
  }
}

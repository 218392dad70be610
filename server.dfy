/**
 * The server's shared state and the operations on it: the client table
 * `clients`, the counter `connected_clients` and the counter
 * `client_uid_counter`, updated in place by the accept path and by each
 * connection handler. Every operation runs as one atomic step, as the
 * table mutex makes it.
 */
module Server {
  import opened Wrappers
  import opened CString
  import opened Registry
  import opened Session

  class ChatServer {
    /** `clients[MAX_CLIENTS]`: a slot is empty or holds one client record. */
    var clients: array<Option<Client>>
    /** `connected_clients`: handlers started and not yet torn down. */
    var connectedClients: nat
    /** `client_uid_counter`: the uid the next accepted client gets. */
    var uidCounter: int
    /** Every uid handed out so far. */
    ghost var issued: set<int>

    ghost predicate Valid()
      reads this
    {
      clients.Length == MAX_CLIENTS
    }

    /** Table uids are distinct, were all handed out, and every uid handed out is below the counter. */
    ghost predicate UidsIssued()
      reads this, clients
    {
      Valid() && UniqueUids(clients[..]) && Uids(clients[..]) <= issued &&
      forall u :: u in issued ==> u < uidCounter
    }

    /** The server at start-up: an empty table, no handlers, uids counted from 1. */
    constructor ()
      ensures Valid() && UidsIssued() && fresh(clients)
      ensures forall j :: 0 <= j < MAX_CLIENTS ==> clients[j].None?
      ensures connectedClients == 0 && uidCounter == 1 && issued == {}
    {
      clients := new Option<Client>[MAX_CLIENTS](_ => None);
      connectedClients := 0;
      uidCounter := 1;
      issued := {};
    }

    /** `register_client`: fills the lowest-indexed empty slot, or drops c when there is none. */
    method RegisterClient(c: Client)
      requires Valid()
      modifies clients
      ensures clients[..] == Registered(old(clients[..]), c)
    {
      var i := 0;
      while i < MAX_CLIENTS
        invariant 0 <= i <= MAX_CLIENTS
        invariant clients[..] == old(clients[..])
        invariant forall j :: 0 <= j < i ==> clients[j].Some?
      {
        if clients[i].None? {
          clients[i] := Some(c);
          break;
        }
        i := i + 1;
      }
    }

    /** `unregister_client`: empties the lowest-indexed slot holding uid, if any. */
    method UnregisterClient(uid: int)
      requires Valid()
      modifies clients
      ensures clients[..] == Unregistered(old(clients[..]), uid)
    {
      var i := 0;
      while i < MAX_CLIENTS
        invariant 0 <= i <= MAX_CLIENTS
        invariant clients[..] == old(clients[..])
        invariant forall j :: 0 <= j < i ==> !Holds(clients[j], uid)
      {
        if clients[i].Some? && clients[i].value.uid == uid {
          clients[i] := None;
          break;
        }
        i := i + 1;
      }
    }

    /**
     * `broadcastMessage`: sends msg to every occupied slot whose uid is not
     * senderUid, in slot order, and gives up at the first failed send.
     */
    method BroadcastMessage(msg: seq<char>, senderUid: int, sendOk: (int, seq<char>) -> bool) returns (o: Outcome)
      requires Valid()
      ensures o == Sweep(clients[..], senderUid, msg, sendOk, MAX_CLIENTS)
    {
      var delivered: seq<int> := [];
      var failedAt: Option<nat> := None;
      var i := 0;
      while i < MAX_CLIENTS
        invariant 0 <= i <= MAX_CLIENTS
        invariant Sweep(clients[..], senderUid, msg, sendOk, i) == Outcome(delivered, None)
      {
        if clients[i].Some? && clients[i].value.uid != senderUid {
          if !sendOk(clients[i].value.fd, msg) {
            failedAt := Some(i);
            break;
          }
          delivered := delivered + [clients[i].value.uid];
        }
        i := i + 1;
      }
      o := Outcome(delivered, failedAt);
      if failedAt.Some? {
        SweepSettled(clients[..], senderUid, msg, sendOk, i + 1, MAX_CLIENTS);
      }
    }

    /**
     * The accept path of `main`: with MAX_CLIENTS handlers running the
     * connection is closed and nothing changes; otherwise the client gets
     * the next uid and is registered at once, before any handshake.
     */
    method Accept(fd: int) returns (admitted: Option<Client>)
      requires UidsIssued()
      modifies this, clients
      ensures UidsIssued() && clients == old(clients)
      ensures connectedClients == old(connectedClients)
      ensures admitted.None? <==> old(connectedClients) >= MAX_CLIENTS
      ensures admitted.None? ==>
                clients[..] == old(clients[..]) && uidCounter == old(uidCounter) && issued == old(issued)
      ensures admitted.Some? ==>
                var c := admitted.value;
                c == Client(old(uidCounter), fd, Zeros(ALIAS_LEN)) && c.uid !in old(issued) &&
                uidCounter == old(uidCounter) + 1 && issued == old(issued) + {c.uid} &&
                clients[..] == Registered(old(clients[..]), c)
    {
      if connectedClients >= MAX_CLIENTS {
        return None;
      }
      var c := Client(uidCounter, fd, Zeros(ALIAS_LEN));
      uidCounter := uidCounter + 1;
      issued := issued + {c.uid};
      RegisteredKeepsUidsUnique(clients[..], c);
      RegisterClient(c);
      admitted := Some(c);
    }

    /**
     * One pass of the read loop of `handle_client` for the client me, whose
     * alias text is name: the outcome r is read into the zeroed buffer; a
     * positive count broadcasts the text received, if any; an orderly close
     * (or a buffer reading "exit" after a failed read) broadcasts the leave
     * announcement and stops; any other failure stops silently. The buffer
     * is zeroed again at the end of the pass.
     */
    method ReadPass(me: Client, name: seq<char>, r: Recv, sendOk: (int, seq<char>) -> bool)
      returns (out: seq<seq<char>>, outcomes: seq<Outcome>, stop: bool)
      requires Valid() && Fits(r, BUF_SIZE)
      ensures Step(out, stop) == LoopStep(name, r)
      ensures outcomes == Deliveries(clients[..], me.uid, out, sendOk)
    {
      LoopStepByBuffer(name, r);
      var buffer := Zeros(BUF_SIZE);
      buffer := Fill(buffer, r);
      out, outcomes, stop := [], [], false;
      var recvd := Ret(r);
      if recvd > 0 {
        if StrLen(buffer) > 0 {
          var msg := CStr(buffer);
          var o := BroadcastMessage(msg, me.uid, sendOk);
          out, outcomes := [msg], [o];
        }
      } else if recvd == 0 || CStr(buffer) == "exit" {
        var leave := Notice(name, LEFT);
        var o := BroadcastMessage(leave, me.uid, sendOk);
        out, outcomes, stop := [leave], [o], true;
      } else {
        stop := true;
      }
      buffer := Zeros(BUF_SIZE);
    }

    /**
     * The read loop of `handle_client` for the client me, whose alias text
     * is name: one pass per outcome of the script, until a pass decides to
     * disconnect or the script runs out.
     */
    method RunReadLoop(me: Client, name: seq<char>, script: seq<Recv>, sendOk: (int, seq<char>) -> bool)
      returns (t: Trace, deliveries: seq<Outcome>)
      requires Valid() && |name| <= ALIAS_LEN && AllFit(script, BUF_SIZE)
      ensures t == ReadLoop(name, script)
      ensures deliveries == Deliveries(clients[..], me.uid, t.broadcasts, sendOk)
    {
      var shouldDisconnect := false;
      var broadcasts: seq<seq<char>> := [];
      deliveries := [];
      var i := 0;
      assert script[0..] == script;
      while !shouldDisconnect && i < |script|
        invariant 0 <= i <= |script|
        invariant !shouldDisconnect ==> ReadLoop(name, script) == Then(broadcasts, i, ReadLoop(name, script[i..]))
        invariant shouldDisconnect ==> ReadLoop(name, script) == Trace(broadcasts, i, true)
        invariant deliveries == Deliveries(clients[..], me.uid, broadcasts, sendOk)
        decreases |script| - i
      {
        var out, outcomes, stop := ReadPass(me, name, script[i], sendOk);
        ReadLoopAdvance(name, script, i, broadcasts);
        DeliveriesAppend(clients[..], me.uid, broadcasts, out, sendOk);
        broadcasts, deliveries, shouldDisconnect := broadcasts + out, deliveries + outcomes, stop;
        i := i + 1;
      }
      if !shouldDisconnect {
        assert i == |script| && script[i..] == [];
      }
      t := Trace(broadcasts, i, shouldDisconnect);
    }

    /**
     * The part of `handle_client` before teardown, for the client me: the
     * handshake outcome hs fills the zeroed alias, and a handshake that
     * carries at least two chars of alias is announced and followed by the
     * read loop over script. Every broadcast goes to the table as it stands.
     */
    method Serve(me: Client, hs: Recv, script: seq<Recv>, sendOk: (int, seq<char>) -> bool)
      returns (t: Trace, deliveries: seq<Outcome>)
      requires Valid() && Fits(hs, ALIAS_LEN) && AllFit(script, BUF_SIZE)
      ensures t == Run(hs, script)
      ensures deliveries == Deliveries(clients[..], me.uid, t.broadcasts, sendOk)
    {
      var alias := Fill(Zeros(ALIAS_LEN), hs);
      var name := CStr(alias);
      if Ret(hs) <= 0 || StrLen(alias) < 2 {
        t, deliveries := Trace([], 0, true), [];
      } else {
        var join := Notice(name, JOINED);
        var o := BroadcastMessage(join, me.uid, sendOk);
        var rest, more := RunReadLoop(me, name, script, sendOk);
        t, deliveries := Then([join], 0, rest), [o] + more;
        DeliveriesAppend(clients[..], me.uid, [join], rest.broadcasts, sendOk);
      }
    }

    /**
     * The teardown of `handle_client`: unregisters uid and counts the
     * connection out. Uids stay unique and issued.
     */
    method Teardown(uid: int)
      requires Valid() && connectedClients > 0
      modifies this, clients
      ensures Valid() && clients == old(clients)
      ensures uidCounter == old(uidCounter) && issued == old(issued)
      ensures clients[..] == Unregistered(old(clients[..]), uid)
      ensures connectedClients == old(connectedClients) - 1
      ensures old(UidsIssued()) ==> UidsIssued()
    {
      ghost var table := clients[..];
      UnregisterClient(uid);
      connectedClients := connectedClients - 1;
      if old(UidsIssued()) {
        UnregisteredRemovesUid(table, uid);
      }
    }

    /**
     * `handle_client` for the client me, driven by the handshake outcome hs
     * and the script of later `recv` outcomes. It broadcasts what Run says,
     * each broadcast going to the table as it stood when the handler began
     * (the handler itself never changes it before teardown), and on
     * disconnecting it unregisters me.uid whether or not the handshake
     * succeeded. A script that runs out leaves the handler reading.
     */
    method HandleClient(me: Client, hs: Recv, script: seq<Recv>, sendOk: (int, seq<char>) -> bool)
      returns (t: Trace, deliveries: seq<Outcome>)
      requires Valid() && Fits(hs, ALIAS_LEN) && AllFit(script, BUF_SIZE)
      modifies this, clients
      ensures Valid() && clients == old(clients)
      ensures uidCounter == old(uidCounter) && issued == old(issued)
      ensures old(UidsIssued()) ==> UidsIssued()
      ensures t == Run(hs, script)
      ensures deliveries == Deliveries(old(clients[..]), me.uid, t.broadcasts, sendOk)
      ensures clients[..] == if t.disconnected then Unregistered(old(clients[..]), me.uid) else old(clients[..])
      ensures connectedClients == if t.disconnected then old(connectedClients) else old(connectedClients) + 1
    {
      connectedClients := connectedClients + 1;
      t, deliveries := Serve(me, hs, script, sendOk);
      if t.disconnected {
        Teardown(me.uid);
      }
    }
  }
}

/**
 * The server's client table as a value: MAX_CLIENTS slots, each empty or
 * holding one client record, and the effect of each table operation on
 * it. The class in module Server performs these operations in place on an
 * array; the functions here say what the array holds afterwards.
 */
module Registry {
  import opened Wrappers
  import opened CString

  const MAX_CLIENTS: nat := 100
  /** Size of the `alias` field of a client record. */
  const ALIAS_LEN: nat := 32

  /** A `ChatClient` record: its uid, its socket and its 32-byte alias. */
  datatype Client = Client(uid: int, fd: int, alias: seq<char>)

  type Slots = seq<Option<Client>>

  predicate IsFree(slot: Option<Client>) { slot.None? }

  predicate Holds(slot: Option<Client>, uid: int) { slot.Some? && slot.value.uid == uid }

  /** The uids of the occupied slots. */
  function Uids(s: Slots): set<int>
  {
    set j | 0 <= j < |s| && s[j].Some? :: s[j].value.uid
  }

  /** No uid occupies two slots. */
  predicate UniqueUids(s: Slots)
  {
    forall i, j :: 0 <= i < j < |s| && s[i].Some? && s[j].Some? ==> s[i].value.uid != s[j].value.uid
  }

  /**
   * The table after `register_client(c)`: c goes into the lowest-indexed
   * empty slot and no other slot changes; a full table is left as it is
   * and c is dropped.
   */
  function Registered(s: Slots, c: Client): (r: Slots)
    ensures |r| == |s|
    ensures (forall j :: 0 <= j < |s| ==> s[j].Some?) ==> r == s
    ensures forall k :: 0 <= k < |s| && s[k].None? && (forall j :: 0 <= j < k ==> s[j].Some?) ==>
              r == s[k := Some(c)]
  {
    match FirstIndex(s, |s|, IsFree)
    case Some(k) => s[k := Some(c)]
    case None => s
  }

  /**
   * The table after `unregister_client(uid)`: the lowest-indexed slot
   * holding uid is emptied and no other slot changes; an absent uid leaves
   * the table as it is.
   */
  function Unregistered(s: Slots, uid: int): (r: Slots)
    ensures |r| == |s|
    ensures (forall j :: 0 <= j < |s| ==> !Holds(s[j], uid)) ==> r == s
    ensures forall k :: 0 <= k < |s| && Holds(s[k], uid) && (forall j :: 0 <= j < k ==> !Holds(s[j], uid)) ==>
              r == s[k := None]
  {
    match FirstIndex(s, |s|, slot => Holds(slot, uid))
    case Some(k) => s[k := None]
    case None => s
  }

  /** Registering a client whose uid is new keeps the uids unique and adds it, unless the table is full. */
  lemma RegisteredKeepsUidsUnique(s: Slots, c: Client)
    requires UniqueUids(s) && c.uid !in Uids(s)
    ensures UniqueUids(Registered(s, c))
    ensures Uids(Registered(s, c)) == if exists j :: 0 <= j < |s| && s[j].None? then Uids(s) + {c.uid} else Uids(s)
  {
    var r := Registered(s, c);
    match FirstIndex(s, |s|, IsFree)
    case None =>
    case Some(k) =>
      assert r == s[k := Some(c)];
      forall i, j | 0 <= i < j < |r| && r[i].Some? && r[j].Some?
        ensures r[i].value.uid != r[j].value.uid
      {
        if i != k && j != k {
        } else if i == k {
          assert r[j] == s[j];
        } else {
          assert r[i] == s[i];
        }
      }
      forall u | u in Uids(r) ensures u in Uids(s) + {c.uid} {
        var j :| 0 <= j < |r| && r[j].Some? && r[j].value.uid == u;
        if j != k { assert s[j] == r[j]; }
      }
      forall u | u in Uids(s) + {c.uid} ensures u in Uids(r) {
        if u == c.uid {
          assert r[k] == Some(c);
        } else {
          var j :| 0 <= j < |s| && s[j].Some? && s[j].value.uid == u;
          assert j != k && r[j] == s[j];
        }
      }
  }

  /** With unique uids, unregistering removes the uid from the table entirely. */
  lemma UnregisteredRemovesUid(s: Slots, uid: int)
    requires UniqueUids(s)
    ensures UniqueUids(Unregistered(s, uid))
    ensures Uids(Unregistered(s, uid)) == Uids(s) - {uid}
  {
  }

  /** Unregistering a client just registered under a new uid restores the table. */
  lemma UnregisterUndoesRegister(s: Slots, c: Client)
    requires c.uid !in Uids(s)
    ensures Unregistered(Registered(s, c), c.uid) == s
  {
  }

  /** Slot j takes part in a broadcast from sender: it is occupied by another client. */
  predicate Receives(s: Slots, sender: int, j: int)
    requires 0 <= j < |s|
  {
    s[j].Some? && s[j].value.uid != sender
  }

  /** The uids of the slots among the first n that a broadcast from sender addresses, in slot order. */
  function Recipients(s: Slots, sender: int, n: nat): (r: seq<int>)
    requires n <= |s|
    ensures sender !in r
    ensures |r| <= n
  {
    if n == 0 then []
    else Recipients(s, sender, n - 1) + if Receives(s, sender, n - 1) then [s[n - 1].value.uid] else []
  }

  /** A broadcast addresses exactly the clients other than the sender. */
  lemma {:induction false} RecipientsMembership(s: Slots, sender: int, n: nat, u: int)
    requires n <= |s|
    ensures u in Recipients(s, sender, n) <==> u != sender && exists j :: 0 <= j < n && Holds(s[j], u)
  {
    if n > 0 {
      RecipientsMembership(s, sender, n - 1, u);
      if u in Recipients(s, sender, n) && u !in Recipients(s, sender, n - 1) {
        assert Holds(s[n - 1], u);
      }
      if exists j :: 0 <= j < n && Holds(s[j], u) {
        var j :| 0 <= j < n && Holds(s[j], u);
        if u != sender && j == n - 1 {
          assert u in Recipients(s, sender, n);
        }
      }
    }
  }

  /** With unique uids, no client is addressed twice by one broadcast. */
  lemma {:induction false} RecipientsDistinct(s: Slots, sender: int, n: nat)
    requires n <= |s| && UniqueUids(s)
    ensures forall a, b :: 0 <= a < b < |Recipients(s, sender, n)| ==>
              Recipients(s, sender, n)[a] != Recipients(s, sender, n)[b]
  {
    if n > 0 {
      RecipientsDistinct(s, sender, n - 1);
      if Receives(s, sender, n - 1) {
        var u := s[n - 1].value.uid;
        RecipientsMembership(s, sender, n - 1, u);
        assert u !in Recipients(s, sender, n - 1);
      }
    }
  }

  /**
   * The result of a broadcast: the uids whose send succeeded, in the order
   * sent, and the slot whose failed send ended the broadcast, if one did.
   */
  datatype Outcome = Outcome(delivered: seq<int>, failedAt: Option<nat>)

  /**
   * The broadcast loop of `broadcastMessage` run over the first n slots:
   * slots are visited in index order, the sender's own slot and empty
   * slots are skipped, and the first failed send stops the loop. Whether
   * sending msg on a socket succeeds is decided by the oracle sendOk.
   */
  function Sweep(s: Slots, sender: int, msg: seq<char>, sendOk: (int, seq<char>) -> bool, n: nat): (o: Outcome)
    requires n <= |s|
    ensures |o.delivered| <= n
    ensures o.failedAt.Some? ==> o.failedAt.value < n
    ensures sender !in o.delivered
  {
    if n == 0 then Outcome([], None)
    else
      var o := Sweep(s, sender, msg, sendOk, n - 1);
      if o.failedAt.Some? || !Receives(s, sender, n - 1) then o
      else if sendOk(s[n - 1].value.fd, msg) then Outcome(o.delivered + [s[n - 1].value.uid], None)
      else Outcome(o.delivered, Some(n - 1))
  }

  /** The outcomes of broadcasting each of msgs in turn from sender over the table s. */
  function Deliveries(s: Slots, sender: int, msgs: seq<seq<char>>, sendOk: (int, seq<char>) -> bool): (d: seq<Outcome>)
    ensures |d| == |msgs|
    ensures forall m :: 0 <= m < |msgs| ==> d[m] == Sweep(s, sender, msgs[m], sendOk, |s|)
  {
    if msgs == [] then []
    else [Sweep(s, sender, msgs[0], sendOk, |s|)] + Deliveries(s, sender, msgs[1..], sendOk)
  }

  /** Broadcasting a then b has the outcomes of a followed by those of b. */
  lemma DeliveriesAppend(s: Slots, sender: int, a: seq<seq<char>>, b: seq<seq<char>>, sendOk: (int, seq<char>) -> bool)
    ensures Deliveries(s, sender, a + b, sendOk) == Deliveries(s, sender, a, sendOk) + Deliveries(s, sender, b, sendOk)
  {
  }

  /**
   * What a broadcast achieves: with every send succeeding, each addressed
   * client gets the message once, in slot order; otherwise the loop stops
   * at the first addressed slot whose send fails, and exactly the clients
   * addressed before that slot got the message.
   */
  lemma {:induction false} SweepMeaning(s: Slots, sender: int, msg: seq<char>, sendOk: (int, seq<char>) -> bool, n: nat)
    requires n <= |s|
    ensures var o := Sweep(s, sender, msg, sendOk, n);
      (o.failedAt.None? <==> forall j :: 0 <= j < n && Receives(s, sender, j) ==> sendOk(s[j].value.fd, msg)) &&
      (o.failedAt.None? ==> o.delivered == Recipients(s, sender, n)) &&
      (o.failedAt.Some? ==>
         var k := o.failedAt.value;
         k < n && Receives(s, sender, k) && !sendOk(s[k].value.fd, msg) &&
         (forall j :: 0 <= j < k && Receives(s, sender, j) ==> sendOk(s[j].value.fd, msg)) &&
         o.delivered == Recipients(s, sender, k))
  {
    if n > 0 {
      SweepMeaning(s, sender, msg, sendOk, n - 1);
    }
  }

  /** Once a send has failed, later slots change nothing. */
  lemma {:induction false} SweepSettled(s: Slots, sender: int, msg: seq<char>, sendOk: (int, seq<char>) -> bool, m: nat, n: nat)
    requires m <= n <= |s|
    requires Sweep(s, sender, msg, sendOk, m).failedAt.Some?
    ensures Sweep(s, sender, msg, sendOk, n) == Sweep(s, sender, msg, sendOk, m)
  {
    if n > m {
      SweepSettled(s, sender, msg, sendOk, m, n - 1);
      var o := Sweep(s, sender, msg, sendOk, n - 1);
      assert o.failedAt.Some?;
      assert Sweep(s, sender, msg, sendOk, n) == o;
      assert o == Sweep(s, sender, msg, sendOk, m);
    }
  }

  /**
   * The sender never receives its own message, and with unique uids a
   * client in a slot at or after the failed one receives nothing.
   */
  lemma SweepSkipsSenderAndLaterSlots(s: Slots, sender: int, msg: seq<char>, sendOk: (int, seq<char>) -> bool)
    requires UniqueUids(s)
    ensures var o := Sweep(s, sender, msg, sendOk, |s|);
      sender !in o.delivered &&
      (o.failedAt.Some? ==> forall j :: o.failedAt.value <= j < |s| && s[j].Some? ==> s[j].value.uid !in o.delivered)
  {
    var o := Sweep(s, sender, msg, sendOk, |s|);
    SweepMeaning(s, sender, msg, sendOk, |s|);
    if o.failedAt.Some? {
      var k := o.failedAt.value;
      forall j | k <= j < |s| && s[j].Some? ensures s[j].value.uid !in o.delivered {
        var u := s[j].value.uid;
        RecipientsMembership(s, sender, k, u);
      }
    }
  }
}

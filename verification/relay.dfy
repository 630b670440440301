/**
 * The signaling relay as a deterministic state machine over the client table.
 * Each transport event is one atomic transition that returns the new table
 * and the sends it makes, in order. Which handles are open is supplied by the
 * transport as a set; the relay never changes it.
 */
module Relay {
  import opened Wrappers
  import opened Registry
  import opened RegistryFacts
  import opened Messages

  /**
   * A handler that throws: the table has no entry for the handle, so
   * `clients.get(ws)` is `undefined` and reading its `id` is a TypeError.
   */
  datatype Fault = UnknownSender(h: Handle) | UnknownClosing(h: Handle)

  /** The outcome of one event: the new table and the sends, in the order they are made. */
  datatype Step = Step(registry: Table, sends: seq<Send>)

  /** No two entries share an identifier. The relay never checks this. */
  ghost predicate IdsUnique(reg: Table) {
    forall i, j :: 0 <= i < j < |reg| ==> reg[i].id != reg[j].id
  }

  /**
   * Sends a payload to every handle of the table, in table order, other than
   * `exclude` and those that are not open.
   */
  function Broadcast(reg: Table, open: set<Handle>, exclude: Handle, p: Payload): (r: seq<Send>)
    ensures forall s :: s in r ==>
      s.payload == p && s.to in Handles(reg) && s.to != exclude && s.to in open
    ensures forall k :: k in Handles(reg) && k != exclude && k in open ==> Send(k, p) in r
    ensures Wf(reg) ==> forall i, j :: 0 <= i < j < |r| ==> r[i].to != r[j].to
  {
    if |reg| == 0 then []
    else
      var head := if reg[0].handle != exclude && reg[0].handle in open then [Send(reg[0].handle, p)] else [];
      var tail := Broadcast(reg[1..], open, exclude, p);
      HandlesCons(reg);
      head + tail
  }

  /**
   * The connection handler. The new handle is put in the table first; the
   * newcomer is then sent `init` with the ids of the table that differ from its
   * own id, and every other open handle of the table is sent `new-peer`
   * (see `ConnectAnnounces`).
   */
  function Connect(reg: Table, open: set<Handle>, h: Handle, id: Id): (r: Step)
    ensures h !in Handles(reg) ==> r.registry == reg + [Entry(h, id)]
    ensures Lookup(r.registry, h) == Some(id)
    ensures forall k :: k != h ==> Lookup(r.registry, k) == Lookup(reg, k)
    ensures Wf(reg) ==> Wf(r.registry)
    ensures |r.sends| >= 1 && r.sends[0].to == h && r.sends[0].payload.Init?
    ensures r.sends[0].payload.id == id
    ensures id !in r.sends[0].payload.otherClientIds
    ensures h !in Handles(reg) ==> r.sends[0].payload.otherClientIds == IdsOtherThan(reg, id)
  {
    var reg' := Set(reg, h, id);
    assert h !in Handles(reg) ==> IdsOtherThan(reg', id) == IdsOtherThan(reg, id) by {
      if h !in Handles(reg) { IdsOtherThanAppend(reg, Entry(h, id), id); }
    }
    Step(reg', [Send(h, Init(id, IdsOtherThan(reg', id)))] + Broadcast(reg', open, h, NewPeer(id)))
  }

  /**
   * Apart from the newcomer's own id, which it never holds, the `init` list
   * holds every id of the new table as often as the table does.
   */
  lemma ConnectInitCounts(reg: Table, open: set<Handle>, h: Handle, id: Id)
    ensures var r := Connect(reg, open, h, id);
      forall x :: x != id ==> multiset(r.sends[0].payload.otherClientIds)[x] == multiset(Ids(r.registry))[x]
  {
  }

  /**
   * After `init`, the connection handler sends `new-peer` with the new id to
   * each open handle that was in the table before, other than the newcomer,
   * once each, and sends nothing else.
   */
  lemma ConnectAnnounces(reg: Table, open: set<Handle>, h: Handle, id: Id)
    ensures var peers := Connect(reg, open, h, id).sends[1..];
      && (forall s :: s in peers ==>
            s.payload == NewPeer(id) && s.to in Handles(reg) && s.to != h && s.to in open)
      && (forall k :: k in Handles(reg) && k != h && k in open ==> Send(k, NewPeer(id)) in peers)
      && (Wf(reg) ==> forall i, j :: 0 <= i < j < |peers| ==> peers[i].to != peers[j].to)
  {
    var reg' := Set(reg, h, id);
    var init := Send(h, Init(id, IdsOtherThan(reg', id)));
    var peers := Broadcast(reg', open, h, NewPeer(id));
    assert ([init] + peers)[1..] == peers;
  }

  /**
   * The handle a message is delivered to: the first entry of the table, in
   * insertion order, whose id equals the message's target.
   */
  function Recipient(reg: Table, msg: Message): (r: Option<Handle>)
    ensures Target(msg).None? ==> r.None?
    ensures Target(msg).Some? && r.None? ==> forall i :: 0 <= i < |reg| ==> reg[i].id != Target(msg).value
    ensures r.Some? ==> Target(msg).Some? &&
                        exists i :: 0 <= i < |reg| && reg[i] == Entry(r.value, Target(msg).value) &&
                                    forall j :: 0 <= j < i ==> reg[j].id != Target(msg).value
  {
    match Target(msg)
    case None => None
    case Some(t) =>
      match FindFirst(reg, ById(t))
      case None => None
      case Some(i) => Some(reg[i].handle)
  }

  /**
   * The message handler of handle `h`. A message whose recipient is missing
   * or not open is dropped; otherwise it is forwarded, stamped with the
   * sender's id, to the recipient alone. The table never changes.
   */
  function Route(reg: Table, open: set<Handle>, h: Handle, msg: Message): (r: Result<Step, Fault>)
    ensures r.Success? ==> r.value.registry == reg
    ensures var k := Recipient(reg, msg);
      k.None? || k.value !in open ==> r == Success(Step(reg, []))
    ensures var k := Recipient(reg, msg);
      r.Failure? <==> k.Some? && k.value in open && h !in Handles(reg)
    ensures r.Failure? ==> r.error == UnknownSender(h)
    ensures var k := Recipient(reg, msg);
      k.Some? && k.value in open && h in Handles(reg) ==>
        && r.Success?
        && |r.value.sends| == 1
        && r.value.sends[0].to == k.value
        && r.value.sends[0].payload.Relayed?
        && r.value.sends[0].payload.message.Keys == msg.Keys + {"sender"}
        && r.value.sends[0].payload.message["sender"] == JString(Lookup(reg, h).value)
        && Entry(h, Lookup(reg, h).value) in reg
        && forall f :: f in msg && f != "sender" ==> r.value.sends[0].payload.message[f] == msg[f]
  {
    match Recipient(reg, msg)
    case None => Success(Step(reg, []))
    case Some(k) =>
      if k !in open then Success(Step(reg, []))
      else match Lookup(reg, h)
        case None => Failure(UnknownSender(h))
        case Some(s) => Success(Step(reg, [Send(k, Relayed(WithSender(msg, s)))]))
  }

  /**
   * The close handler of handle `h`: its entry leaves the table, the other
   * entries keep their order, and no one is told.
   */
  function Disconnect(reg: Table, h: Handle): (r: Result<Step, Fault>)
    ensures r.Failure? <==> h !in Handles(reg)
    ensures r.Failure? ==> r.error == UnknownClosing(h)
    ensures r.Success? ==> r.value.sends == []
    ensures r.Success? ==> exists i :: 0 <= i < |reg| && reg[i].handle == h &&
                                       r.value.registry == reg[..i] + reg[i + 1..]
    ensures r.Success? ==> forall k :: k != h ==> Lookup(r.value.registry, k) == Lookup(reg, k)
    ensures r.Success? && Wf(reg) ==>
      Wf(r.value.registry) && Handles(r.value.registry) == Handles(reg) - {h}
  {
    if h !in Handles(reg) then Failure(UnknownClosing(h))
    else Success(Step(Delete(reg, h), []))
  }

  /** Closing a connection that was just opened restores the table and sends nothing. */
  lemma ConnectThenDisconnect(reg: Table, open: set<Handle>, h: Handle, id: Id)
    requires h !in Handles(reg)
    ensures Disconnect(Connect(reg, open, h, id).registry, h) == Success(Step(reg, []))
  {
    DeleteUndoesSet(reg, h, id);
  }

  /**
   * When no two clients share an id, a message addressed to a connected, open
   * client reaches exactly that client, stamped with the sender's id.
   */
  lemma DeliveredToAddressee(reg: Table, open: set<Handle>, h: Handle, s: Id, k: Handle, t: Id, msg: Message)
    requires Wf(reg) && IdsUnique(reg)
    requires Entry(h, s) in reg && Entry(k, t) in reg && k in open
    requires Target(msg) == Some(t)
    ensures Route(reg, open, h, msg) == Success(Step(reg, [Send(k, Relayed(WithSender(msg, s)))]))
  {
    var a :| 0 <= a < |reg| && reg[a] == Entry(k, t);
    var b :| 0 <= b < |reg| && reg[b] == Entry(h, s);
    assert t in Ids(reg) by { assert Ids(reg)[a] == t; }
    var r := Recipient(reg, msg);
    var i :| 0 <= i < |reg| && reg[i] == Entry(r.value, t) &&
             forall j :: 0 <= j < i ==> reg[j].id != t;
    assert i == a;
    assert Lookup(reg, h) == Some(s);
  }

  /**
   * A client whose id was already held by an earlier entry of the table is
   * never sent a relayed message: the scan always stops at the earlier entry.
   */
  lemma ShadowedClientUnreachable(reg: Table, open: set<Handle>, h: Handle, msg: Message, i: nat, j: nat)
    requires Wf(reg) && i < j < |reg| && reg[i].id == reg[j].id
    ensures Recipient(reg, msg) != Some(reg[j].handle)
    ensures Route(reg, open, h, msg).Success? ==>
      forall s :: s in Route(reg, open, h, msg).value.sends ==> s.to != reg[j].handle
  {
    var r := Recipient(reg, msg);
    if r.Some? {
      var t := Target(msg).value;
      var a :| 0 <= a < |reg| && reg[a] == Entry(r.value, t) &&
               forall b :: 0 <= b < a ==> reg[b].id != t;
    }
  }

  /**
   * When no client already holds the newcomer's id, `init` lists the ids of
   * every client in the table before it, in connection order.
   */
  lemma InitListsEarlierClients(reg: Table, open: set<Handle>, h: Handle, id: Id)
    requires h !in Handles(reg) && id !in Ids(reg)
    ensures Connect(reg, open, h, id).sends[0].payload.otherClientIds == Ids(reg)
  {
    assert forall i :: 0 <= i < |reg| ==> reg[i].id != id by {
      forall i | 0 <= i < |reg| ensures reg[i].id != id { assert Ids(reg)[i] == reg[i].id; }
    }
  }

  /** An id that no client in the table holds is never offered to a newcomer. */
  lemma InitOmitsAbsentId(reg: Table, open: set<Handle>, h: Handle, id: Id, x: Id)
    requires x !in Ids(reg)
    ensures x !in Connect(reg, open, h, id).sends[0].payload.otherClientIds
  {
    var st := Connect(reg, open, h, id);
    ConnectInitCounts(reg, open, h, id);
    if x != id {
      IdsMember(reg, x);
      IdsMember(st.registry, x);
      assert x !in Ids(st.registry);
      assert multiset(Ids(st.registry))[x] == 0;
    }
  }

  /**
   * When no two clients share an id, the id of a client that has disconnected
   * is gone from the table, so no later newcomer is told of it.
   */
  lemma DepartedIdForgotten(reg: Table, h: Handle, x: Id)
    requires Wf(reg) && IdsUnique(reg) && Entry(h, x) in reg
    ensures Disconnect(reg, h).Success?
    ensures x !in Ids(Disconnect(reg, h).value.registry)
  {
    var a :| 0 <= a < |reg| && reg[a] == Entry(h, x);
    assert h in Handles(reg);
    var after := Disconnect(reg, h).value.registry;
    var i :| 0 <= i < |reg| && reg[i].handle == h && after == reg[..i] + reg[i + 1..];
    assert i == a;
    assert forall j :: 0 <= j < |after| ==> after[j] == (if j < i then reg[j] else reg[j + 1]);
    IdsMember(after, x);
  }

  /**
   * Identifiers are not checked for uniqueness: a second connection that
   * draws an id already in use is admitted next to the first.
   */
  lemma DuplicateIdsAdmitted()
    ensures Connect([], {}, 1, "a").registry == [Entry(1, "a")]
    ensures Connect([Entry(1, "a")], {1}, 2, "a").registry == [Entry(1, "a"), Entry(2, "a")]
  {
    assert FindFirst([], ByHandle(1)) == None;
    assert FindFirst([Entry(1, "a")], ByHandle(2)) == None;
  }

  /**
   * The second holder of an id is told of no one, although the first holder
   * is connected, and the first holder is told of the second.
   */
  lemma DuplicateIdHidesPeer()
    ensures Connect([Entry(1, "a")], {1}, 2, "a").sends == [Send(2, Init("a", [])), Send(1, NewPeer("a"))]
  {
    var reg := [Entry(1, "a"), Entry(2, "a")];
    assert FindFirst([Entry(1, "a")], ByHandle(2)) == None;
    assert Set([Entry(1, "a")], 2, "a") == reg;
    IdsOtherThanAppend([Entry(1, "a")], Entry(2, "a"), "a");
    assert IdsOtherThan([Entry(1, "a")], "a") == [];
    assert Broadcast(reg[1..], {1}, 2, NewPeer("a")) == [];
    assert Broadcast(reg, {1}, 2, NewPeer("a")) == [Send(1, NewPeer("a"))];
  }

  /** With two clients holding the same id, a message for that id reaches only the first. */
  lemma DuplicateIdRoutesToFirst()
    ensures var reg := [Entry(1, "a"), Entry(2, "a")];
      Route(reg, {1, 2}, 2, map["target" := JString("a")]) ==
      Success(Step(reg, [Send(1, Relayed(map["target" := JString("a"), "sender" := JString("a")]))]))
  {
    var reg := [Entry(1, "a"), Entry(2, "a")];
    var msg := map["target" := JString("a")];
    assert Target(msg) == Some("a");
    assert Recipient(reg, msg) == Some(1);
    assert Lookup(reg, 2) == Some("a");
    assert WithSender(msg, "a") == map["target" := JString("a"), "sender" := JString("a")];
  }

  /** A transport event, as the relay's handlers receive it. */
  datatype Event =
    | Connection(h: Handle, id: Id)     // a connection completes, with the id drawn for it
    | Incoming(h: Handle, msg: Message) // a parsed message arrives on a connection
    | Closed(h: Handle)                 // a connection closes

  /** An event together with the handles that are open when it is handled. */
  datatype Tick = Tick(open: set<Handle>, event: Event)

  /** Handles one event. */
  function Apply(reg: Table, t: Tick): (r: Result<Step, Fault>)
    ensures t.event.Connection? ==> r.Success?
    ensures t.event.Incoming? ==> (r.Success? ==> r.value.registry == reg)
    ensures t.event.Closed? ==> (r.Success? <==> t.event.h in Handles(reg))
    ensures r.Success? && Wf(reg) ==> Wf(r.value.registry)
    ensures r.Success? ==> forall e :: e in r.value.registry ==>
      e in reg || t.event == Connection(e.handle, e.id)
  {
    match t.event
    case Connection(h, id) => Success(Connect(reg, t.open, h, id))
    case Incoming(h, msg) => Route(reg, t.open, h, msg)
    case Closed(h) => Disconnect(reg, h)
  }

  /**
   * Handles events in order. A handler that throws ends the run: the
   * exception is uncaught and takes the process down.
   */
  function Run(reg: Table, ticks: seq<Tick>): (r: Result<Step, Fault>)
    ensures r.Success? && Wf(reg) ==> Wf(r.value.registry)
    ensures r.Success? ==> forall e :: e in r.value.registry ==>
      e in reg || exists t :: t in ticks && t.event == Connection(e.handle, e.id)
    ensures (forall t :: t in ticks ==> t.event.Connection?) ==> r.Success?
    decreases |ticks|
  {
    if |ticks| == 0 then Success(Step(reg, []))
    else match Apply(reg, ticks[0])
      case Failure(e) => Failure(e)
      case Success(first) =>
        match Run(first.registry, ticks[1..])
        case Failure(e) => Failure(e)
        case Success(rest) => Success(Step(rest.registry, first.sends + rest.sends))
  }
}

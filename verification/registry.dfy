/**
 * The relay's client table: a JavaScript `Map` from connection handle to
 * client metadata. A `Map` iterates in insertion order and the relay's
 * scans take the first match, so the table is modelled as a sequence of
 * entries in insertion order rather than as a Dafny `map`.
 */
module Registry {
  import opened Wrappers

  /** A connection handle. The relay only ever compares handles for identity. */
  type Handle = nat

  /** A client identifier, as produced on connection. */
  type Id = string

  /** One client: its connection handle and its metadata `{ id }`. */
  datatype Entry = Entry(handle: Handle, id: Id)

  /** The client table: its entries in insertion order, the order a `Map` iterates in. */
  type Table = seq<Entry>

  /** The two keys the relay searches the table by. */
  datatype Key = ByHandle(h: Handle) | ById(t: Id)

  predicate Matches(e: Entry, key: Key) {
    match key
    case ByHandle(h) => e.handle == h
    case ById(t) => e.id == t
  }

  /** The handles present in the table. */
  function Handles(reg: Table): set<Handle> {
    set i | 0 <= i < |reg| :: reg[i].handle
  }

  /** The identifiers of the table, in insertion order. */
  function Ids(reg: Table): (r: seq<Id>)
    ensures |r| == |reg|
    ensures forall i :: 0 <= i < |reg| ==> r[i] == reg[i].id
  {
    if |reg| == 0 then [] else [reg[0].id] + Ids(reg[1..])
  }

  /** A `Map` holds each key at most once: no handle appears twice. */
  ghost predicate Wf(reg: Table) {
    forall i, j :: 0 <= i < j < |reg| ==> reg[i].handle != reg[j].handle
  }

  /** `r` is the position of the first entry matching `key`, or None when nothing matches. */
  ghost predicate IsFirst(reg: Table, key: Key, r: Option<nat>) {
    match r
    case None => forall j :: 0 <= j < |reg| ==> !Matches(reg[j], key)
    case Some(i) => i < |reg| && Matches(reg[i], key) && forall j :: 0 <= j < i ==> !Matches(reg[j], key)
  }

  /** At most one position is the first match. */
  lemma FirstUnique(reg: Table, key: Key, a: Option<nat>, b: Option<nat>)
    requires IsFirst(reg, key, a) && IsFirst(reg, key, b)
    ensures a == b
  {
  }

  /**
   * The linear scan of the table in iteration order that stops at the first
   * entry matching `key`.
   */
  function FindFirst(reg: Table, key: Key): (r: Option<nat>)
    ensures IsFirst(reg, key, r)
  {
    if |reg| == 0 then None
    else if Matches(reg[0], key) then Some(0)
    else match FindFirst(reg[1..], key)
      case None => None
      case Some(i) => Some(i + 1)
  }

  lemma HandlesAppend(reg: Table, e: Entry)
    ensures Handles(reg + [e]) == Handles(reg) + {e.handle}
  {
    var r := reg + [e];
    forall k | k in Handles(r) ensures k in Handles(reg) + {e.handle} {
      var i :| 0 <= i < |r| && r[i].handle == k;
      if i < |reg| { assert reg[i].handle == k; }
    }
    forall k | k in Handles(reg) ensures k in Handles(r) {
      var i :| 0 <= i < |reg| && reg[i].handle == k;
      assert r[i].handle == k;
    }
    assert r[|reg|].handle == e.handle;
  }

  lemma HandlesUpdate(reg: Table, i: nat, e: Entry)
    requires i < |reg| && reg[i].handle == e.handle
    ensures Handles(reg[i := e]) == Handles(reg)
  {
    var r := reg[i := e];
    forall k | k in Handles(r) ensures k in Handles(reg) {
      var j :| 0 <= j < |r| && r[j].handle == k;
      assert reg[j].handle == k;
    }
    forall k | k in Handles(reg) ensures k in Handles(r) {
      var j :| 0 <= j < |reg| && reg[j].handle == k;
      assert r[j].handle == k;
    }
  }

  lemma HandlesRemove(reg: Table, i: nat)
    requires i < |reg|
    ensures Wf(reg) ==> Wf(reg[..i] + reg[i + 1..])
    ensures Wf(reg) ==> Handles(reg[..i] + reg[i + 1..]) == Handles(reg) - {reg[i].handle}
  {
    var r := reg[..i] + reg[i + 1..];
    assert forall j :: 0 <= j < |r| ==> r[j] == (if j < i then reg[j] else reg[j + 1]);
    if Wf(reg) {
      forall k | k in Handles(r) ensures k in Handles(reg) - {reg[i].handle} {
        var j :| 0 <= j < |r| && r[j].handle == k;
        if j < i { assert reg[j].handle == k; } else { assert reg[j + 1].handle == k; }
      }
      forall k | k in Handles(reg) - {reg[i].handle} ensures k in Handles(r) {
        var j :| 0 <= j < |reg| && reg[j].handle == k;
        if j < i { assert r[j].handle == k; } else { assert r[j - 1].handle == k; }
      }
    }
  }

  /** Appending an entry never moves an existing first match. */
  lemma FindAppend(reg: Table, e: Entry, key: Key)
    ensures FindFirst(reg + [e], key) ==
      (if FindFirst(reg, key).Some? then FindFirst(reg, key)
       else if Matches(e, key) then Some(|reg|) else None)
  {
    var r := reg + [e];
    var a := FindFirst(reg, key);
    var b := if a.Some? then a else if Matches(e, key) then Some(|reg|) else None;
    assert forall j :: 0 <= j < |reg| ==> r[j] == reg[j];
    assert r[|reg|] == e;
    assert IsFirst(r, key, b);
    FirstUnique(r, key, FindFirst(r, key), b);
  }

  /** Replacing an entry by one that matches `key` exactly when it did leaves the first match in place. */
  lemma FindUpdate(reg: Table, i: nat, e: Entry, key: Key)
    requires i < |reg| && (Matches(reg[i], key) <==> Matches(e, key))
    ensures FindFirst(reg[i := e], key) == FindFirst(reg, key)
  {
    var r := reg[i := e];
    var a := FindFirst(reg, key);
    assert forall j :: 0 <= j < |reg| ==> (Matches(r[j], key) <==> Matches(reg[j], key));
    assert IsFirst(r, key, a);
    FirstUnique(r, key, FindFirst(r, key), a);
  }

  /** Removing an entry that does not match `key` shifts the first match past it down by one. */
  lemma FindRemove(reg: Table, i: nat, key: Key)
    requires i < |reg| && !Matches(reg[i], key)
    ensures FindFirst(reg[..i] + reg[i + 1..], key) ==
      (match FindFirst(reg, key)
       case None => None
       case Some(a) => if a < i then Some(a) else Some(a - 1))
  {
    var r := reg[..i] + reg[i + 1..];
    assert forall j :: 0 <= j < |r| ==> r[j] == (if j < i then reg[j] else reg[j + 1]);
    var a := FindFirst(reg, key);
    var b := match a case None => None case Some(a) => if a < i then Some(a) else Some(a - 1);
    if a.Some? && a.value > i {
      assert r[a.value - 1] == reg[a.value];
    }
    assert IsFirst(r, key, b);
    FirstUnique(r, key, FindFirst(r, key), b);
  }

  /** `clients.get(h)`: the id stored for a handle, None (`undefined`) when the handle is absent. */
  function Lookup(reg: Table, h: Handle): (r: Option<Id>)
    ensures r.None? <==> h !in Handles(reg)
    ensures r.Some? ==> Entry(h, r.value) in reg
    ensures Wf(reg) ==> forall i :: 0 <= i < |reg| && reg[i].handle == h ==> r == Some(reg[i].id)
  {
    match FindFirst(reg, ByHandle(h))
    case None => None
    case Some(i) => Some(reg[i].id)
  }

  lemma LookupAppend(reg: Table, e: Entry)
    requires e.handle !in Handles(reg)
    ensures Lookup(reg + [e], e.handle) == Some(e.id)
    ensures forall k :: k != e.handle ==> Lookup(reg + [e], k) == Lookup(reg, k)
  {
    FindAppend(reg, e, ByHandle(e.handle));
    forall k | k != e.handle ensures Lookup(reg + [e], k) == Lookup(reg, k) {
      FindAppend(reg, e, ByHandle(k));
    }
  }

  lemma LookupUpdate(reg: Table, i: nat, e: Entry)
    requires FindFirst(reg, ByHandle(e.handle)) == Some(i)
    ensures Lookup(reg[i := e], e.handle) == Some(e.id)
    ensures forall k :: k != e.handle ==> Lookup(reg[i := e], k) == Lookup(reg, k)
  {
    FindUpdate(reg, i, e, ByHandle(e.handle));
    forall k | k != e.handle ensures Lookup(reg[i := e], k) == Lookup(reg, k) {
      FindUpdate(reg, i, e, ByHandle(k));
    }
  }

  lemma LookupRemove(reg: Table, i: nat, k: Handle)
    requires i < |reg| && k != reg[i].handle
    ensures Lookup(reg[..i] + reg[i + 1..], k) == Lookup(reg, k)
  {
    var r := reg[..i] + reg[i + 1..];
    FindRemove(reg, i, ByHandle(k));
    var a := FindFirst(reg, ByHandle(k));
    if a.Some? {
      if a.value < i { assert r[a.value] == reg[a.value]; }
      else { assert r[a.value - 1] == reg[a.value]; }
    }
  }

  /**
   * `clients.set(h, { id })`: a new handle is appended at the end of the
   * iteration order; an existing handle keeps its position and gets the new id.
   */
  function Set(reg: Table, h: Handle, id: Id): (r: Table)
    ensures h !in Handles(reg) ==> r == reg + [Entry(h, id)]
    ensures h in Handles(reg) ==>
      exists i :: 0 <= i < |reg| && reg[i].handle == h && r == reg[i := Entry(h, id)]
    ensures Handles(r) == Handles(reg) + {h}
    ensures forall e :: e in r ==> e in reg || e == Entry(h, id)
    ensures Lookup(r, h) == Some(id)
    ensures forall k :: k != h ==> Lookup(r, k) == Lookup(reg, k)
    ensures Wf(reg) ==> Wf(r)
  {
    var e := Entry(h, id);
    match FindFirst(reg, ByHandle(h))
    case None =>
      HandlesAppend(reg, e);
      LookupAppend(reg, e);
      reg + [e]
    case Some(i) =>
      HandlesUpdate(reg, i, e);
      LookupUpdate(reg, i, e);
      reg[i := e]
  }

  /**
   * `clients.delete(h)`: the entry for the handle is removed and the others
   * keep their order; an absent handle leaves the table as it is.
   */
  function Delete(reg: Table, h: Handle): (r: Table)
    ensures h !in Handles(reg) ==> r == reg
    ensures h in Handles(reg) ==>
      exists i :: 0 <= i < |reg| && reg[i].handle == h && r == reg[..i] + reg[i + 1..]
    ensures forall e :: e in r ==> e in reg
    ensures forall k :: k != h ==> Lookup(r, k) == Lookup(reg, k)
    ensures Wf(reg) ==> Wf(r) && Handles(r) == Handles(reg) - {h}
  {
    match FindFirst(reg, ByHandle(h))
    case None => reg
    case Some(i) =>
      assert forall k :: k != h ==> Lookup(reg[..i] + reg[i + 1..], k) == Lookup(reg, k) by {
        forall k | k != h { LookupRemove(reg, i, k); }
      }
      HandlesRemove(reg, i);
      reg[..i] + reg[i + 1..]
  }

  /**
   * Deleting a handle that was just inserted gives back the table as it was
   * before the insertion.
   */
  lemma DeleteUndoesSet(reg: Table, h: Handle, id: Id)
    requires h !in Handles(reg)
    ensures Delete(Set(reg, h, id), h) == reg
  {
  }

  /**
   * The identifiers of the table, in insertion order, with every occurrence
   * of `id` filtered out. The filter compares values, so another client that
   * happens to hold the same id is left out as well.
   */
  function IdsOtherThan(reg: Table, id: Id): (r: seq<Id>)
    ensures id !in r
    ensures forall x :: x != id ==> multiset(r)[x] == multiset(Ids(reg))[x]
    ensures (forall i :: 0 <= i < |reg| ==> reg[i].id != id) ==> r == Ids(reg)
  {
    if |reg| == 0 then []
    else
      var head := if reg[0].id != id then [reg[0].id] else [];
      var tail := IdsOtherThan(reg[1..], id);
      assert Ids(reg) == [reg[0].id] + Ids(reg[1..]);
      assert multiset(Ids(reg)) == multiset{reg[0].id} + multiset(Ids(reg[1..]));
      assert multiset(head + tail) == multiset(head) + multiset(tail);
      assert (forall i :: 0 <= i < |reg| ==> reg[i].id != id) ==>
        forall i :: 0 <= i < |reg[1..]| ==> reg[1..][i].id != id by {
        forall i | 0 <= i < |reg[1..]| ensures reg[1..][i] == reg[i + 1] { }
      }
      head + tail
  }

  /** Filtering distributes over appending one entry. */
  lemma {:induction false} IdsOtherThanAppend(reg: Table, e: Entry, id: Id)
    ensures IdsOtherThan(reg + [e], id) ==
            IdsOtherThan(reg, id) + (if e.id != id then [e.id] else [])
  {
    if |reg| == 0 {
      assert reg + [e] == [e];
    } else {
      assert (reg + [e])[1..] == reg[1..] + [e];
      IdsOtherThanAppend(reg[1..], e, id);
    }
  }
}

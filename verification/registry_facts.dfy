/**
 * Facts about a table's handle set and id list that the relay's proofs use:
 * how they split at the first entry, and when an id occurs.
 */
module RegistryFacts {
  import opened Registry

  /** Splitting off the first entry of a table. */
  lemma HandlesCons(reg: Table)
    requires |reg| > 0
    ensures Handles(reg) == {reg[0].handle} + Handles(reg[1..])
    ensures Wf(reg) ==> Wf(reg[1..]) && reg[0].handle !in Handles(reg[1..])
  {
    var t := reg[1..];
    forall k | k in Handles(reg) ensures k in {reg[0].handle} + Handles(t) {
      var i :| 0 <= i < |reg| && reg[i].handle == k;
      if i > 0 { assert t[i - 1].handle == k; }
    }
    forall k | k in Handles(t) ensures k in Handles(reg) {
      var i :| 0 <= i < |t| && t[i].handle == k;
      assert reg[i + 1].handle == k;
    }
    assert reg[0].handle in Handles(reg);
  }

  /** An id occurs in the id list exactly when some entry holds it. */
  lemma IdsMember(reg: Table, x: Id)
    ensures x in Ids(reg) <==> exists e :: e in reg && e.id == x
  {
    if x in Ids(reg) {
      var j :| 0 <= j < |reg| && Ids(reg)[j] == x;
      assert reg[j] in reg;
    }
    if exists e :: e in reg && e.id == x {
      var e :| e in reg && e.id == x;
      var j :| 0 <= j < |reg| && reg[j] == e;
      assert Ids(reg)[j] == x;
    }
  }
}

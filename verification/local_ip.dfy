/**
 * The address the relay advertises at startup: the first external IPv4
 * address among the host's network interfaces, or "localhost" when there is
 * none. The interface table is an input here rather than a system call.
 */
module LocalIp {
  import opened Wrappers

  /** One address entry of an interface: its family, whether it is internal, and the address. */
  datatype Iface = Iface(family: string, internal: bool, address: string)

  /** `os.networkInterfaces()`: interface names in key order, each with its address entries. */
  type Interfaces = seq<(string, seq<Iface>)>

  const Fallback: string := "localhost"

  /** An entry the relay would advertise: an IPv4 address that is not internal. */
  predicate Usable(a: Iface) {
    a.family == "IPv4" && !a.internal
  }

  /** No entry of any interface is usable. */
  ghost predicate NoneUsable(ifs: Interfaces) {
    forall m, j :: 0 <= m < |ifs| && 0 <= j < |ifs[m].1| ==> !Usable(ifs[m].1[j])
  }

  /**
   * Entry `k` of interface `n` is usable and is the first usable one in scan
   * order: interfaces in order, and each interface's entries in order.
   */
  ghost predicate FirstUsableAt(ifs: Interfaces, n: nat, k: nat) {
    && n < |ifs| && k < |ifs[n].1| && Usable(ifs[n].1[k])
    && NoneUsable(ifs[..n])
    && forall j :: 0 <= j < k ==> !Usable(ifs[n].1[j])
  }

  /** The address `getLocalIp` settles on, stated without reference to how it scans. */
  ghost predicate Selects(ifs: Interfaces, ip: string) {
    && (NoneUsable(ifs) ==> ip == Fallback)
    && (!NoneUsable(ifs) ==> exists n: nat, k: nat :: FirstUsableAt(ifs, n, k) && ifs[n].1[k].address == ip)
  }

  /** Scan order has a single first usable entry. */
  lemma FirstUsableUnique(ifs: Interfaces, n: nat, k: nat, n': nat, k': nat)
    requires FirstUsableAt(ifs, n, k) && FirstUsableAt(ifs, n', k')
    ensures n == n' && k == k'
  {
  }

  /** Exactly one address satisfies `Selects`. */
  lemma SelectsUnique(ifs: Interfaces, a: string, b: string)
    requires Selects(ifs, a) && Selects(ifs, b)
    ensures a == b
  {
    if !NoneUsable(ifs) {
      var n: nat, k: nat :| FirstUsableAt(ifs, n, k) && ifs[n].1[k].address == a;
      var n': nat, k': nat :| FirstUsableAt(ifs, n', k') && ifs[n'].1[k'].address == b;
      FirstUsableUnique(ifs, n, k, n', k');
    }
  }

  /**
   * The position of the first usable entry of one interface. This has the
   * same shape as the table's first-match scan, `Registry.FindFirst`, but
   * scans a different element type under a different test. The two are kept
   * as separate definitions so each module's contract names its own
   * predicate, and neither needs a function-valued parameter.
   */
  function FirstUsable(list: seq<Iface>): (r: Option<nat>)
    ensures r.None? ==> forall j :: 0 <= j < |list| ==> !Usable(list[j])
    ensures r.Some? ==> r.value < |list| && Usable(list[r.value]) &&
                        forall j :: 0 <= j < r.value ==> !Usable(list[j])
  {
    if |list| == 0 then None
    else if Usable(list[0]) then Some(0)
    else match FirstUsable(list[1..])
      case None => None
      case Some(j) => Some(j + 1)
  }

  /** A recursive reference definition of the selection rule. */
  function Select(ifs: Interfaces): (r: string)
    ensures Selects(ifs, r)
  {
    if |ifs| == 0 then Fallback
    else
      var rest := Select(ifs[1..]);
      SelectStep(ifs, rest);
      match FirstUsable(ifs[0].1)
      case Some(k) => ifs[0].1[k].address
      case None => rest
  }

  /** How the selection of a table relates to the selection of its tail. */
  lemma SelectStep(ifs: Interfaces, rest: string)
    requires |ifs| > 0 && Selects(ifs[1..], rest)
    ensures match FirstUsable(ifs[0].1)
      case Some(k) => Selects(ifs, ifs[0].1[k].address)
      case None => Selects(ifs, rest)
  {
    assert ifs[..0] == [];
    match FirstUsable(ifs[0].1)
    case Some(k) =>
      assert FirstUsableAt(ifs, 0, k);
    case None =>
      var t := ifs[1..];
      assert forall m :: 0 < m < |ifs| ==> ifs[m] == t[m - 1];
      if NoneUsable(ifs) {
        assert NoneUsable(t) by {
          forall m, j | 0 <= m < |t| && 0 <= j < |t[m].1| ensures !Usable(t[m].1[j]) {
            assert t[m] == ifs[m + 1];
          }
        }
      } else {
        assert !NoneUsable(t);
        var n: nat, k: nat :| FirstUsableAt(t, n, k) && t[n].1[k].address == rest;
        assert ifs[..n + 1] == [ifs[0]] + t[..n];
        assert FirstUsableAt(ifs, n + 1, k);
      }
  }

  /**
   * `getLocalIp`: scan the interfaces in key order and each interface's
   * entries in order, and return the address of the first IPv4 entry that is
   * not internal; "localhost" when the scan finds none.
   */
  method GetLocalIp(ifs: Interfaces) returns (ip: string)
    ensures NoneUsable(ifs) ==> ip == Fallback
    ensures !NoneUsable(ifs) ==> exists n: nat, k: nat :: FirstUsableAt(ifs, n, k) && ifs[n].1[k].address == ip
    ensures ip == Select(ifs)
  {
    var n := 0;
    while n < |ifs|
      invariant n <= |ifs|
      invariant NoneUsable(ifs[..n])
    {
      var list := ifs[n].1;
      var k := 0;
      while k < |list|
        invariant k <= |list|
        invariant forall j :: 0 <= j < k ==> !Usable(list[j])
      {
        if Usable(list[k]) {
          ip := list[k].address;
          assert FirstUsableAt(ifs, n, k);
          SelectsUnique(ifs, ip, Select(ifs));
          return;
        }
        k := k + 1;
      }
      assert ifs[..n + 1] == ifs[..n] + [ifs[n]];
      n := n + 1;
    }
    assert ifs[..n] == ifs;
    ip := Fallback;
    SelectsUnique(ifs, ip, Select(ifs));
  }
}

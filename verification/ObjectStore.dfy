/**
  Devices and endpoints: lists searched by an identifier, to whose front what is not found is added.
 */
module ObjectStore {

  type EndpointId = i: int | 0 <= i < 0x100
  type DeviceId = i: int | 0 <= i < 0x1_0000
  type Ieee = i: int | 0 <= i < 0x1_0000_0000_0000_0000

  ghost predicate NoRepeats<T(!new)>(ids: seq<T>) {
    forall i, j :: 0 <= i < j < |ids| ==> ids[i] != ids[j]
  }

  // --------------------------------------------------------------- associated devices

  datatype Assoc = Assoc(id: DeviceId, ieee: Ieee)

  // The position of the first device that a lookup finds, or the length of the list.
  function FindId(list: seq<Assoc>, i: DeviceId): (k: nat)
    ensures k <= |list|
    ensures forall j :: 0 <= j < k ==> list[j].id != i
    ensures k < |list| ==> list[k].id == i
  {
    if list == [] || list[0].id == i then 0 else 1 + FindId(list[1..], i)
  }

  function FindIeee(list: seq<Assoc>, a: Ieee): (k: nat)
    ensures k <= |list|
    ensures forall j :: 0 <= j < k ==> list[j].ieee != a
    ensures k < |list| ==> list[k].ieee == a
  {
    if list == [] || list[0].ieee == a then 0 else 1 + FindIeee(list[1..], a)
  }

  // The constructor of a device takes a 16-bit identifier: a longer argument is cut off, and becomes no address.
  function NewDevice(a: int): Assoc
    requires a >= 0
  {
    Assoc(a % 0x1_0000, 0)
  }

  /** assocs(uint16_t). */
  function ById(list: seq<Assoc>, i: DeviceId): seq<Assoc> {
    if FindId(list, i) < |list| then list else [NewDevice(i)] + list
  }

  // ieee_id of the device that a lookup by identifier returns.
  function WithIeee(list: seq<Assoc>, i: DeviceId, a: Ieee): seq<Assoc>
    requires FindId(list, i) < |list|
  {
    var k := FindId(list, i);
    list[k := list[k].(ieee := a)]
  }

  /** assocs(uint64_t). */
  function ByIeee(list: seq<Assoc>, a: Ieee): seq<Assoc> {
    if FindIeee(list, a) < |list| then list else [NewDevice(a)] + list
  }

  // The device that it returns.
  function FoundByIeee(list: seq<Assoc>, a: Ieee): Assoc {
    if FindIeee(list, a) < |list| then list[FindIeee(list, a)] else NewDevice(a)
  }

  // Device d stands in the list, and none in front of it has its identifier.
  ghost predicate IsFirstWithId(list: seq<Assoc>, d: Assoc) {
    exists k :: 0 <= k < |list| && list[k] == d && forall j :: 0 <= j < k ==> list[j].id != d.id
  }

  ghost predicate IsFirstWithIeee(list: seq<Assoc>, d: Assoc) {
    exists k :: 0 <= k < |list| && list[k] == d && forall j :: 0 <= j < k ==> list[j].ieee != d.ieee
  }

  /** removeAssoc. */
  function Without(list: seq<Assoc>, i: DeviceId): (r: seq<Assoc>)
    ensures forall d: Assoc :: d in r <==> d in list && d.id != i
  {
    if list == [] then [] else (if list[0].id == i then [] else [list[0]]) + Without(list[1..], i)
  }

  /** The removal goes through the list piece by piece: what is kept keeps its order and its number. */
  lemma {:induction false} WithoutPieces(a: seq<Assoc>, b: seq<Assoc>, i: DeviceId)
    ensures Without(a + b, i) == Without(a, i) + Without(b, i)
    ensures forall d: Assoc :: Without([d], i) == if d.id == i then [] else [d]
  {
    if a == [] {
      assert a + b == b;
    } else {
      assert (a + b)[0] == a[0] && (a + b)[1..] == a[1..] + b;
      WithoutPieces(a[1..], b, i);
    }
  }

  // The list as it will be, when the scan has come to position k.
  function Scanned(list: seq<Assoc>, k: nat, i: DeviceId): seq<Assoc>
    requires k <= |list|
  {
    list[..k] + Without(list[k..], i)
  }

  lemma ScanOne(list: seq<Assoc>, k: nat, i: DeviceId)
    requires k < |list|
    ensures list[k].id == i ==> Scanned(list[..k] + list[k + 1..], k, i) == Scanned(list, k, i)
    ensures list[k].id != i ==> Scanned(list, k + 1, i) == Scanned(list, k, i)
  {
    assert list[k..][0] == list[k] && list[k..][1..] == list[k + 1..];
    var r := list[..k] + list[k + 1..];
    assert r[..k] == list[..k] && r[k..] == list[k + 1..];
    assert list[..k + 1] == list[..k] + [list[k]];
  }

  /** What a leave request does to the list: it removes by the identifier of what the lookup returns. */
  function Leave(list: seq<Assoc>, a: Ieee): seq<Assoc> {
    Without(ByIeee(list, a), FoundByIeee(list, a).id)
  }

  ghost predicate UniqueIds(list: seq<Assoc>) {
    forall i, j :: 0 <= i < j < |list| ==> list[i].id != list[j].id
  }

  lemma ByIdKeeps(list: seq<Assoc>, i: DeviceId)
    requires UniqueIds(list)
    ensures UniqueIds(ById(list, i))
  {}

  /**
    A lookup by address keeps the identifiers unique exactly if it finds the address or no device has its low sixteen
    bits.
   */
  lemma ByIeeeKeepsIff(list: seq<Assoc>, a: Ieee)
    requires UniqueIds(list)
    ensures UniqueIds(ByIeee(list, a)) <==>
            (exists d :: d in list && d.ieee == a) || (forall d :: d in list ==> d.id != a % 0x1_0000)
  {
    var k := FindIeee(list, a);
    if k < |list| {
      assert list[k] in list;
    } else {
      var r := ByIeee(list, a);
      assert forall j :: 0 <= j < |list| ==> r[j + 1] == list[j];
      if d :| d in list && d.id == a % 0x1_0000 {
        var j :| 0 <= j < |list| && list[j] == d;
        assert r[0].id == r[j + 1].id;
      }
    }
  }

  /** It finds what it has created, instead of creating it again, exactly if the address was known or is zero. */
  lemma ByIeeeAgainIff(list: seq<Assoc>, a: Ieee)
    ensures ByIeee(ByIeee(list, a), a) == ByIeee(list, a) <==> (exists d :: d in list && d.ieee == a) || a == 0
  {
    var k, r := FindIeee(list, a), ByIeee(list, a);
    if k < |list| {
      assert list[k] in list;
    } else {
      assert r[1..] == list;
      assert FindIeee(r, a) == if a == 0 then 0 else |list| + 1;
      assert |ByIeee(r, a)| == if a == 0 then |r| else |r| + 1;
    }
  }

  /** A leave request for a known address removes that device and no other. */
  lemma LeaveKnown(list: seq<Assoc>, a: Ieee, d: Assoc)
    requires UniqueIds(list) && (exists x :: x in list && x.ieee == a)
    ensures d in Leave(list, a) <==> d in list && d != FoundByIeee(list, a)
    ensures FoundByIeee(list, a).ieee == a
  {
    var k := FindIeee(list, a);
    var x :| x in list && x.ieee == a;
    var at :| 0 <= at < |list| && list[at] == x;
    assert k <= at;
    if d in list && d.id == list[k].id {
      var j :| 0 <= j < |list| && list[j] == d;
      assert j == k;
    }
  }

  /** One for an unknown address removes the devices whose identifier is its low sixteen bits, if there are any. */
  lemma LeaveUnknown(list: seq<Assoc>, a: Ieee, d: Assoc)
    requires forall x :: x in list ==> x.ieee != a
    ensures d in Leave(list, a) <==> d in list && d.id != a % 0x1_0000
  {
    assert FindIeee(list, a) == |list|;
    assert ByIeee(list, a)[1..] == list;
    assert forall x: Assoc :: x in ByIeee(list, a) <==> x == NewDevice(a) || x in list;
  }

  // -------------------------------------------------------------------- endpoints

  /** The identifiers after a lookup. */
  function Looked(ids: seq<EndpointId>, i: EndpointId): seq<EndpointId> {
    if i in ids then ids else [i] + ids
  }

  // Looking up the first n identifiers of a list, in order.
  function LookedAll(ids: seq<EndpointId>, list: seq<EndpointId>, n: nat): seq<EndpointId>
    requires n <= |list|
  {
    if n == 0 then ids else Looked(LookedAll(ids, list, n - 1), list[n - 1])
  }

  // Identifier j is free, and no smaller one of the range is.
  ghost predicate SmallestFree(ids: seq<EndpointId>, j: EndpointId) {
    1 <= j < 240 && j !in ids && forall k: EndpointId :: 1 <= k < j ==> k in ids
  }

  /** What identifier a new endpoint gets for the one asked for. */
  ghost predicate NewIdentifier(ids: seq<EndpointId>, asked: EndpointId, given: EndpointId) {
    if asked !in ids then given == asked
    else SmallestFree(ids, given) || (given == 241 && forall k: EndpointId :: 1 <= k < 240 ==> k in ids)
  }

  class Endpoint {
    const id: EndpointId

    constructor (id: EndpointId)
      ensures this.id == id
    {
      this.id := id;
    }
  }

  function Ids(list: seq<Endpoint>): (ids: seq<EndpointId>)
    ensures |ids| == |list|
  {
    seq(|list|, i requires 0 <= i < |list| => list[i].id)
  }

  lemma IdsPrepend(e: Endpoint, list: seq<Endpoint>)
    ensures Ids([e] + list) == [e.id] + Ids(list)
  {}

  lemma InIds(list: seq<Endpoint>, e: Endpoint)
    requires e in list
    ensures e.id in Ids(list)
  {
    var k :| 0 <= k < |list| && list[k] == e;
    assert Ids(list)[k] == e.id;
  }

  class Device {
    var endpoints: seq<Endpoint>
    var assocs: seq<Assoc>

    constructor ()
      ensures endpoints == [] && assocs == []
    {
      endpoints, assocs := [], [];
    }

    /** assocs(uint16_t): find_if on the identifiers. */
    method AssocsById(i: DeviceId) returns (d: Assoc)
      modifies this`assocs
      ensures assocs == ById(old(assocs), i) && d in assocs && d.id == i
      ensures (exists x :: x in old(assocs) && x.id == i) ==> assocs == old(assocs) && IsFirstWithId(assocs, d)
      ensures (forall x :: x in old(assocs) ==> x.id != i) ==> d == Assoc(i, 0) && assocs == [d] + old(assocs)
    {
      var k := 0;
      while k < |assocs|
        invariant 0 <= k <= |assocs| && assocs == old(assocs)
        invariant forall j :: 0 <= j < k ==> assocs[j].id != i
      {
        if assocs[k].id == i { return assocs[k]; }
        k := k + 1;
      }
      d := NewDevice(i);
      assocs := [d] + assocs;
    }

    /** assocs(uint64_t): find_if on the addresses. */
    method AssocsByIeee(a: Ieee) returns (d: Assoc)
      modifies this`assocs
      ensures assocs == ByIeee(old(assocs), a) && d == FoundByIeee(old(assocs), a)
      ensures (exists x :: x in old(assocs) && x.ieee == a) ==> assocs == old(assocs) && IsFirstWithIeee(assocs, d)
      ensures (forall x :: x in old(assocs) ==> x.ieee != a) ==>
        d == Assoc(a % 0x1_0000, 0) && assocs == [d] + old(assocs)
    {
      var k := 0;
      while k < |assocs|
        invariant 0 <= k <= |assocs| && assocs == old(assocs)
        invariant forall j :: 0 <= j < k ==> assocs[j].ieee != a
      {
        if assocs[k].ieee == a { return assocs[k]; }
        k := k + 1;
      }
      d := NewDevice(a);
      assocs := [d] + assocs;
    }

    // ieee_id, on what a lookup by identifier returns.
    method SetIeee(i: DeviceId, a: Ieee)
      requires FindId(assocs, i) < |assocs|
      modifies this`assocs
      ensures assocs == WithIeee(old(assocs), i, a)
    {
      var k := FindId(assocs, i);
      assocs := assocs[k := assocs[k].(ieee := a)];
    }

    // remove_if
    method RemoveAssoc(i: DeviceId)
      modifies this`assocs
      ensures assocs == Without(old(assocs), i)
    {
      var k := 0;
      while k < |assocs|
        invariant 0 <= k <= |assocs|
        invariant Scanned(assocs, k, i) == Without(old(assocs), i)
        decreases |assocs| - k
      {
        ScanOne(assocs, k, i);
        if assocs[k].id == i {
          assocs := assocs[..k] + assocs[k + 1..];
        } else {
          k := k + 1;
        }
      }
    }

    /** The list operations of a leave request. */
    method MgmtLeave(a: Ieee)
      modifies this`assocs
      ensures assocs == Leave(old(assocs), a)
    {
      var d := AssocsByIeee(a);
      RemoveAssoc(d.id);
    }

    // exist
    method EndpointExist(i: EndpointId) returns (found: bool)
      ensures found <==> i in Ids(endpoints)
    {
      found := false;
      var k := 0;
      while k < |endpoints|
        invariant 0 <= k <= |endpoints|
        invariant forall j :: 0 <= j < k ==> Ids(endpoints)[j] != i
      {
        if endpoints[k].id == i {
          InIds(endpoints, endpoints[k]);
          return true;
        }
        k := k + 1;
      }
    }

    /**
      find_if: the endpoint with the identifier; the list changes only if there was none, and then by a new one in
      front.
     */
    method EndpointPtr(i: EndpointId) returns (e: Endpoint)
      modifies this`endpoints
      ensures e.id == i && e in endpoints
      ensures Ids(endpoints) == Looked(old(Ids(endpoints)), i)
      ensures i in old(Ids(endpoints)) ==> endpoints == old(endpoints)
      ensures i !in old(Ids(endpoints)) ==> fresh(e) && endpoints == [e] + old(endpoints)
    {
      var k := 0;
      while k < |endpoints|
        invariant 0 <= k <= |endpoints| && endpoints == old(endpoints)
        invariant forall j :: 0 <= j < k ==> Ids(endpoints)[j] != i
      {
        if endpoints[k].id == i {
          e := endpoints[k];
          InIds(endpoints, e);
          return;
        }
        k := k + 1;
      }
      e := new Endpoint(i);
      IdsPrepend(e, endpoints);
      endpoints := [e] + endpoints;
    }

    /** active_ep_req_apdu_process: a lookup for every identifier of the message, repeats included. */
    method ActiveEndpoints(list: seq<EndpointId>)
      modifies this`endpoints
      ensures Ids(endpoints) == LookedAll(old(Ids(endpoints)), list, |list|)
    {
      var pasdu := 0;
      while pasdu < |list|
        invariant 0 <= pasdu <= |list|
        invariant Ids(endpoints) == LookedAll(old(Ids(endpoints)), list, pasdu)
      {
        var _ := EndpointPtr(list[pasdu]);
        pasdu := pasdu + 1;
      }
    }

    /**
      newEndpoint: the identifier asked for if it is free, else the smallest free one of 1 to 239, else 241, which may
      not be new.
     */
    method NewEndpoint(i: EndpointId) returns (e: Endpoint)
      modifies this`endpoints
      ensures NewIdentifier(old(Ids(endpoints)), i, e.id)
      ensures e in endpoints && Ids(endpoints) == Looked(old(Ids(endpoints)), e.id)
    {
      var taken := EndpointExist(i);
      if taken {
        var j: int := 1;
        while j < 240
          invariant 1 <= j <= 240 && endpoints == old(endpoints)
          invariant forall k: EndpointId :: 1 <= k < j ==> k in Ids(endpoints)
        {
          var used := EndpointExist(j);
          if !used {
            e := EndpointPtr(j);
            return;
          }
          j := j + 1;
        }
        e := EndpointPtr(241);
      } else {
        e := EndpointPtr(i);
      }
    }
  }

  datatype Op = Lookup(i: EndpointId) | Active(list: seq<EndpointId>) | New(asked: EndpointId, given: EndpointId)

  // The identifiers after an operation of the device; a new endpoint is given what NewIdentifier says.
  function AfterOp(ids: seq<EndpointId>, op: Op): seq<EndpointId> {
    match op
    case Lookup(i) => Looked(ids, i)
    case Active(list) => LookedAll(ids, list, |list|)
    case New(_, given) => Looked(ids, given)
  }

  function AfterOps(ids: seq<EndpointId>, ops: seq<Op>, n: nat): seq<EndpointId>
    requires n <= |ops|
  {
    if n == 0 then ids else AfterOp(AfterOps(ids, ops, n - 1), ops[n - 1])
  }

  lemma LookedKeeps(ids: seq<EndpointId>, i: EndpointId)
    requires NoRepeats(ids)
    ensures NoRepeats(Looked(ids, i))
    ensures forall k: EndpointId :: k in Looked(ids, i) <==> k in ids || k == i
  {
    forall k: EndpointId ensures k in Looked(ids, i) <==> k in ids || k == i {
      if i !in ids && k in ids {
        var j :| 0 <= j < |ids| && ids[j] == k;
        assert ([i] + ids)[j + 1] == k;
      }
      if i !in ids { assert ([i] + ids)[0] == i; }
    }
  }

  lemma {:induction false} LookedAllKeeps(ids: seq<EndpointId>, list: seq<EndpointId>, n: nat)
    requires NoRepeats(ids) && n <= |list|
    ensures NoRepeats(LookedAll(ids, list, n))
    ensures forall k: EndpointId :: k in LookedAll(ids, list, n) <==> k in ids || k in list[..n]
  {
    if n > 0 {
      LookedAllKeeps(ids, list, n - 1);
      LookedKeeps(LookedAll(ids, list, n - 1), list[n - 1]);
      assert list[..n] == list[..n - 1] + [list[n - 1]];
    }
  }

  /** Of a list of new identifiers the one named last comes to stand in front. */
  lemma {:induction false} LookedAllOrder(ids: seq<EndpointId>, list: seq<EndpointId>, n: nat, k: nat)
    requires NoRepeats(ids + list) && k < n <= |list|
    ensures |LookedAll(ids, list, n)| == n + |ids| && LookedAll(ids, list, n)[n..] == ids
    ensures LookedAll(ids, list, n)[k] == list[n - 1 - k]
  {
    var before := LookedAll(ids, list, n - 1);
    if n == 1 {
      assert before == ids;
    } else {
      LookedAllOrder(ids, list, n - 1, if k == 0 then 0 else k - 1);
    }
    NewInList(ids, list, n);
    assert LookedAll(ids, list, n) == [list[n - 1]] + before;
  }

  lemma NewInList(ids: seq<EndpointId>, list: seq<EndpointId>, n: nat)
    requires NoRepeats(ids + list) && 0 < n <= |list|
    ensures list[n - 1] !in LookedAll(ids, list, n - 1)
  {
    var all := ids + list;
    assert all[|ids| + n - 1] == list[n - 1];
    assert forall j :: 0 <= j < |ids| ==> all[j] == ids[j];
    LookedAllKeeps(ids, list, n - 1);
    forall j | 0 <= j < n - 1 ensures list[j] != list[n - 1] {
      assert all[|ids| + j] == list[j];
    }
  }

  /** Under any sequence of operations the identifiers stay unique, and none is lost. */
  lemma {:induction false} StaysUnique(ids: seq<EndpointId>, ops: seq<Op>, n: nat)
    requires NoRepeats(ids) && n <= |ops|
    ensures NoRepeats(AfterOps(ids, ops, n))
    ensures forall k: EndpointId :: k in ids ==> k in AfterOps(ids, ops, n)
  {
    if n > 0 {
      StaysUnique(ids, ops, n - 1);
      var before := AfterOps(ids, ops, n - 1);
      match ops[n - 1] {
        case Lookup(i) => LookedKeeps(before, i);
        case Active(list) => LookedAllKeeps(before, list, |list|);
        case New(_, given) => LookedKeeps(before, given);
      }
    }
  }

  /**
    A new endpoint shares its identifier with an older one exactly if the one asked for, all of 1 to 239 and 241 are
    taken.
   */
  lemma NewIsShared(ids: seq<EndpointId>, asked: EndpointId, given: EndpointId)
    requires NewIdentifier(ids, asked, given)
    ensures given in ids <==> asked in ids && 241 in ids && forall k: EndpointId :: 1 <= k < 240 ==> k in ids
  {}

  /** There is always exactly one identifier to give. */
  lemma NewIdentifierExists(ids: seq<EndpointId>, asked: EndpointId) returns (given: EndpointId)
    ensures NewIdentifier(ids, asked, given)
    ensures forall other: EndpointId :: NewIdentifier(ids, asked, other) ==> other == given
  {
    if asked !in ids { return asked; }
    var j: int := 1;
    while j < 240
      invariant 1 <= j <= 240
      invariant forall k: EndpointId :: 1 <= k < j ==> k in ids
    {
      if j !in ids { return j; }
      j := j + 1;
    }
    given := 241;
  }
}

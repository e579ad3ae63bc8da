/**
  Recovery of the whole archive at start: every record is looked up by its network address, and the device found or
  created is given the IEEE address of the record.
 */
module Recovery {
  import opened Wire
  import opened Options
  import opened ObjectStore
  import Archive

  lemma {:induction false} NumberInjective(a: seq<byte>, b: seq<byte>)
    requires |a| == |b| && Number(a) == Number(b)
    ensures a == b
  {
    if a != [] {
      LowByteOf(a[0] as int, Number(a[1..]), b[0] as int, Number(b[1..]));
      SameByte(a[0], b[0]);
      NumberInjective(a[1..], b[1..]);
      assert a == [a[0]] + a[1..] && b == [b[0]] + b[1..];
    }
  }

  lemma LowByteOf(x: int, p: int, y: int, q: int)
    requires 0 <= x < 0x100 && 0 <= y < 0x100 && x + 0x100 * p == y + 0x100 * q
    ensures x == y && p == q
  {}

  lemma SameByte(x: byte, y: byte)
    requires x as int == y as int
    ensures x == y
  {}

  lemma NumberOfTwo(a: seq<byte>)
    requires |a| == 2
    ensures Number(a) < 0x1_0000
  {
    NumberBound(a, 0x100);
  }

  lemma NumberOfEight(a: seq<byte>)
    requires |a| == 8
    ensures Number(a) < 0x1_0000_0000_0000_0000
  {
    NumberBound(a[6..], 0x100);
    NumberBound(a[5..], 0x1_0000);
    NumberBound(a[4..], 0x100_0000);
    NumberBound(a[3..], 0x1_0000_0000);
    NumberBound(a[2..], 0x100_0000_0000);
    NumberBound(a[1..], 0x1_0000_0000_0000);
    NumberBound(a, 0x100_0000_0000_0000);
  }

  // One byte more.
  lemma NumberBound(a: seq<byte>, bound: nat)
    requires a != [] && Number(a[1..]) < bound
    ensures Number(a) < 0x100 * bound
  {}

  // ------------------------------------------------------- one record after another

  // What the body of the loop does to the list.
  function Put(list: seq<Assoc>, p: Assoc): (r: seq<Assoc>) {
    Found(list, p.id);
    WithIeee(ById(list, p.id), p.id, p.ieee)
  }

  lemma Found(list: seq<Assoc>, i: DeviceId)
    ensures FindId(ById(list, i), i) < |ById(list, i)|
  {}

  function PutAll(records: seq<Assoc>, list: seq<Assoc>, n: nat): seq<Assoc>
    requires n <= |records|
  {
    if n == 0 then list else Put(PutAll(records, list, n - 1), records[n - 1])
  }

  lemma PutIs(list: seq<Assoc>, p: Assoc)
    requires UniqueIds(list)
    ensures UniqueIds(Put(list, p)) && p in Put(list, p)
    ensures forall d: Assoc :: d.id != p.id ==> (d in Put(list, p) <==> d in list)
    ensures forall d: Assoc :: d in Put(list, p) && d.id == p.id ==> d == p
  {
    Found(list, p.id);
    var l, r := ById(list, p.id), Put(list, p);
    var k := FindId(l, p.id);
    ByIdKeeps(list, p.id);
    assert |r| == |l| && r[k] == p && forall j :: 0 <= j < |l| && j != k ==> r[j] == l[j] && l[j].id != p.id;
    forall d: Assoc | d.id != p.id ensures d in r <==> d in list {
      InCreated(list, p.id, d);
      if d in l {
        var j :| 0 <= j < |l| && l[j] == d;
        assert r[j] == d;
      }
      if d in r {
        var j :| 0 <= j < |r| && r[j] == d;
        assert l[j] == d;
      }
    }
  }

  lemma InCreated(list: seq<Assoc>, i: DeviceId, d: Assoc)
    requires d.id != i
    ensures d in ById(list, i) <==> d in list
  {}

  // No later record has the identifier of record `i`.
  ghost predicate LastOfId(records: seq<Assoc>, i: nat, n: nat)
    requires i < n <= |records|
  {
    forall j :: i < j < n ==> records[j].id != records[i].id
  }

  ghost predicate DifferentIeee(records: seq<Assoc>) {
    forall i, j :: 0 <= i < j < |records| ==> records[i].ieee != records[j].ieee
  }

  lemma {:induction false} PutAllKeeps(records: seq<Assoc>, list: seq<Assoc>, n: nat)
    requires UniqueIds(list) && n <= |records|
    ensures UniqueIds(PutAll(records, list, n))
    decreases n
  {
    if n > 0 {
      PutAllKeeps(records, list, n - 1);
      PutIs(PutAll(records, list, n - 1), records[n - 1]);
    }
  }

  /** Of the records of one identifier the last one stays. */
  lemma {:induction false} StaysIff(records: seq<Assoc>, list: seq<Assoc>, i: nat, n: nat)
    requires UniqueIds(list) && DifferentIeee(records) && i < n <= |records|
    ensures records[i] in PutAll(records, list, n) <==> LastOfId(records, i, n)
    decreases n
  {
    hide Put, ById, WithIeee;
    var before, p := PutAll(records, list, n - 1), records[n - 1];
    PutAllKeeps(records, list, n - 1);
    PutIs(before, p);
    if i < n - 1 {
      StaysIff(records, list, i, n - 1);
      assert LastOfId(records, i, n) <==> LastOfId(records, i, n - 1) && p.id != records[i].id;
    }
  }

  /** Every record is recovered exactly if their identifiers are different. */
  lemma AllStayIff(records: seq<Assoc>, list: seq<Assoc>)
    requires UniqueIds(list) && DifferentIeee(records)
    ensures (forall i :: 0 <= i < |records| ==> records[i] in PutAll(records, list, |records|)) <==> UniqueIds(records)
  {
    forall i: nat | i < |records|
      ensures records[i] in PutAll(records, list, |records|) <==> LastOfId(records, i, |records|)
    {
      StaysIff(records, list, i, |records|);
    }
    if !UniqueIds(records) {
      var i: nat, j :| i < j < |records| && records[i].id == records[j].id;
      assert !LastOfId(records, i, |records|);
    }
  }

  // ------------------------------------------------------------------- the archive

  // The addresses that the fields of a record give.
  function RecordOf(store: Archive.Store, ieee: Archive.Ieee): Assoc {
    var nwk, own := Archive.DevField(store, ieee, Archive.NWK_ADDR), Archive.DevField(store, ieee, Archive.IEEE_ADDR);
    var id := if nwk.Some? then Archive.ToInteger(nwk.value)[..2] else [0, 0];
    var address := if own.Some? then Archive.ToInteger(own.value) else seq(8, _ => 0);
    NumberOfTwo(id);
    NumberOfEight(address);
    Assoc(Number(id), Number(address))
  }

  function Records(store: Archive.Store, order: seq<Archive.Ieee>): (r: seq<Assoc>)
    ensures |r| == |order|
  {
    seq(|order|, i requires 0 <= i < |order| => RecordOf(store, order[i]))
  }

  // The body of the loop: the device is found or created, and given its address.
  method PutRecord(self: Device, r: Assoc)
    modifies self`assocs
    ensures self.assocs == Put(old(self.assocs), r)
  {
    ghost var list := self.assocs;
    var assoc := self.AssocsById(r.id);
    Found(list, r.id);
    self.SetIeee(r.id, r.ieee);
  }

  lemma RecordAt(store: Archive.Store, order: seq<Archive.Ieee>, i: nat)
    requires i < |order|
    ensures Records(store, order)[i] == RecordOf(store, order[i])
  {}

  /** recoverEndpoint: the loop over the records of the archive, in whatever order they come. */
  method RecoverEndpoint(self: Device, store: Archive.Store, order: seq<Archive.Ieee>)
    modifies self`assocs
    ensures self.assocs == PutAll(Records(store, order), old(self.assocs), |order|)
  {
    hide RecordOf, Records, Put;
    for n := 0 to |order|
      invariant self.assocs == PutAll(Records(store, order), old(self.assocs), n)
    {
      var r := RecordOf(store, order[n]);
      RecordAt(store, order, n);
      PutRecord(self, r);
    }
  }

  // The devices that have been saved and not removed since, each once.
  ghost predicate Archived(events: seq<Archive.Event>, order: seq<Archive.Ieee>) {
    NoRepeats(order) && forall ieee: Archive.Ieee :: ieee in order <==> NwkOf(events, ieee).Some?
  }

  function NwkOf(events: seq<Archive.Event>, ieee: Archive.Ieee): Option<Archive.Nwk> {
    Archive.LastNwk(events, |events|, ieee)
  }

  // No two archived devices were last saved with one network address.
  ghost predicate DifferentNwk(events: seq<Archive.Event>, order: seq<Archive.Ieee>) {
    forall i, j :: 0 <= i < j < |order| ==> NwkOf(events, order[i]) != NwkOf(events, order[j])
  }

  lemma RecordIs(events: seq<Archive.Event>, ieee: Archive.Ieee)
    requires NwkOf(events, ieee).Some?
    ensures var r := RecordOf(Archive.Replay(events, |events|), ieee);
      r.id == Number(Archive.LastNwk(events, |events|, ieee).value) && r.ieee == Number(ieee)
  {
    Archive.RecoversAddresses(events, ieee);
  }

  lemma TwoRecords(events: seq<Archive.Event>, a: Archive.Ieee, b: Archive.Ieee)
    requires a != b && NwkOf(events, a).Some? && NwkOf(events, b).Some?
    ensures var store := Archive.Replay(events, |events|);
      var r, s := RecordOf(store, a), RecordOf(store, b);
      r.ieee != s.ieee && (r.id == s.id <==> NwkOf(events, a) == NwkOf(events, b))
  {
    RecordIs(events, a);
    RecordIs(events, b);
    if Number(a) == Number(b) { NumberInjective(a, b); }
    var m, n := NwkOf(events, a).value, NwkOf(events, b).value;
    if Number(m) == Number(n) { NumberInjective(m, n); }
  }

  lemma ArchivedRecords(events: seq<Archive.Event>, order: seq<Archive.Ieee>)
    requires Archived(events, order)
    ensures var records := Records(Archive.Replay(events, |events|), order);
      DifferentIeee(records) && (UniqueIds(records) <==> DifferentNwk(events, order))
  {
    var store := Archive.Replay(events, |events|);
    var records := Records(store, order);
    forall i, j | 0 <= i < j < |order|
      ensures records[i].ieee != records[j].ieee
      ensures records[i].id == records[j].id <==> NwkOf(events, order[i]) == NwkOf(events, order[j])
    {
      assert order[i] in order && order[j] in order;
      RecordAt(store, order, i);
      RecordAt(store, order, j);
      TwoRecords(events, order[i], order[j]);
    }
    SameIds(events, order, records);
  }

  lemma SameIds(events: seq<Archive.Event>, order: seq<Archive.Ieee>, records: seq<Assoc>)
    requires |records| == |order|
    requires forall i, j :: 0 <= i < j < |order| ==>
      (records[i].id == records[j].id <==> NwkOf(events, order[i]) == NwkOf(events, order[j]))
    ensures UniqueIds(records) <==> DifferentNwk(events, order)
  {
    hide NwkOf;
  }

  /**
    After any saves and removals, and whatever the order of the records: an archived device comes back with both its
    addresses exactly if no record behind its own has its network address.  So all come back exactly if
    no two of them were last saved with one network address.
   */
  lemma RecoversAllIff(events: seq<Archive.Event>, order: seq<Archive.Ieee>, list: seq<Assoc>)
    requires Archived(events, order) && UniqueIds(list)
    ensures var records := Records(Archive.Replay(events, |events|), order);
      && (forall i: nat :: i < |order| ==>
            (records[i] in PutAll(records, list, |order|) <==> LastOfId(records, i, |order|)))
      && ((forall i: nat :: i < |order| ==> records[i] in PutAll(records, list, |order|)) <==>
          DifferentNwk(events, order))
  {
    var records := Records(Archive.Replay(events, |events|), order);
    ArchivedRecords(events, order);
    AllStayIff(records, list);
    forall i: nat | i < |order|
      ensures records[i] in PutAll(records, list, |order|) <==> LastOfId(records, i, |order|)
    {
      StaysIff(records, list, i, |order|);
    }
  }
}

/**
  The archive of descriptors: for every device address, as text, the messages that described the device
  and its endpoints, also as text.  What is recovered is what was stored last.
 */
module Archive {
  import opened Wire
  import opened Options
  import Hex
  import Descriptors

  // An integer of n bytes, the low byte first.
  type Ieee = a: seq<byte> | |a| == 8 witness seq(8, _ => 0)

  // A network address, likewise.
  type Nwk = a: seq<byte> | |a| == 2 witness seq(2, _ => 0)

  const IEEE_ADDR := "ieeeAddr"
  const NWK_ADDR := "nwkAddr"
  const ENDPOINT_LIST := "endpointList"
  const ID := "Id"
  const NODE := "NodeDescApduString"
  const ACTIVE := "ActiveEndpointApduString"
  const SIMPLE := "SimpleDescApdu"

  // Names under which messages are stored: not those of the fields that every save writes.
  type DevTag = t: string | t != IEEE_ADDR && t != NWK_ADDR && t != ENDPOINT_LIST witness NODE
  type EndpointTag = t: string | t != ID witness SIMPLE

  datatype Record = Record(fields: map<string, string>, endpoints: map<string, map<string, string>>)

  type Store = map<string, Record>

  // IntToHexStr.
  function Key(a: seq<byte>): string {
    Hex.Text(Hex.Reversed(a))
  }

  function RecordOf(store: Store, ieee: Ieee): Record {
    if Key(ieee) in store then store[Key(ieee)] else Record(map[], map[])
  }

  function EndpointOf(r: Record, ep: byte): map<string, string> {
    if Key([ep]) in r.endpoints then r.endpoints[Key([ep])] else map[]
  }

  datatype Event =
    | SaveDevApdu(ieee: Ieee, nwk: Nwk, devTag: DevTag, apdu: seq<byte>)
    | SaveEndpointApdu(ieee: Ieee, nwk: Nwk, ep: byte, epTag: EndpointTag, apdu: seq<byte>)
    | RemoveDev(ieee: Ieee)

  // saveDevAddresses and saveIds: every save writes the two addresses of the device.
  function WithAddresses(r: Record, ieee: Ieee, nwk: Nwk): Record {
    r.(fields := r.fields[IEEE_ADDR := Key(ieee)][NWK_ADDR := Key(nwk)])
  }

  function Apply(store: Store, e: Event): Store {
    match e
    case SaveDevApdu(ieee, nwk, tag, apdu) =>
      var r := WithAddresses(RecordOf(store, ieee), ieee, nwk);
      store[Key(ieee) := r.(fields := r.fields[tag := Hex.Text(apdu)])]
    case SaveEndpointApdu(ieee, nwk, ep, tag, apdu) =>
      var r := WithAddresses(RecordOf(store, ieee), ieee, nwk);
      var endpoint := EndpointOf(r, ep)[ID := Key([ep])][tag := Hex.Text(apdu)];
      store[Key(ieee) := r.(endpoints := r.endpoints[Key([ep]) := endpoint])]
    case RemoveDev(ieee) => store - {Key(ieee)}
  }

  function Replay(events: seq<Event>, n: nat): Store
    requires n <= |events|
  {
    if n == 0 then map[] else Apply(Replay(events, n - 1), events[n - 1])
  }

  function DevField(store: Store, ieee: Ieee, tag: string): Option<string> {
    var r := RecordOf(store, ieee);
    if tag in r.fields then Some(r.fields[tag]) else None
  }

  function EndpointField(store: Store, ieee: Ieee, ep: byte, tag: string): Option<string> {
    var e := EndpointOf(RecordOf(store, ieee), ep);
    if tag in e then Some(e[tag]) else None
  }

  /** What was stored last for a device under a name, of the first `n` events, unless the device was removed since. */
  function LastDev(events: seq<Event>, n: nat, ieee: Ieee, tag: string): Option<string>
    requires n <= |events|
  {
    if n == 0 then None
    else if events[n - 1].ieee == ieee then
      match events[n - 1]
      case RemoveDev(_) => None
      case SaveDevApdu(_, nwk, t, apdu) =>
        if tag == IEEE_ADDR then Some(Key(ieee)) else if tag == NWK_ADDR then Some(Key(nwk))
        else if tag == t then Some(Hex.Text(apdu)) else LastDev(events, n - 1, ieee, tag)
      case SaveEndpointApdu(_, nwk, _, _, _) =>
        if tag == IEEE_ADDR then Some(Key(ieee)) else if tag == NWK_ADDR then Some(Key(nwk))
        else LastDev(events, n - 1, ieee, tag)
    else LastDev(events, n - 1, ieee, tag)
  }

  /** Likewise for an endpoint. */
  function LastEndpoint(events: seq<Event>, n: nat, ieee: Ieee, ep: byte, tag: string): Option<string>
    requires n <= |events|
  {
    if n == 0 then None
    else if events[n - 1].ieee == ieee then
      match events[n - 1]
      case RemoveDev(_) => None
      case SaveDevApdu(_, _, _, _) => LastEndpoint(events, n - 1, ieee, ep, tag)
      case SaveEndpointApdu(_, _, e, t, apdu) =>
        if e != ep then LastEndpoint(events, n - 1, ieee, ep, tag)
        else if tag == ID then Some(Key([ep])) else if tag == t then Some(Hex.Text(apdu))
        else LastEndpoint(events, n - 1, ieee, ep, tag)
    else LastEndpoint(events, n - 1, ieee, ep, tag)
  }

  lemma KeyInjective(a: seq<byte>, b: seq<byte>)
    requires |a| == |b|
    ensures Key(a) == Key(b) <==> a == b
  {
    if Key(a) == Key(b) { Hex.TextInjective(a, b); }
  }

  // An event of another device changes nothing of this one.
  lemma OtherDevice(store: Store, e: Event, ieee: Ieee)
    requires e.ieee != ieee
    ensures RecordOf(Apply(store, e), ieee) == RecordOf(store, ieee)
  {
    KeyInjective(e.ieee, ieee);
  }

  // One event more.
  ghost function NextDev(before: Option<string>, e: Event, ieee: Ieee, tag: string): Option<string> {
    if e.ieee != ieee then before
    else
      match e
      case RemoveDev(_) => None
      case SaveDevApdu(_, nwk, t, apdu) =>
        if tag == IEEE_ADDR then Some(Key(ieee)) else if tag == NWK_ADDR then Some(Key(nwk))
        else if tag == t then Some(Hex.Text(apdu)) else before
      case SaveEndpointApdu(_, nwk, _, _, _) =>
        if tag == IEEE_ADDR then Some(Key(ieee)) else if tag == NWK_ADDR then Some(Key(nwk)) else before
  }

  ghost function NextEndpoint(before: Option<string>, e: Event, ieee: Ieee, ep: byte, tag: string): Option<string> {
    if e.ieee != ieee then before
    else
      match e
      case RemoveDev(_) => None
      case SaveDevApdu(_, _, _, _) => before
      case SaveEndpointApdu(_, _, f, t, apdu) =>
        if f != ep then before
        else if tag == ID then Some(Key([ep])) else if tag == t then Some(Hex.Text(apdu)) else before
  }

  lemma ApplyDev(store: Store, e: Event, ieee: Ieee, tag: string)
    ensures DevField(Apply(store, e), ieee, tag) == NextDev(DevField(store, ieee, tag), e, ieee, tag)
  {
    if e.ieee != ieee { OtherDevice(store, e, ieee); }
  }

  lemma ApplyEndpoint(store: Store, e: Event, ieee: Ieee, ep: byte, tag: string)
    ensures EndpointField(Apply(store, e), ieee, ep, tag) ==
            NextEndpoint(EndpointField(store, ieee, ep, tag), e, ieee, ep, tag)
  {
    if e.ieee != ieee { OtherDevice(store, e, ieee); }
    else if e.SaveEndpointApdu? { KeyInjective([e.ep], [ep]); }
  }

  /** Over any sequence of saves and removals, the archive holds for every device and name what was stored last. */
  lemma {:induction false} HoldsLastDev(events: seq<Event>, n: nat, ieee: Ieee, tag: string)
    requires n <= |events|
    ensures DevField(Replay(events, n), ieee, tag) == LastDev(events, n, ieee, tag)
  {
    if n > 0 {
      HoldsLastDev(events, n - 1, ieee, tag);
      ApplyDev(Replay(events, n - 1), events[n - 1], ieee, tag);
    }
  }

  lemma {:induction false} HoldsLastEndpoint(events: seq<Event>, n: nat, ieee: Ieee, ep: byte, tag: string)
    requires n <= |events|
    ensures EndpointField(Replay(events, n), ieee, ep, tag) == LastEndpoint(events, n, ieee, ep, tag)
  {
    if n > 0 {
      HoldsLastEndpoint(events, n - 1, ieee, ep, tag);
      ApplyEndpoint(Replay(events, n - 1), events[n - 1], ieee, ep, tag);
    }
  }

  // ---------------------------------------------------------------------- recovery

  // The network address of the last save for a device.
  function LastNwk(events: seq<Event>, n: nat, ieee: Ieee): Option<Nwk>
    requires n <= |events|
  {
    if n == 0 then None
    else if events[n - 1].ieee == ieee then
      if events[n - 1].RemoveDev? then None else Some(events[n - 1].nwk)
    else LastNwk(events, n - 1, ieee)
  }

  lemma {:induction false} AddressesStored(events: seq<Event>, n: nat, ieee: Ieee)
    requires n <= |events| && LastNwk(events, n, ieee).Some?
    ensures LastDev(events, n, ieee, NWK_ADDR) == Some(Key(LastNwk(events, n, ieee).value))
    ensures LastDev(events, n, ieee, IEEE_ADDR) == Some(Key(ieee))
  {
    if events[n - 1].ieee != ieee { AddressesStored(events, n - 1, ieee); }
  }

  /** The texts of addresses are their numerals. */
  lemma KeyIsNumeral(a: seq<byte>)
    ensures Hex.AllDigits(Key(a), |Key(a)|) && Hex.Numeral(Key(a)) == Number(a)
  {
    Hex.TextIsNumeral(a);
  }

  /** JSON::toInteger on a text of digits: the bytes of a 64-bit number, the low one first. */
  function ToInteger(text: string): (m: seq<byte>)
    ensures |m| == 8
  {
    var s := if |text| % 2 == 1 then "0" + text else text;
    var n := if |s| / 2 <= 8 then |s| / 2 else 8;
    Hex.Value(s, n) + seq(8 - n, _ => 0)
  }

  lemma ToIntegerOfKey(a: seq<byte>)
    requires |a| <= 8
    ensures ToInteger(Key(a))[..|a|] == a && forall i :: |a| <= i < 8 ==> ToInteger(Key(a))[i] == 0
  {
    Hex.IntRoundTrip(a, Key(a));
  }

  /**
    recoverEndpoint reads back the addresses of the last save: the network address in the low sixteen bits, the IEEE
    address whole.
   */
  lemma RecoversAddresses(events: seq<Event>, ieee: Ieee)
    requires LastNwk(events, |events|, ieee).Some?
    ensures var store := Replay(events, |events|);
      && DevField(store, ieee, NWK_ADDR).Some? && DevField(store, ieee, IEEE_ADDR).Some?
      && ToInteger(DevField(store, ieee, NWK_ADDR).value)[..2] == LastNwk(events, |events|, ieee).value
      && ToInteger(DevField(store, ieee, IEEE_ADDR).value) == ieee
  {
    HoldsLastDev(events, |events|, ieee, NWK_ADDR);
    HoldsLastDev(events, |events|, ieee, IEEE_ADDR);
    AddressesStored(events, |events|, ieee);
    ToIntegerOfKey(LastNwk(events, |events|, ieee).value);
    ToIntegerOfKey(ieee);
    assert ToInteger(Key(ieee))[..8] == ToInteger(Key(ieee));
  }

  /** What recoverEndpoint parses for a device: the node descriptor and the endpoints of the messages saved last. */
  lemma RecoversDevice(events: seq<Event>, ieee: Ieee, node: seq<byte>, active: seq<byte>, beyond: nat -> char)
    requires LastDev(events, |events|, ieee, NODE) == Some(Hex.Text(node)) && |node| == Descriptors.NODE_LENGTH
    requires LastDev(events, |events|, ieee, ACTIVE) == Some(Hex.Text(active))
    requires Descriptors.EndpointsFit(active) && |active| == 1 + active[0] as int
    ensures var store := Replay(events, |events|);
      && DevField(store, ieee, NODE).Some? && DevField(store, ieee, ACTIVE).Some?
      && var n := Hex.Decoded(DevField(store, ieee, NODE).value, beyond);
         var a := Hex.Decoded(DevField(store, ieee, ACTIVE).value, beyond);
      && |n| >= Descriptors.NODE_LENGTH && Descriptors.ParseNode(n) == Descriptors.ParseNode(node)
      && Descriptors.EndpointsFit(a) && Descriptors.ParseEndpoints(a) == Descriptors.ParseEndpoints(active)
  {
    HoldsLastDev(events, |events|, ieee, NODE);
    HoldsLastDev(events, |events|, ieee, ACTIVE);
    assert node[..|node|] == node && active[..|active|] == active;
    Descriptors.ArchivedNode(node, |node|, beyond);
    Descriptors.ArchivedEndpoints(active, beyond);
  }

  /** And for an endpoint: its simple descriptor. */
  lemma RecoversEndpoint(events: seq<Event>, ieee: Ieee, ep: byte, simple: seq<byte>, beyond: nat -> char)
    requires LastEndpoint(events, |events|, ieee, ep, SIMPLE) == Some(Hex.Text(simple))
    requires Descriptors.SimpleFits(simple)
    ensures var store := Replay(events, |events|);
      && EndpointField(store, ieee, ep, SIMPLE).Some?
      && var v := Hex.Decoded(EndpointField(store, ieee, ep, SIMPLE).value, beyond);
      Descriptors.SimpleFits(v) && Descriptors.ParseSimple(v) == Descriptors.ParseSimple(simple)
  {
    HoldsLastEndpoint(events, |events|, ieee, ep, SIMPLE);
    assert simple[..|simple|] == simple;
    Descriptors.ArchivedSimple(simple, |simple|, beyond);
  }
}

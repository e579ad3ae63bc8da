/**
  Responses are matched to requests by an eight-bit number that a wrapping counter hands out, by the
  cluster, and by the endpoint addressed.
 */
module Correlation {
  import opened Wire

  // What a request draws: the calls of the counter are numbered from zero.
  datatype Receiver = Receiver(call: nat, cluster: bv16)

  datatype Message = Message(number: byte, cluster: bv16, dstEndpoint: byte)

  /** cntr(): the number of the n-th call. */
  function Number(call: nat): byte {
    ByteValueOf(call % 0x100)
  }

  function ByteValueOf(n: int): byte
    requires 0 <= n < 0x100
  {
    n as byte
  }

  function ResponseCluster(cluster: bv16): bv16 {
    0x8000 | cluster
  }

  /** zdpPred. */
  predicate Matches(r: Receiver, m: Message) {
    m.number == Number(r.call) && m.cluster == ResponseCluster(r.cluster) && m.dstEndpoint == 0
  }

  lemma SameNumber(a: nat, b: nat)
    ensures Number(a) == Number(b) <==> a % 0x100 == b % 0x100
  {
    ByteOf(a % 0x100);
    ByteOf(b % 0x100);
  }

  lemma TopBit(c: bv16)
    ensures ResponseCluster(c) as int == if c as int < 0x8000 then c as int + 0x8000 else c as int
  {
    Below(c);
    if c & 0x8000 == 0 { SetTop(c, ResponseCluster(c)); } else { KeepTop(c, ResponseCluster(c)); }
  }

  lemma KeepTop(c: bv16, w: bv16)
    requires c & 0x8000 != 0 && w == 0x8000 | c
    ensures w == c
  {}

  lemma SetTop(c: bv16, w: bv16)
    requires c & 0x8000 == 0 && w == 0x8000 | c
    ensures w as int == c as int + 0x8000
  {}

  // The top bit counts 0x8000.
  lemma Below(c: bv16)
    ensures c & 0x8000 == 0 <==> c as int < 0x8000
  {}

  /**
    What a response must be to match a request, in numbers: its first byte is the number of the call modulo 256, its
    cluster that of the request with the top bit set, and the endpoint it is addressed to is 0.
   */
  lemma MatchMeans(r: Receiver, m: Message)
    ensures Matches(r, m) <==>
            && m.number as int == r.call % 0x100 && m.dstEndpoint as int == 0
            && m.cluster as int == if r.cluster as int < 0x8000 then r.cluster as int + 0x8000 else r.cluster as int
  {
    hide Number, ResponseCluster;
    NumberMeans(m.number, r.call);
    SameNumberByte(m.dstEndpoint, 0);
    ClusterMeans(r.cluster, m.cluster);
  }

  lemma NumberMeans(v: byte, call: nat)
    ensures v == Number(call) <==> v as int == call % 0x100
  {
    ByteOf(call % 0x100);
    SameNumberByte(v, Number(call));
  }

  lemma ClusterMeans(c: bv16, w: bv16)
    ensures w == ResponseCluster(c) <==> w as int == if c as int < 0x8000 then c as int + 0x8000 else c as int
  {
    TopBit(c);
    Below(c);
    Clusters(c as int, c, w, ResponseCluster(c));
  }

  lemma Clusters(n: int, c: bv16, w: bv16, response: bv16)
    requires n == c as int && response as int == if n < 0x8000 then n + 0x8000 else n
    ensures w == response <==> w as int == if n < 0x8000 then n + 0x8000 else n
  {
    SameWord(w, response);
  }

  lemma SameNumberByte(v: byte, w: byte)
    ensures v as int == w as int <==> v == w
  {}

  // No two receivers stem from one call.
  ghost predicate Drawn(list: seq<Receiver>, next: nat) {
    && (forall r <- list :: r.call < next)
    && forall i, j :: 0 <= i < j < |list| ==> list[i].call != list[j].call
  }

  /** Every outstanding call is one of the last 256 of `next`. */
  ghost predicate Recent(list: seq<Receiver>, next: nat) {
    forall r <- list :: next <= r.call + 0x100
  }

  ghost predicate OneMatch(list: seq<Receiver>, m: Message) {
    forall i, j :: 0 <= i < |list| && 0 <= j < |list| && Matches(list[i], m) && Matches(list[j], m) ==> i == j
  }

  lemma CloseCalls(a: nat, b: nat, next: nat)
    requires a < next <= a + 0x100 && b < next <= b + 0x100 && a % 0x100 == b % 0x100
    ensures a == b
  {}

  /**
    While all outstanding requests drew their numbers within the last 256 calls, a response matches at most one
    receiver.
   */
  lemma AtMostOneMatch(list: seq<Receiver>, next: nat, m: Message)
    requires Drawn(list, next) && Recent(list, next)
    ensures OneMatch(list, m)
  {
    forall i, j | 0 <= i < |list| && 0 <= j < |list| && Matches(list[i], m) && Matches(list[j], m) ensures i == j {
      var a, b := list[i], list[j];
      assert a in list && b in list;
      SameNumber(a.call, b.call);
      CloseCalls(a.call, b.call, next);
    }
  }

  // Two receivers that a response cannot tell apart.
  predicate Confused(a: Receiver, b: Receiver) {
    a.call % 0x100 == b.call % 0x100 && ResponseCluster(a.cluster) == ResponseCluster(b.cluster)
  }

  /**
    No response is ambiguous exactly if no two outstanding calls of one response cluster are a multiple of 256 apart.
   */
  lemma UnambiguousIff(list: seq<Receiver>)
    ensures (forall m: Message :: OneMatch(list, m)) <==>
            forall i, j :: 0 <= i < j < |list| ==> !Confused(list[i], list[j])
  {
    forall i, j | 0 <= i < j < |list| && Confused(list[i], list[j]) ensures exists m: Message :: !OneMatch(list, m) {
      var m := Message(Number(list[i].call), ResponseCluster(list[i].cluster), 0);
      SameNumber(list[i].call, list[j].call);
      assert Matches(list[i], m) && Matches(list[j], m);
      assert !OneMatch(list, m);
    }
    forall m: Message, i, j | 0 <= i < |list| && 0 <= j < |list| && Matches(list[i], m) && Matches(list[j], m)
      ensures Confused(list[i], list[j])
    {
      SameNumber(list[i].call, list[j].call);
    }
  }

  /** indicate: the first receiver that matches is served, and only that one. */
  method Indicate(list: seq<Receiver>, m: Message) returns (served: bool, k: nat)
    ensures served <==> exists i :: 0 <= i < |list| && Matches(list[i], m)
    ensures served ==> k < |list| && Matches(list[k], m) && forall i :: 0 <= i < k ==> !Matches(list[i], m)
  {
    served, k := false, 0;
    while k < |list|
      invariant k <= |list| && !served
      invariant forall i :: 0 <= i < k ==> !Matches(list[i], m)
    {
      if Matches(list[k], m) {
        served := true;
        break;
      }
      k := k + 1;
    }
  }

  function ResponseTo(r: Receiver): Message {
    Message(Number(r.call), ResponseCluster(r.cluster), 0)
  }

  /** The response to an outstanding request is delivered to that request and to no other. */
  lemma ResponseFindsOwn(list: seq<Receiver>, next: nat, own: nat, k: nat)
    requires Drawn(list, next) && Recent(list, next) && own < |list| && k < |list|
    ensures Matches(list[k], ResponseTo(list[own])) <==> k == own
  {
    AtMostOneMatch(list, next, ResponseTo(list[own]));
  }

  // ------------------------------------------------------------------------ runs

  /** Threads draw a number, register a receiver for it, and remove it; frames that expect no response only draw. */
  datatype State = State(next: nat, drawn: map<nat, nat>, list: seq<Receiver>)

  datatype Op = Draw(t: nat) | DrawOnly | Register(t: nat, cluster: bv16) | Remove(k: nat)

  predicate Enabled(s: State, op: Op) {
    match op
    case Draw(t) => t !in s.drawn
    case DrawOnly => true
    case Register(t, _) => t in s.drawn
    case Remove(k) => k < |s.list|
  }

  function Step(s: State, op: Op): State
    requires Enabled(s, op)
  {
    match op
    case Draw(t) => State(s.next + 1, s.drawn[t := s.next], s.list)
    case DrawOnly => s.(next := s.next + 1)
    case Register(t, c) => State(s.next, s.drawn - {t}, [Receiver(s.drawn[t], c)] + s.list)
    case Remove(k) => s.(list := s.list[..k] + s.list[k + 1..])
  }

  function Run(s: State, ops: seq<Op>): State
    decreases |ops|
  {
    if ops == [] then s else Run(if Enabled(s, ops[0]) then Step(s, ops[0]) else s, ops[1..])
  }

  // Numbers are drawn once: by a thread that has not registered yet, or for a receiver.
  ghost predicate Inv(s: State) {
    && Drawn(s.list, s.next)
    && (forall t <- s.drawn :: s.drawn[t] < s.next && forall r <- s.list :: r.call != s.drawn[t])
    && (forall t <- s.drawn, u <- s.drawn :: t != u ==> s.drawn[t] != s.drawn[u])
  }

  lemma RegisterInv(s: State, t: nat, c: bv16)
    requires Inv(s) && t in s.drawn
    ensures Inv(Step(s, Register(t, c)))
  {
    var list := [Receiver(s.drawn[t], c)] + s.list;
    forall r <- list ensures r == list[0] || r in s.list {}
    forall i, j | 0 <= i < j < |list| ensures list[i].call != list[j].call {
      assert list[j] == s.list[j - 1] && list[j] in s.list;
    }
  }

  lemma RemoveInv(s: State, k: nat)
    requires Inv(s) && k < |s.list|
    ensures Inv(Step(s, Remove(k)))
  {
    var list := s.list[..k] + s.list[k + 1..];
    forall r <- list ensures r in s.list {}
  }

  lemma {:induction false} RunInv(s: State, ops: seq<Op>)
    requires Inv(s)
    ensures Inv(Run(s, ops))
    decreases |ops|
  {
    if ops != [] {
      if Enabled(s, ops[0]) {
        match ops[0] {
          case Draw(_) =>
          case DrawOnly =>
          case Register(t, c) => RegisterInv(s, t, c);
          case Remove(k) => RemoveInv(s, k);
        }
        RunInv(Step(s, ops[0]), ops[1..]);
      } else {
        RunInv(s, ops[1..]);
      }
    }
  }

  /** In every run, as long as the outstanding requests are recent, responses are unambiguous. */
  lemma ResponsesFindTheirRequest(ops: seq<Op>, m: Message)
    ensures var s := Run(State(0, map[], []), ops); Recent(s.list, s.next) ==> OneMatch(s.list, m)
  {
    var s := Run(State(0, map[], []), ops);
    RunInv(State(0, map[], []), ops);
    if Recent(s.list, s.next) { AtMostOneMatch(s.list, s.next, m); }
  }
}

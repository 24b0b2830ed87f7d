/**
 The UDP session (dchat-tuna/nkn-tuna-session/udpsession.go).

 One goroutine receives datagrams and queues them; any number of readers take from the queue and
 give the bytes back to the budget later, in a separate locked step. A listener keeps two maps
 from session keys and UDP addresses to session addresses. `State` holds the fields of the
 session together with what has happened to it; `Step` is one atomic step of either side.
 */
module UdpSession {
  import opened Wrappers
  import opened Sequences

  datatype UdpAddr = UdpAddr(text: string)
  datatype Key = SessionKey(remoteNknAddr: string, sessionId: string)

  /** `udpSessionAddr`; `key` is what its `String` method returns. */
  datatype SessionAddr = SessionAddr(key: Key, udpAddr: UdpAddr)

  /** A queued datagram. The dialer leaves the session address empty. */
  datatype Datagram = Datagram(data: seq<bv8>, from: Option<SessionAddr>)

  datatype State = State(
    isListener: bool,
    bufferSize: int,             // UDPRecvBufferSize
    capacity: nat,               // MaxUdpDatagramBuffered
    queue: seq<Datagram>,        // recvChan
    recvSize: int,
    inFlight: seq<Datagram>,     // taken by a reader that has not yet returned the bytes
    arrived: seq<Datagram>,      // every datagram that belonged to a session, in arrival order
    taken: seq<Datagram>,        // every datagram handed to a reader, in order
    peer: Option<UdpAddr>,       // dialer only
    sessKeyToSessAddr: map<Key, SessionAddr>,
    udpAddrToSessAddr: map<UdpAddr, SessionAddr>)

  datatype Event =
    | User(source: UdpAddr, encrypted: bool, data: seq<bv8>)
    | SessionId(key: Key, source: UdpAddr)
    | CloseMessage(source: UdpAddr)
    | ConnClosed(key: Key)
    | Take
    | Settle(index: nat)
    | CloseSession

  function Initial(isListener: bool, bufferSize: int, capacity: nat, peer: Option<UdpAddr>): State {
    State(isListener, bufferSize, capacity, [], 0, [], [], [], peer, map[], map[])
  }

  // --- Steps ---

  /** Does user data from this address belong to a session? */
  predicate Belongs(s: State, source: UdpAddr) {
    if s.isListener then source in s.udpAddrToSessAddr else s.peer == Some(source)
  }

  /** A dialer whose session was closed: the source would dereference its missing peer. */
  predicate PeerMissing(s: State) {
    !s.isListener && s.peer.None?
  }

  function Received(s: State, source: UdpAddr, data: seq<bv8>): Datagram
    requires Belongs(s, source)
  {
    Datagram(data, if s.isListener then Some(s.udpAddrToSessAddr[source]) else None)
  }

  predicate Fits(s: State, data: seq<bv8>) {
    s.recvSize + |data| < s.bufferSize && |s.queue| < s.capacity
  }

  function Forget(s: State, key: Key): State {
    if key !in s.sessKeyToSessAddr then s else
      s.(sessKeyToSessAddr := s.sessKeyToSessAddr - {key},
         udpAddrToSessAddr := s.udpAddrToSessAddr - {s.sessKeyToSessAddr[key].udpAddr})
  }

  function Step(s: State, e: Event): State
    requires Enabled(s, e)
  {
    match e
    case User(source, encrypted, data) =>
      if !encrypted || !Belongs(s, source) then s else
        var d := Received(s, source, data);
        var seen := s.(arrived := s.arrived + [d]);
        if Fits(s, data) then seen.(queue := s.queue + [d], recvSize := s.recvSize + |data|) else seen
    case SessionId(key, source) =>
      if !s.isListener || key in s.sessKeyToSessAddr then s else
        var u := SessionAddr(key, source);
        s.(sessKeyToSessAddr := s.sessKeyToSessAddr[key := u], udpAddrToSessAddr := s.udpAddrToSessAddr[source := u])
    case CloseMessage(source) =>
      if s.isListener && source in s.udpAddrToSessAddr then Forget(s, s.udpAddrToSessAddr[source].key) else s
    case ConnClosed(key) => if s.isListener then Forget(s, key) else s.(peer := None)
    case Take =>
      s.(queue := s.queue[1..], inFlight := s.inFlight + [s.queue[0]], taken := s.taken + [s.queue[0]])
    case Settle(i) =>
      s.(inFlight := s.inFlight[..i] + s.inFlight[i + 1..], recvSize := s.recvSize - |s.inFlight[i].data|)
    case CloseSession =>
      if s.isListener then s.(sessKeyToSessAddr := map[], udpAddrToSessAddr := map[]) else s.(peer := None)
  }

  predicate Enabled(s: State, e: Event) {
    match e
    case Take => s.queue != []
    case Settle(i) => i < |s.inFlight|
    case _ => true
  }

  predicate EnabledRun(s: State, events: seq<Event>)
    decreases |events|
  {
    events == [] || (Enabled(s, events[0]) && EnabledRun(Step(s, events[0]), events[1..]))
  }

  function Run(s: State, events: seq<Event>): State
    requires EnabledRun(s, events)
    decreases |events|
  {
    if events == [] then s else Run(Step(s, events[0]), events[1..])
  }

  // --- Byte accounting and delivery order ---

  function Bytes(ds: seq<Datagram>): nat {
    if ds == [] then 0 else Bytes(ds[..|ds| - 1]) + |ds[|ds| - 1].data|
  }

  lemma {:induction false} BytesConcat(a: seq<Datagram>, b: seq<Datagram>)
    ensures Bytes(a + b) == Bytes(a) + Bytes(b)
  {
    if b == [] {
      assert a + b == a;
    } else {
      BytesConcat(a, b[..|b| - 1]);
      assert (a + b)[..|a + b| - 1] == a + b[..|b| - 1];
    }
  }

  ghost predicate Accounted(s: State) {
    && s.recvSize == Bytes(s.queue) + Bytes(s.inFlight)
    && (s.recvSize == 0 || s.recvSize < s.bufferSize)
    && |s.queue| <= s.capacity
    && Subsequence(s.taken + s.queue, s.arrived)
  }

  lemma ArrivalKeepsAccounted(s: State, source: UdpAddr, data: seq<bv8>)
    requires Accounted(s) && Belongs(s, source)
    ensures Accounted(Step(s, User(source, true, data)))
  {
    var d := Received(s, source, data);
    SubsequenceSkip(s.taken + s.queue, s.arrived, d);
    SubsequenceTake(s.taken + s.queue, s.arrived, d);
    assert s.taken + (s.queue + [d]) == s.taken + s.queue + [d];
    assert (s.queue + [d])[..|s.queue|] == s.queue;
  }

  lemma TakeKeepsAccounted(s: State)
    requires Accounted(s) && s.queue != []
    ensures Accounted(Step(s, Take))
  {
    var d := s.queue[0];
    assert s.queue == [d] + s.queue[1..];
    BytesConcat([d], s.queue[1..]);
    BytesConcat(s.inFlight, [d]);
    assert s.taken + [d] + s.queue[1..] == s.taken + s.queue;
  }

  lemma BytesWithout(ds: seq<Datagram>, i: nat)
    requires i < |ds|
    ensures Bytes(ds) == Bytes(ds[..i] + ds[i + 1..]) + |ds[i].data|
  {
    var front, d, back := ds[..i], ds[i], ds[i + 1..];
    assert ds == front + ([d] + back);
    BytesConcat(front, [d] + back);
    BytesConcat([d], back);
    BytesConcat(front, back);
    assert Bytes([d]) == Bytes([]) + |d.data|;
  }

  lemma SettleKeepsAccounted(s: State, i: nat)
    requires Accounted(s) && i < |s.inFlight|
    ensures Accounted(Step(s, Settle(i)))
  {
    BytesWithout(s.inFlight, i);
  }

  lemma StepKeepsAccounted(s: State, e: Event)
    requires Accounted(s) && Enabled(s, e)
    ensures Accounted(Step(s, e))
  {
    match e
    case User(source, encrypted, data) =>
      if encrypted && Belongs(s, source) {
        ArrivalKeepsAccounted(s, source, data);
      }
    case Take => TakeKeepsAccounted(s);
    case Settle(i) => SettleKeepsAccounted(s, i);
    case _ =>
  }

  lemma {:induction false} RunKeepsAccounted(s: State, events: seq<Event>)
    requires Accounted(s) && EnabledRun(s, events)
    ensures Accounted(Run(s, events))
    ensures Run(s, events).bufferSize == s.bufferSize && Run(s, events).capacity == s.capacity
    decreases |events|
  {
    if events != [] {
      StepKeepsAccounted(s, events[0]);
      RunKeepsAccounted(Step(s, events[0]), events[1..]);
    }
  }

  /**
   In every interleaving of arrivals, takes and late settlements: the counter is exactly the bytes
   queued or held by readers, it stays within the budget, the queue within its capacity, and what
   readers got is a subsequence of what arrived, in arrival order.
   */
  lemma ReceiveAccounting(s: State, events: seq<Event>)
    requires Accounted(s) && EnabledRun(s, events)
    ensures var t := Run(s, events);
            && t.recvSize == Bytes(t.queue) + Bytes(t.inFlight)
            && 0 <= t.recvSize
            && (t.recvSize == 0 || t.recvSize < s.bufferSize)
            && |t.queue| <= s.capacity
            && Subsequence(t.taken + t.queue, t.arrived)
            && Subsequence(t.taken, t.arrived)
  {
    RunKeepsAccounted(s, events);
    var t := Run(s, events);
    SubsequencePrefix(t.taken, t.queue, t.arrived);
  }

  /** Data counts as received exactly when it is encrypted and comes from a registered address, or from the peer. */
  lemma ReceivedIff(s: State, source: UdpAddr, encrypted: bool, data: seq<bv8>)
    ensures Step(s, User(source, encrypted, data)).arrived ==
              if encrypted && s.isListener && source in s.udpAddrToSessAddr
              then s.arrived + [Datagram(data, Some(s.udpAddrToSessAddr[source]))]
              else if encrypted && !s.isListener && s.peer == Some(source) then s.arrived + [Datagram(data, None)]
              else s.arrived
  {
  }

  /** Every datagram received meets room for its bytes and a free place in the queue. */
  predicate NeverOverflows(s: State, events: seq<Event>)
    requires EnabledRun(s, events)
    decreases |events|
  {
    events == [] || (
      && (events[0].User? && Step(s, events[0]).arrived != s.arrived ==>
            s.recvSize + |events[0].data| < s.bufferSize && |s.queue| < s.capacity)
      && NeverOverflows(Step(s, events[0]), events[1..]))
  }

  /** As long as nothing overflows nothing is lost: readers have, or will find in the queue, all that was received. */
  lemma {:induction false} NothingDropped(s: State, events: seq<Event>)
    requires EnabledRun(s, events) && NeverOverflows(s, events) && s.taken + s.queue == s.arrived
    ensures Run(s, events).taken + Run(s, events).queue == Run(s, events).arrived
    decreases |events|
  {
    if events != [] {
      var next := Step(s, events[0]);
      assert next.taken + next.queue == next.arrived;
      NothingDropped(next, events[1..]);
    }
  }

  /** The positions among the arrivals of the datagrams that readers got: they only ever grow. */
  lemma DeliveryPositions(s: State, events: seq<Event>) returns (at: seq<nat>)
    requires Accounted(s) && EnabledRun(s, events)
    ensures var t := Run(s, events);
            && |at| == |t.taken|
            && (forall i :: 0 <= i < |at| ==> at[i] < |t.arrived| && t.taken[i] == t.arrived[at[i]])
            && (forall i, j :: 0 <= i < j < |at| ==> at[i] < at[j])
  {
    ReceiveAccounting(s, events);
    at := SubsequenceEmbeds(Run(s, events).taken, Run(s, events).arrived);
  }

  // --- Address maps ---

  /** A dialer's peer never comes back, so from its closing on every look at the peer is a fault. */
  lemma {:induction false} PeerStaysMissing(s: State, events: seq<Event>)
    requires PeerMissing(s) && EnabledRun(s, events)
    ensures PeerMissing(Run(s, events))
    decreases |events|
  {
    if events != [] {
      PeerStaysMissing(Step(s, events[0]), events[1..]);
    }
  }

  ghost predicate Coherent(s: State) {
    && (forall a :: a in s.udpAddrToSessAddr ==>
          var u := s.udpAddrToSessAddr[a];
          u.udpAddr == a && u.key in s.sessKeyToSessAddr && s.sessKeyToSessAddr[u.key] == u)
    && (forall k :: k in s.sessKeyToSessAddr ==> s.sessKeyToSessAddr[k].key == k)
  }

  lemma StepKeepsCoherent(s: State, e: Event)
    requires Coherent(s) && Enabled(s, e)
    ensures Coherent(Step(s, e))
  {
  }

  /** The two maps stay coherent over every run, even when sessions share or reuse a UDP address. */
  lemma {:induction false} MapsStayCoherent(s: State, events: seq<Event>)
    requires Coherent(s) && EnabledRun(s, events)
    ensures Coherent(Run(s, events))
    decreases |events|
  {
    if events != [] {
      StepKeepsCoherent(s, events[0]);
      MapsStayCoherent(Step(s, events[0]), events[1..]);
    }
  }

  /** Where `WriteTo` sends: the registered address of the session a datagram came from. */
  function ReplyAddress(s: State, to: SessionAddr): Option<UdpAddr> {
    if to.key in s.sessKeyToSessAddr then Some(s.sessKeyToSessAddr[to.key].udpAddr) else None
  }

  /** The steps that end a listener's session. */
  predicate Ends(s: State, e: Event, key: Key) {
    match e
    case CloseMessage(source) => source in s.udpAddrToSessAddr && s.udpAddrToSessAddr[source].key == key
    case ConnClosed(k) => k == key
    case CloseSession => true
    case _ => false
  }

  predicate StaysOpen(s: State, events: seq<Event>, key: Key)
    requires EnabledRun(s, events)
    decreases |events|
  {
    events == [] || (!Ends(s, events[0], key) && StaysOpen(Step(s, events[0]), events[1..], key))
  }

  /** User data counts as received only when it is encrypted and some session is registered at its source. */
  lemma OnlyRegisteredSources(s: State, source: UdpAddr, encrypted: bool, data: seq<bv8>)
    requires Coherent(s) && s.isListener
    requires Step(s, User(source, encrypted, data)).arrived != s.arrived
    ensures encrypted
    ensures exists k :: k in s.sessKeyToSessAddr && s.sessKeyToSessAddr[k].udpAddr == source
  {
  }

  /** User data from the address of every registered session is accepted. */
  ghost predicate AllAnswered(s: State) {
    forall k :: k in s.sessKeyToSessAddr ==> s.sessKeyToSessAddr[k].udpAddr in s.udpAddrToSessAddr
  }

  /** The session that a close message or a closed connection ends, if any. */
  function Closes(s: State, e: Event): Option<Key> {
    match e
    case CloseMessage(source) =>
      if source in s.udpAddrToSessAddr then Some(s.udpAddrToSessAddr[source].key) else None
    case ConnClosed(key) => if key in s.sessKeyToSessAddr then Some(key) else None
    case _ => None
  }

  /** Another registered session has the same UDP address. */
  ghost predicate SharesAddress(s: State, key: Key)
    requires key in s.sessKeyToSessAddr
  {
    exists other ::
      other in s.sessKeyToSessAddr && other != key && s.sessKeyToSessAddr[other].udpAddr == s.sessKeyToSessAddr[key].udpAddr
  }

  ghost predicate ClosesShared(s: State, e: Event)
    requires Coherent(s)
  {
    Closes(s, e).Some? && SharesAddress(s, Closes(s, e).value)
  }

  /** A step leaves every registered session answered if and only if it does not close one that shares its address. */
  lemma StaysAnsweredIff(s: State, e: Event)
    requires Coherent(s) && s.isListener && AllAnswered(s) && Enabled(s, e)
    ensures AllAnswered(Step(s, e)) <==> !ClosesShared(s, e)
  {
    if ClosesShared(s, e) {
      var key := Closes(s, e).value;
      var other :| other in s.sessKeyToSessAddr && other != key
        && s.sessKeyToSessAddr[other].udpAddr == s.sessKeyToSessAddr[key].udpAddr;
      assert other in Step(s, e).sessKeyToSessAddr;
    }
  }

  ghost predicate AlwaysAnswered(s: State, events: seq<Event>)
    requires EnabledRun(s, events)
    decreases |events|
  {
    AllAnswered(s) && (events == [] || AlwaysAnswered(Step(s, events[0]), events[1..]))
  }

  ghost predicate NeverClosesShared(s: State, events: seq<Event>)
    requires Coherent(s) && EnabledRun(s, events)
    decreases |events|
  {
    events == [] || (
      StepKeepsCoherent(s, events[0]);
      !ClosesShared(s, events[0]) && NeverClosesShared(Step(s, events[0]), events[1..]))
  }

  /** Over every run: all registered sessions are answered at every moment exactly when no shared address is closed. */
  lemma {:induction false} AlwaysAnsweredIff(s: State, events: seq<Event>)
    requires Coherent(s) && s.isListener && AllAnswered(s) && EnabledRun(s, events)
    ensures AlwaysAnswered(s, events) <==> NeverClosesShared(s, events)
    decreases |events|
  {
    if events != [] {
      var next := Step(s, events[0]);
      StepKeepsCoherent(s, events[0]);
      StaysAnsweredIff(s, events[0]);
      if AllAnswered(next) {
        AlwaysAnsweredIff(next, events[1..]);
      }
    }
  }

  /**
   So a registered session can be refused: a second one takes over its UDP address and then closes, and
   the first is still registered at that address, yet its user data is not accepted.
   */
  lemma RegisteredYetRefused(first: Key, second: Key, source: UdpAddr, data: seq<bv8>)
    requires first != second
    ensures var registered := Step(Initial(true, 1048576, 1024, None), SessionId(first, source));
            var s := Step(Step(registered, SessionId(second, source)), ConnClosed(second));
            && ReplyAddress(s, SessionAddr(first, source)) == Some(source)
            && Step(s, User(source, true, data)) == s
  {
  }

  /** A reply to the address a reader got goes back to the datagram's source while its session stays open. */
  lemma ReplyReturnsToSource(s: State, source: UdpAddr, data: seq<bv8>, events: seq<Event>)
    requires Coherent(s) && s.isListener && Belongs(s, source)
    requires var t := Step(s, User(source, true, data));
             EnabledRun(t, events) && StaysOpen(t, events, s.udpAddrToSessAddr[source].key)
    ensures var from := Received(s, source, data).from;
            from.Some? && ReplyAddress(Run(Step(s, User(source, true, data)), events), from.value) == Some(source)
  {
    var u := s.udpAddrToSessAddr[source];
    RegistrationStays(Step(s, User(source, true, data)), events, u);
  }

  lemma {:induction false} RegistrationStays(s: State, events: seq<Event>, u: SessionAddr)
    requires Coherent(s) && s.isListener && EnabledRun(s, events)
    requires u.key in s.sessKeyToSessAddr && s.sessKeyToSessAddr[u.key] == u
    requires StaysOpen(s, events, u.key)
    ensures var t := Run(s, events);
            u.key in t.sessKeyToSessAddr && t.sessKeyToSessAddr[u.key] == u
    decreases |events|
  {
    if events != [] {
      StepKeepsCoherent(s, events[0]);
      RegistrationStays(Step(s, events[0]), events[1..], u);
    }
  }

  // --- The session object ---

  class UdpSession {
    const isListener: bool
    const bufferSize: int
    const capacity: nat
    var recvChan: seq<Datagram>
    var recvSize: int
    var peer: Option<UdpAddr>
    var sessKeyToSessAddr: map<Key, SessionAddr>
    var udpAddrToSessAddr: map<UdpAddr, SessionAddr>
    ghost var inFlight: seq<Datagram>
    ghost var arrived: seq<Datagram>
    ghost var taken: seq<Datagram>

    ghost function View(): State
      reads this
    {
      State(isListener, bufferSize, capacity, recvChan, recvSize, inFlight, arrived, taken,
            peer, sessKeyToSessAddr, udpAddrToSessAddr)
    }

    ghost predicate Valid()
      reads this
    {
      Accounted(View()) && Coherent(View())
    }

    constructor (isListener: bool, bufferSize: int, capacity: nat, peer: Option<UdpAddr>)
      ensures Valid() && View() == Initial(isListener, bufferSize, capacity, peer)
    {
      this.isListener, this.bufferSize, this.capacity, this.peer := isListener, bufferSize, capacity, peer;
      recvChan, recvSize, sessKeyToSessAddr, udpAddrToSessAddr := [], 0, map[], map[];
      inFlight, arrived, taken := [], [], [];
    }

    /**
     The user-data branch of `recvMsg`; `data` is the datagram without its header byte. `nilPeer` is the
     fault of a dialer that reads a peer already dropped.
     */
    method ReceiveUser(source: UdpAddr, encrypted: bool, data: seq<bv8>) returns (queued: bool, nilPeer: bool)
      requires Valid()
      modifies this`arrived, this`recvChan, this`recvSize
      ensures Valid() && View() == Step(old(View()), User(source, encrypted, data))
      ensures queued <==>
                && encrypted && (if isListener then source in udpAddrToSessAddr else peer == Some(source))
                && old(recvSize) + |data| < bufferSize && |old(recvChan)| < capacity
      ensures queued ==>
                recvChan == old(recvChan) + [Datagram(data, if isListener then Some(udpAddrToSessAddr[source]) else None)]
      ensures recvSize == old(recvSize) + if queued then |data| else 0
      ensures !queued ==> recvChan == old(recvChan)
      ensures nilPeer <==> encrypted && !isListener && peer.None?
    {
      StepKeepsAccounted(View(), User(source, encrypted, data));
      StepKeepsCoherent(View(), User(source, encrypted, data));
      if !encrypted {
        return false, false;
      }
      var ok, from, fault := Lookup(source);
      if !ok {
        return false, fault;
      }
      queued := Enqueue(Datagram(data, from));
      nilPeer := false;
    }

    /** Queues the datagram when it fits in the budget and the channel has room; otherwise it is dropped. */
    method Enqueue(d: Datagram) returns (queued: bool)
      modifies this`arrived, this`recvChan, this`recvSize
      ensures arrived == old(arrived) + [d]
      ensures queued <==> old(recvSize) + |d.data| < bufferSize && |old(recvChan)| < capacity
      ensures recvChan == if queued then old(recvChan) + [d] else old(recvChan)
      ensures recvSize == if queued then old(recvSize) + |d.data| else old(recvSize)
    {
      arrived := arrived + [d];
      queued := recvSize + |d.data| < bufferSize && |recvChan| < capacity;
      if queued {
        recvChan := recvChan + [d];
        recvSize := recvSize + |d.data|;
      }
    }

    /** Who sent this? The listener asks its map, the dialer compares with its peer. */
    method Lookup(source: UdpAddr) returns (ok: bool, from: Option<SessionAddr>, nilPeer: bool)
      ensures ok <==> if isListener then source in udpAddrToSessAddr else peer == Some(source)
      ensures nilPeer <==> !isListener && peer.None?
      ensures ok ==> from == if isListener then Some(udpAddrToSessAddr[source]) else None
      ensures ok <==> Belongs(View(), source)
      ensures ok ==> forall data :: Datagram(data, from) == Received(View(), source, data)
    {
      if isListener {
        ok := source in udpAddrToSessAddr;
        from := if ok then Some(udpAddrToSessAddr[source]) else None;
        nilPeer := false;
      } else {
        ok, from, nilPeer := peer == Some(source), None, peer.None?;
      }
    }

    /** The channel receive in `ReadFrom`; the reader copies at most `room` bytes. */
    method TakeDatagram(room: nat) returns (msg: Datagram, copied: seq<bv8>)
      requires Valid() && recvChan != []
      modifies this`recvChan, this`inFlight, this`taken
      ensures Valid() && View() == Step(old(View()), Take)
      ensures old(recvChan) == [msg] + recvChan && inFlight == old(inFlight) + [msg] && taken == old(taken) + [msg]
      ensures copied <= msg.data && |copied| == if |msg.data| < room then |msg.data| else room
    {
      StepKeepsAccounted(View(), Take);
      StepKeepsCoherent(View(), Take);
      msg := Dequeue();
      copied := if |msg.data| < room then msg.data else msg.data[..room];
    }

    method Dequeue() returns (msg: Datagram)
      requires recvChan != []
      modifies this`recvChan, this`inFlight, this`taken
      ensures View() == Step(old(View()), Take)
      ensures old(recvChan) == [msg] + recvChan && inFlight == old(inFlight) + [msg] && taken == old(taken) + [msg]
    {
      msg := recvChan[0];
      recvChan := recvChan[1..];
      inFlight, taken := inFlight + [msg], taken + [msg];
    }

    /** The locked subtraction in `ReadFrom`, some time after the take. */
    method SettleDatagram(msg: Datagram, ghost index: nat)
      requires Valid() && index < |inFlight| && inFlight[index] == msg
      modifies this`recvSize, this`inFlight
      ensures Valid() && View() == Step(old(View()), Settle(index))
      ensures recvSize == old(recvSize) - |msg.data|
      ensures multiset(inFlight) + multiset{msg} == multiset(old(inFlight))
    {
      StepKeepsAccounted(View(), Settle(index));
      StepKeepsCoherent(View(), Settle(index));
      MultisetWithout(inFlight, index);
      recvSize := recvSize - |msg.data|;
      inFlight := inFlight[..index] + inFlight[index + 1..];
    }

    /** The session-id branch of `handleMetaData`. */
    method HandleSessionId(key: Key, source: UdpAddr)
      requires Valid()
      modifies this`sessKeyToSessAddr, this`udpAddrToSessAddr
      ensures Valid() && View() == Step(old(View()), SessionId(key, source))
      ensures isListener && key !in old(sessKeyToSessAddr) ==>
                && sessKeyToSessAddr == old(sessKeyToSessAddr)[key := SessionAddr(key, source)]
                && udpAddrToSessAddr == old(udpAddrToSessAddr)[source := SessionAddr(key, source)]
      ensures !isListener || key in old(sessKeyToSessAddr) ==>
                sessKeyToSessAddr == old(sessKeyToSessAddr) && udpAddrToSessAddr == old(udpAddrToSessAddr)
    {
      StepKeepsCoherent(View(), SessionId(key, source));
      if !isListener || key in sessKeyToSessAddr {
        return;
      }
      var usa := SessionAddr(key, source);
      sessKeyToSessAddr := sessKeyToSessAddr[key := usa];
      udpAddrToSessAddr := udpAddrToSessAddr[source := usa];
    }

    /** The close branch of `handleMetaData`. */
    method HandleCloseMessage(source: UdpAddr)
      requires Valid()
      modifies this`sessKeyToSessAddr, this`udpAddrToSessAddr, this`peer
      ensures Valid() && View() == Step(old(View()), CloseMessage(source)) && peer == old(peer)
      ensures isListener && source in old(udpAddrToSessAddr) ==>
                && sessKeyToSessAddr == old(sessKeyToSessAddr) - {old(udpAddrToSessAddr)[source].key}
                && udpAddrToSessAddr == old(udpAddrToSessAddr) - {source}
      ensures !isListener || source !in old(udpAddrToSessAddr) ==> View() == old(View())
    {
      if isListener && source in udpAddrToSessAddr {
        HandleConnClosed(udpAddrToSessAddr[source].key);
      }
    }

    method HandleConnClosed(key: Key)
      requires Valid()
      modifies this`sessKeyToSessAddr, this`udpAddrToSessAddr, this`peer
      ensures Valid() && View() == Step(old(View()), ConnClosed(key))
      ensures peer == if isListener then old(peer) else None
      ensures isListener && key in old(sessKeyToSessAddr) ==>
                && sessKeyToSessAddr == old(sessKeyToSessAddr) - {key}
                && udpAddrToSessAddr == old(udpAddrToSessAddr) - {old(sessKeyToSessAddr)[key].udpAddr}
      ensures !isListener || key !in old(sessKeyToSessAddr) ==>
                sessKeyToSessAddr == old(sessKeyToSessAddr) && udpAddrToSessAddr == old(udpAddrToSessAddr)
    {
      StepKeepsCoherent(View(), ConnClosed(key));
      if isListener {
        if key in sessKeyToSessAddr {
          var usa := sessKeyToSessAddr[key];
          sessKeyToSessAddr := sessKeyToSessAddr - {key};
          udpAddrToSessAddr := udpAddrToSessAddr - {usa.udpAddr};
        }
      } else {
        peer := None;
      }
    }

    method Close()
      requires Valid()
      modifies this`sessKeyToSessAddr, this`udpAddrToSessAddr, this`peer
      ensures Valid() && View() == Step(old(View()), CloseSession)
      ensures isListener ==> sessKeyToSessAddr == map[] && udpAddrToSessAddr == map[] && peer == old(peer)
      ensures !isListener ==> peer == None && View() == old(View()).(peer := None)
    {
      if isListener {
        sessKeyToSessAddr, udpAddrToSessAddr := map[], map[];
      } else {
        peer := None;
      }
    }

    /**
     `getUdpAddr`: a dialer answers with its peer, a listener only for a registered session. `None` is the
     error, or the fault of a dialer without a peer.
     */
    method GetUdpAddr(to: Option<SessionAddr>) returns (addr: Option<UdpAddr>, nilPeer: bool)
      requires Valid()
      ensures nilPeer <==> !isListener && peer.None?
      ensures !isListener ==> addr == peer
      ensures isListener ==>
                addr == if to.Some? && to.value.key in sessKeyToSessAddr
                        then Some(sessKeyToSessAddr[to.value.key].udpAddr) else None
    {
      if !isListener {
        return peer, peer.None?;
      }
      if to.None? || to.value.key !in sessKeyToSessAddr {
        return None, false;
      }
      return Some(sessKeyToSessAddr[to.value.key].udpAddr), false;
    }
  }
}

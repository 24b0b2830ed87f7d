/**
 Connection bookkeeping of the relay client (dchat-tuna/nkn-tuna-session/client.go).

 Any number of connection handlers run at once. Each enters and leaves under one lock, and
 everything the client knows about them is kept in counters: per session key, and per
 (remote address, connection address). `History` is what the counters stand for: the set of
 handlers that are alive, the addresses pinned from outside, the sessions that are open and the
 keys already retired. Each locked region of the source is one method of `TunaSessionClient`,
 proved to change the maps in step with one transition of `History`.
 */
module RelayClient {
  import opened Wrappers
  import Decimal

  datatype Address = Address(text: string)  // an NKN address, or the text of a host and port

  datatype Key = SessionKey(remote: Address, sessionId: string)

  datatype PubAddr = PubAddr(ip: string, port: nat)

  /** The text both `PubAddr.String` and the pinning code use as a map key. */
  function HostPort(addr: PubAddr): Address {
    Address(addr.ip + ":" + Decimal.PrintNat(addr.port))
  }

  /** The text tells addresses apart: the port is what follows the last colon. */
  lemma HostPortIsInjective(a: PubAddr, b: PubAddr)
    ensures HostPort(a) == HostPort(b) <==> a == b
  {
    if HostPort(a) == HostPort(b) {
      var x, y := Decimal.PrintNat(a.port), Decimal.PrintNat(b.port);
      SplitAtLastColon(a.ip, b.ip, x, y);
      Decimal.PrintedValue(a.port);
      Decimal.PrintedValue(b.port);
    }
  }

  lemma SplitAtLastColon(a: string, b: string, x: string, y: string)
    requires Decimal.AllDigits(x) && Decimal.AllDigits(y) && a + ":" + x == b + ":" + y
    ensures a == b && x == y
  {
    var text := a + ":" + x;
    assert text[|a|] == ':' && text[|b|] == ':';
    assert forall k :: |a| < k < |text| ==> text[k] == x[k - |a| - 1];
    assert forall k :: |b| < k < |text| ==> text[k] == y[k - |b| - 1];
    assert |a| == |b|;
    assert a == text[..|a|] && b == text[..|b|] && x == text[|a| + 1..] && y == text[|b| + 1..];
  }

  datatype PubAddrs = PubAddrs(addrs: seq<Option<PubAddr>>, sessionClosed: bool)

  /** One run of `handleConn` past its early returns. */
  datatype Handler = Handler(id: nat, key: Key, remote: Address, conn: Address)

  datatype History = History(
    live: set<Handler>,
    pinned: set<(Address, Address)>,
    open: set<Key>,
    retired: set<Key>,
    cache: map<Address, PubAddrs>)

  function LiveOf(live: set<Handler>, key: Key): nat {
    |set h | h in live && h.key == key|
  }

  function LiveAt(live: set<Handler>, remote: Address, conn: Address): nat {
    |set h | h in live && h.remote == remote && h.conn == conn|
  }

  function Pin(pinned: set<(Address, Address)>, remote: Address, conn: Address): nat {
    if (remote, conn) in pinned then 1 else 0
  }

  /** Live or pinned: what keeps a remote connection address usable. */
  predicate InUse(h: History, remote: Address, conn: Address) {
    LiveAt(h.live, remote, conn) + Pin(h.pinned, remote, conn) > 0
  }

  // --- Transitions of the history ---

  datatype Event =
    | Accept(key: Key, sessionCreated: bool)
    | Dial(key: Key)
    | Enter(handler: Handler)
    | Exit(handler: Handler)
    | Sweep(dead: set<Key>)
    | SetCached(remote: Address, addrs: PubAddrs)
    | CacheFetched(remote: Address, addrs: PubAddrs)

  /** The listed addresses that `SetCachedPubAddrs` pins: usable ones that nothing holds yet. */
  function NewPins(h: History, remote: Address, listed: seq<Option<PubAddr>>): set<(Address, Address)> {
    if listed == [] then {} else
      var addr := listed[|listed| - 1];
      NewPins(h, remote, listed[..|listed| - 1])
      + (if Usable(addr) && !InUse(h, remote, HostPort(addr.value)) then {(remote, HostPort(addr.value))} else {})
  }

  predicate Usable(addr: Option<PubAddr>) {
    addr.Some? && addr.value.ip != "" && addr.value.port != 0
  }

  predicate AllPresent(addrs: seq<Option<PubAddr>>) {
    forall i :: 0 <= i < |addrs| ==> addrs[i].Some?
  }

  predicate NoneUsable(addrs: seq<Option<PubAddr>>) {
    forall i :: 0 <= i < |addrs| ==> !Usable(addrs[i])
  }

  /** An address with both a host and a port comes before any null entry. */
  predicate UsableFirst(addrs: seq<Option<PubAddr>>) {
    exists i :: 0 <= i < |addrs| && addrs[i].Some? && addrs[i].value.ip != "" && addrs[i].value.port != 0
      && AllPresent(addrs[..i])
  }

  /** A null entry comes before any usable address. */
  predicate NullFirst(addrs: seq<Option<PubAddr>>) {
    exists i :: 0 <= i < |addrs| && addrs[i].None? && NoneUsable(addrs[..i])
  }

  function Retire(h: History, keys: set<Key>): History {
    h.(open := h.open - keys, retired := h.retired + keys)
  }

  function Step(h: History, e: Event): History {
    match e
    case Accept(key, created) =>
      if key in h.open || key in h.retired || !created then h else h.(open := h.open + {key})
    case Dial(key) => h.(open := h.open + {key})
    case Enter(x) => if x.key in h.open then h.(live := h.live + {x}) else h
    case Exit(x) =>
      var left := h.(live := h.live - {x});
      var cached := if InUse(left, x.remote, x.conn) then left else left.(cache := left.cache - {x.remote});
      if x.key in h.open && LiveOf(left.live, x.key) == 0 then Retire(cached, {x.key}) else cached
    case Sweep(dead) => Retire(h, h.open * dead)
    case SetCached(remote, addrs) =>
      h.(cache := h.cache[remote := addrs], pinned := h.pinned + NewPins(h, remote, addrs.addrs))
    case CacheFetched(remote, addrs) => h.(cache := h.cache[remote := addrs])
  }

  /** What the environment guarantees: handlers are distinct goroutines, only live ones leave, dialled ids are fresh. */
  predicate Enabled(h: History, e: Event) {
    match e
    case Enter(x) => x !in h.live
    case Exit(x) => x in h.live
    case Dial(key) => key !in h.open && key !in h.retired
    case _ => true
  }

  const INITIAL := History({}, {}, {}, {}, map[])

  predicate EnabledRun(h: History, events: seq<Event>)
    decreases |events|
  {
    events == [] || (Enabled(h, events[0]) && EnabledRun(Step(h, events[0]), events[1..]))
  }

  function Run(h: History, events: seq<Event>): History
    decreases |events|
  {
    if events == [] then h else Run(Step(h, events[0]), events[1..])
  }

  // --- What holds in every reachable history ---

  ghost predicate WellFormed(h: History) {
    && h.open !! h.retired
    && (forall x :: x in h.live ==> x.key in h.open || x.key in h.retired)
  }

  /** The keys whose session this transition closes and forgets. */
  function RetiredBy(h: History, e: Event): set<Key> {
    h.open - Step(h, e).open
  }

  /** A transition never retires a key twice, never reopens one, and drops no pin. */
  lemma StepKeepsWellFormed(h: History, e: Event)
    requires WellFormed(h) && Enabled(h, e)
    ensures WellFormed(Step(h, e))
    ensures RetiredBy(h, e) !! h.retired && Step(h, e).retired == h.retired + RetiredBy(h, e)
    ensures h.pinned <= Step(h, e).pinned
  {
  }

  /** Over every run: once retired a key never opens again, so no later transition can retire it. */
  lemma {:induction false} RetiredAtMostOnce(h: History, events: seq<Event>)
    requires WellFormed(h) && EnabledRun(h, events)
    ensures WellFormed(Run(h, events))
    ensures h.retired <= Run(h, events).retired && h.pinned <= Run(h, events).pinned
    ensures h.open <= Run(h, events).open + Run(h, events).retired
    ensures Run(h, events).open !! h.retired
    decreases |events|
  {
    if events != [] {
      StepKeepsWellFormed(h, events[0]);
      RetiredAtMostOnce(Step(h, events[0]), events[1..]);
    }
  }

  /** An address pinned once is in use after every run, so its count never drains. */
  lemma PinnedNeverDrains(h: History, events: seq<Event>, remote: Address, conn: Address)
    requires WellFormed(h) && EnabledRun(h, events)
    requires (remote, conn) in h.pinned
    ensures InUse(Run(h, events), remote, conn)
  {
    RetiredAtMostOnce(h, events);
  }

  /** In a run that starts empty, a handler whose session is gone leaves without closing anything. */
  lemma {:induction false} SurvivorsCloseNothing(events: seq<Event>, x: Handler)
    requires EnabledRun(INITIAL, events)
    requires x in Run(INITIAL, events).live && x.key !in Run(INITIAL, events).open
    ensures x.key in Run(INITIAL, events).retired
    ensures RetiredBy(Run(INITIAL, events), Exit(x)) == {}
  {
    RetiredAtMostOnce(INITIAL, events);
  }

  // --- What the maps stand for ---

  /** A Go map read: an absent entry counts as zero. */
  function CountOf(connCount: map<Key, int>, key: Key): int {
    if key in connCount then connCount[key] else 0
  }

  function AddrCount(counts: map<Address, map<Address, int>>, remote: Address, conn: Address): int {
    if remote in counts && conn in counts[remote] then counts[remote][conn] else 0
  }

  ghost predicate SessionAccounting(connCount: map<Key, int>, live: set<Handler>, open: set<Key>, retired: set<Key>) {
    && (forall k {:trigger CountOf(connCount, k)} :: k in open ==> CountOf(connCount, k) == LiveOf(live, k))
    && (forall k {:trigger CountOf(connCount, k)} :: k !in open ==> CountOf(connCount, k) <= 0)
    && (forall k :: k in connCount ==> k in open || k in retired)
  }

  ghost predicate AddressAccounting(counts: map<Address, map<Address, int>>, live: set<Handler>,
                                    pinned: set<(Address, Address)>)
  {
    && (forall r, a {:trigger AddrCount(counts, r, a)} :: AddrCount(counts, r, a) == LiveAt(live, r, a) + Pin(pinned, r, a))
    && (forall r, a :: r in counts && a in counts[r] ==> counts[r][a] > 0)
  }

  lemma LiveOfEnter(live: set<Handler>, x: Handler, k: Key)
    requires x !in live
    ensures LiveOf(live + {x}, k) == LiveOf(live, k) + (if x.key == k then 1 else 0)
  {
    var before := set h | h in live && h.key == k;
    assert (set h | h in live + {x} && h.key == k) == if x.key == k then before + {x} else before;
  }

  lemma LiveOfExit(live: set<Handler>, x: Handler, k: Key)
    requires x in live
    ensures LiveOf(live - {x}, k) == LiveOf(live, k) - (if x.key == k then 1 else 0)
  {
    LiveOfEnter(live - {x}, x, k);
    assert live - {x} + {x} == live;
  }

  lemma LiveAtEnter(live: set<Handler>, x: Handler, r: Address, a: Address)
    requires x !in live
    ensures LiveAt(live + {x}, r, a) == LiveAt(live, r, a) + (if x.remote == r && x.conn == a then 1 else 0)
  {
    var before := set h | h in live && h.remote == r && h.conn == a;
    assert (set h | h in live + {x} && h.remote == r && h.conn == a)
        == if x.remote == r && x.conn == a then before + {x} else before;
  }

  lemma LiveAtExit(live: set<Handler>, x: Handler, r: Address, a: Address)
    requires x in live
    ensures LiveAt(live - {x}, r, a) == LiveAt(live, r, a) - (if x.remote == r && x.conn == a then 1 else 0)
  {
    LiveAtEnter(live - {x}, x, r, a);
    assert live - {x} + {x} == live;
  }

  lemma NoneLiveIff(live: set<Handler>, k: Key)
    ensures LiveOf(live, k) == 0 <==> forall x :: x in live ==> x.key != k
  {
    var of := set h | h in live && h.key == k;
    assert LiveOf(live, k) == |of|;
    if !(forall x :: x in live ==> x.key != k) {
      var x :| x in live && x.key == k;
      assert x in of;
    } else {
      assert of == {};
    }
  }

  /** Some live handler is at this address, or it is pinned. */
  ghost predicate Held(h: History, remote: Address, conn: Address) {
    (remote, conn) in h.pinned || exists x :: x in h.live && x.remote == remote && x.conn == conn
  }

  lemma InUseMeansHeld(h: History, remote: Address, conn: Address)
    ensures InUse(h, remote, conn) <==> Held(h, remote, conn)
  {
    var at := set x | x in h.live && x.remote == remote && x.conn == conn;
    if Held(h, remote, conn) && (remote, conn) !in h.pinned {
      var x :| x in h.live && x.remote == remote && x.conn == conn;
      assert x in at;
    }
  }

  lemma NoneLive(live: set<Handler>, k: Key)
    requires forall x :: x in live ==> x.key != k
    ensures LiveOf(live, k) == 0
  {
  }

  // --- Each map update keeps the accounting ---

  /** The counter map after one more connection at (remote, conn). */
  function Bump(counts: map<Address, map<Address, int>>, remote: Address, conn: Address): map<Address, map<Address, int>> {
    if remote in counts then counts[remote := counts[remote][conn := AddrCount(counts, remote, conn) + 1]]
    else counts[remote := map[conn := 1]]
  }

  lemma EnterKeepsSessions(connCount: map<Key, int>, h: History, x: Handler)
    requires SessionAccounting(connCount, h.live, h.open, h.retired) && x !in h.live && x.key in h.open
    ensures SessionAccounting(connCount[x.key := CountOf(connCount, x.key) + 1], h.live + {x}, h.open, h.retired)
  {
    var after := connCount[x.key := CountOf(connCount, x.key) + 1];
    forall k {:trigger CountOf(after, k)}
      ensures k in h.open ==> CountOf(after, k) == LiveOf(h.live + {x}, k)
      ensures k !in h.open ==> CountOf(after, k) <= 0
    {
      LiveOfEnter(h.live, x, k);
      assert if k in h.open then CountOf(connCount, k) == LiveOf(h.live, k) else CountOf(connCount, k) <= 0;
    }
  }

  lemma EnterKeepsAddresses(counts: map<Address, map<Address, int>>, h: History, x: Handler)
    requires AddressAccounting(counts, h.live, h.pinned) && x !in h.live
    ensures AddressAccounting(Bump(counts, x.remote, x.conn), h.live + {x}, h.pinned)
  {
    var after := Bump(counts, x.remote, x.conn);
    forall r, a {:trigger AddrCount(after, r, a)}
      ensures AddrCount(after, r, a) == LiveAt(h.live + {x}, r, a) + Pin(h.pinned, r, a)
    {
      LiveAtEnter(h.live, x, r, a);
      assert AddrCount(counts, r, a) == LiveAt(h.live, r, a) + Pin(h.pinned, r, a);
    }
  }

  lemma ExitKeepsSessions(connCount: map<Key, int>, h: History, x: Handler)
    requires SessionAccounting(connCount, h.live, h.open, h.retired) && WellFormed(h) && x in h.live
    ensures var counted := connCount[x.key := CountOf(connCount, x.key) - 1];
            var left := Step(h, Exit(x));
            && (counted[x.key] == 0 <==> x.key in h.open && LiveOf(left.live, x.key) == 0)
            && SessionAccounting(if counted[x.key] == 0 then counted - {x.key} else counted,
                                 left.live, left.open, left.retired)
  {
    var counted := connCount[x.key := CountOf(connCount, x.key) - 1];
    var left := Step(h, Exit(x));
    var after := if counted[x.key] == 0 then counted - {x.key} else counted;
    LiveOfExit(h.live, x, x.key);
    forall k {:trigger CountOf(after, k)}
      ensures k in left.open ==> CountOf(after, k) == LiveOf(left.live, k)
      ensures k !in left.open ==> CountOf(after, k) <= 0
    {
      LiveOfExit(h.live, x, k);
      assert if k in h.open then CountOf(connCount, k) == LiveOf(h.live, k) else CountOf(connCount, k) <= 0;
    }
  }

  /** The counter map after one connection at (remote, conn) has gone; empty entries disappear. */
  function Drain(counts: map<Address, map<Address, int>>, remote: Address, conn: Address): map<Address, map<Address, int>>
    requires remote in counts && conn in counts[remote]
  {
    var inner := counts[remote][conn := counts[remote][conn] - 1];
    if inner[conn] > 0 then counts[remote := inner]
    else if inner - {conn} == map[] then counts - {remote}
    else counts[remote := inner - {conn}]
  }

  lemma ExitKeepsAddresses(counts: map<Address, map<Address, int>>, h: History, x: Handler)
    requires AddressAccounting(counts, h.live, h.pinned) && x in h.live
    ensures x.remote in counts && x.conn in counts[x.remote]
    ensures AddressAccounting(Drain(counts, x.remote, x.conn), h.live - {x}, h.pinned)
    ensures counts[x.remote][x.conn] > 1 <==> InUse(h.(live := h.live - {x}), x.remote, x.conn)
  {
    LiveAtExit(h.live, x, x.remote, x.conn);
    assert AddrCount(counts, x.remote, x.conn) == LiveAt(h.live, x.remote, x.conn) + Pin(h.pinned, x.remote, x.conn);
    var after := Drain(counts, x.remote, x.conn);
    forall r, a {:trigger AddrCount(after, r, a)}
      ensures AddrCount(after, r, a) == LiveAt(h.live - {x}, r, a) + Pin(h.pinned, r, a)
    {
      LiveAtExit(h.live, x, r, a);
      assert AddrCount(counts, r, a) == LiveAt(h.live, r, a) + Pin(h.pinned, r, a);
      if r == x.remote && a != x.conn && a in counts[r] {
        assert a in counts[r][x.conn := counts[r][x.conn] - 1] - {x.conn};
      }
    }
  }

  lemma RetireKeepsSessions(connCount: map<Key, int>, h: History, key: Key)
    requires SessionAccounting(connCount, h.live, h.open, h.retired) && WellFormed(h) && key in h.open
    ensures var after := Retire(h, {key});
            WellFormed(after) && SessionAccounting(connCount - {key}, after.live, after.open, after.retired)
  {
    forall k {:trigger CountOf(connCount - {key}, k)}
      ensures CountOf(connCount - {key}, k) == if k == key then 0 else CountOf(connCount, k)
    {
    }
  }

  lemma RetireOneMore(h: History, keys: set<Key>, key: Key)
    requires key !in keys
    ensures Retire(Retire(h, keys), {key}) == Retire(h, keys + {key})
  {
  }

  lemma PinKeepsAddresses(counts: map<Address, map<Address, int>>, h: History, remote: Address, conn: Address)
    requires AddressAccounting(counts, h.live, h.pinned) && remote in counts && !InUse(h, remote, conn)
    ensures AddressAccounting(counts[remote := counts[remote][conn := 1]], h.live, h.pinned + {(remote, conn)})
  {
    var after := counts[remote := counts[remote][conn := 1]];
    forall r, a {:trigger AddrCount(after, r, a)}
      ensures AddrCount(after, r, a) == LiveAt(h.live, r, a) + Pin(h.pinned + {(remote, conn)}, r, a)
    {
      assert AddrCount(counts, r, a) == LiveAt(h.live, r, a) + Pin(h.pinned, r, a);
    }
  }

  lemma EmptyEntryKeepsAddresses(counts: map<Address, map<Address, int>>, h: History, remote: Address)
    requires AddressAccounting(counts, h.live, h.pinned) && remote !in counts
    ensures AddressAccounting(counts[remote := map[]], h.live, h.pinned)
  {
    forall r, a {:trigger AddrCount(counts[remote := map[]], r, a)}
      ensures AddrCount(counts[remote := map[]], r, a) == AddrCount(counts, r, a)
    {
    }
  }

  lemma NewPinsIgnoreCache(h: History, g: History, remote: Address, listed: seq<Option<PubAddr>>)
    requires h.live == g.live && h.pinned == g.pinned
    ensures NewPins(h, remote, listed) == NewPins(g, remote, listed)
  {
  }

  /** This text is that of a listed address with both a host and a port. */
  ghost predicate Lists(listed: seq<Option<PubAddr>>, a: Address) {
    exists i :: 0 <= i < |listed| && listed[i].Some? && listed[i].value.ip != "" && listed[i].value.port != 0
      && HostPort(listed[i].value) == a
  }

  lemma {:induction false} NewPinsAreListed(h: History, remote: Address, listed: seq<Option<PubAddr>>)
    ensures forall r, a :: (r, a) in NewPins(h, remote, listed) <==>
              r == remote && Lists(listed, a) && !Held(h, r, a)
  {
    if listed != [] {
      var front, last := listed[..|listed| - 1], listed[|listed| - 1];
      NewPinsAreListed(h, remote, front);
      forall a
        ensures Lists(listed, a) <==> Lists(front, a) || (Usable(last) && HostPort(last.value) == a)
        ensures InUse(h, remote, a) <==> Held(h, remote, a)
      {
        InUseMeansHeld(h, remote, a);
        assert forall i :: 0 <= i < |front| ==> front[i] == listed[i];
        if Lists(front, a) {
          var i :| 0 <= i < |front| && front[i].Some? && front[i].value.ip != "" && front[i].value.port != 0
            && HostPort(front[i].value) == a;
          assert listed[i] == front[i];
        }
        if Usable(last) && HostPort(last.value) == a {
          assert listed[|listed| - 1] == last;
        }
      }
    }
  }

  /** Holding the next usable address after the first `i` pins what the first `i + 1` call for. */
  lemma HoldNext(h: History, remote: Address, listed: seq<Option<PubAddr>>, i: nat, mid: History)
    requires i < |listed|
    requires mid == h.(pinned := h.pinned + NewPins(h, remote, listed[..i]))
    ensures mid.(pinned := mid.pinned + if Usable(listed[i]) && !InUse(mid, remote, HostPort(listed[i].value))
                                        then {(remote, HostPort(listed[i].value))} else {})
         == h.(pinned := h.pinned + NewPins(h, remote, listed[..i + 1]))
  {
    assert listed[..i + 1][..i] == listed[..i];
    if Usable(listed[i]) {
      var p := (remote, HostPort(listed[i].value));
      assert InUse(mid, p.0, p.1) <==> InUse(h, p.0, p.1) || p in NewPins(h, remote, listed[..i]);
    }
  }

  class TunaSessionClient {
    var sessions: set<Key>
    var connCount: map<Key, int>
    var addrConnCount: map<Address, map<Address, int>>
    var pubAddrs: map<Address, PubAddrs>
    var closedSessionKey: set<Key>
    ghost var hist: History

    ghost predicate Valid()
      reads this
    {
      && WellFormed(hist)
      && sessions == hist.open
      && closedSessionKey == hist.retired
      && pubAddrs == hist.cache
      && SessionAccounting(connCount, hist.live, hist.open, hist.retired)
      && AddressAccounting(addrConnCount, hist.live, hist.pinned)
    }

    constructor ()
      ensures Valid() && hist == INITIAL
    {
      sessions, connCount, addrConnCount, pubAddrs, closedSessionKey := {}, map[], map[], map[], {};
      hist := INITIAL;
    }

    /** The registration part of `listenNet`: is there a session to attach the accepted connection to? */
    method AcceptSession(key: Key, sessionCreated: bool) returns (attached: bool, isNew: bool)
      requires Valid()
      modifies this
      ensures Valid() && hist == Step(old(hist), Accept(key, sessionCreated))
      ensures attached <==> key in old(sessions) || (key !in old(closedSessionKey) && sessionCreated)
      ensures isNew <==> attached && key !in old(sessions)
      ensures sessions == if attached then old(sessions) + {key} else old(sessions)
      ensures closedSessionKey == old(closedSessionKey) && hist.live == old(hist.live)
    {
      if key !in sessions {
        if key in closedSessionKey || !sessionCreated {
          return false, false;
        }
        NoneLive(hist.live, key);
        sessions := sessions + {key};
        hist := Step(hist, Accept(key, sessionCreated));
        return true, true;
      }
      return true, false;
    }

    /** The registration in `DialWithConfig`, under a session id drawn at random. */
    method DialSession(key: Key)
      requires Valid() && Enabled(hist, Dial(key))
      modifies this
      ensures Valid() && hist == Step(old(hist), Dial(key))
      ensures sessions == old(sessions) + {key} && closedSessionKey == old(closedSessionKey)
      ensures hist.live == old(hist.live)
    {
      NoneLive(hist.live, key);
      sessions := sessions + {key};
      hist := Step(hist, Dial(key));
    }

    /** The first locked region of `handleConn`; the caller goes on only when a session was found. */
    method EnterHandler(key: Key, remote: Address, conn: Address, ghost id: nat) returns (found: bool)
      requires Valid() && Enabled(hist, Enter(Handler(id, key, remote, conn)))
      modifies this
      ensures Valid() && hist == Step(old(hist), Enter(Handler(id, key, remote, conn)))
      ensures found <==> key in old(sessions)
      ensures hist.live == if found then old(hist.live) + {Handler(id, key, remote, conn)} else old(hist.live)
      ensures sessions == old(sessions) && closedSessionKey == old(closedSessionKey) && pubAddrs == old(pubAddrs)
    {
      if key !in sessions {
        return false;
      }
      ghost var x := Handler(id, key, remote, conn);
      EnterKeepsSessions(connCount, hist, x);
      EnterKeepsAddresses(addrConnCount, hist, x);
      StepKeepsWellFormed(hist, Enter(x));
      connCount := connCount[key := CountOf(connCount, key) + 1];
      if remote in addrConnCount {
        addrConnCount := addrConnCount[remote := addrConnCount[remote][conn := AddrCount(addrConnCount, remote, conn) + 1]];
      } else {
        addrConnCount := addrConnCount[remote := map[conn := 1]];
      }
      hist := Step(hist, Enter(x));
      return true;
    }

    /** The deferred locked region of `handleConn`. The result says whether this handler closes the session. */
    method ExitHandler(key: Key, remote: Address, conn: Address, ghost id: nat) returns (shouldClose: bool)
      requires Valid() && Enabled(hist, Exit(Handler(id, key, remote, conn)))
      modifies this
      ensures Valid() && hist == Step(old(hist), Exit(Handler(id, key, remote, conn)))
      ensures hist.live == old(hist.live) - {Handler(id, key, remote, conn)} && hist.pinned == old(hist.pinned)
      ensures shouldClose <==> key in old(sessions) && forall x :: x in hist.live ==> x.key != key
      ensures sessions == if shouldClose then old(sessions) - {key} else old(sessions)
      ensures closedSessionKey == if shouldClose then old(closedSessionKey) + {key} else old(closedSessionKey)
      ensures pubAddrs == if Held(hist, remote, conn) then old(pubAddrs) else old(pubAddrs) - {remote}
    {
      ghost var x := Handler(id, key, remote, conn);
      NoneLiveIff(hist.live - {x}, key);
      InUseMeansHeld(hist.(live := hist.live - {x}), remote, conn);
      ghost var before := hist;
      ExitKeepsSessions(connCount, before, x);
      StepKeepsWellFormed(before, Exit(x));

      connCount := connCount[key := CountOf(connCount, key) - 1];
      LeaveAddress(remote, conn, x);

      shouldClose := connCount[key] == 0;
      if shouldClose {
        sessions := sessions - {key};
        connCount := connCount - {key};
        closedSessionKey := closedSessionKey + {key};
      }
      hist := Step(before, Exit(x));
    }

    /** The address half of the exit: count down, drop drained entries, and forget the cached answer. */
    method LeaveAddress(remote: Address, conn: Address, ghost x: Handler)
      requires AddressAccounting(addrConnCount, hist.live, hist.pinned)
      requires x in hist.live && x.remote == remote && x.conn == conn
      modifies this`addrConnCount, this`pubAddrs
      ensures AddressAccounting(addrConnCount, hist.live - {x}, hist.pinned)
      ensures pubAddrs == if InUse(hist.(live := hist.live - {x}), remote, conn) then old(pubAddrs)
                          else old(pubAddrs) - {remote}
    {
      ExitKeepsAddresses(addrConnCount, hist, x);
      addrConnCount := addrConnCount[remote := addrConnCount[remote][conn := addrConnCount[remote][conn] - 1]];
      if addrConnCount[remote][conn] <= 0 {
        addrConnCount := addrConnCount[remote := addrConnCount[remote] - {conn}];
        if addrConnCount[remote] == map[] {
          addrConnCount := addrConnCount - {remote};
        }
        pubAddrs := pubAddrs - {remote};
      }
      assert addrConnCount == Drain(old(addrConnCount), remote, conn);
    }

    /** Forgetting one session, as the sweep does inside its loop. */
    method Forget(key: Key)
      requires Valid() && key in sessions
      modifies this
      ensures Valid() && hist == Retire(old(hist), {key})
    {
      RetireKeepsSessions(connCount, hist, key);
      sessions := sessions - {key};
      connCount := connCount - {key};
      closedSessionKey := closedSessionKey + {key};
      hist := Retire(hist, {key});
    }

    /** One pass of `removeClosedSessions`; `dead` are the sessions that report themselves closed. */
    method RemoveClosedSessions(dead: set<Key>)
      requires Valid()
      modifies this
      ensures Valid() && hist == Step(old(hist), Sweep(dead))
      ensures sessions == old(sessions) - dead
      ensures closedSessionKey == old(closedSessionKey) + old(sessions) * dead
      ensures hist.live == old(hist.live) && pubAddrs == old(pubAddrs)
    {
      ghost var before := hist;
      var todo := sessions;
      ghost var swept := {};
      while todo != {}
        invariant Valid()
        invariant todo <= before.open && todo <= hist.open
        invariant swept == (before.open - todo) * dead
        invariant hist == Retire(before, swept)
        decreases todo
      {
        var key :| key in todo;
        todo := todo - {key};
        if key in dead {
          RetireOneMore(before, swept, key);
          Forget(key);
          swept := swept + {key};
        }
      }
      assert swept == before.open * dead;
    }

    /** Pin one listed address unless a connection or an earlier pin already holds it. */
    method Hold(remote: Address, conn: Address)
      requires Valid() && remote in addrConnCount
      modifies this
      ensures Valid() && remote in addrConnCount
      ensures hist == if InUse(old(hist), remote, conn) then old(hist)
                      else old(hist).(pinned := old(hist).pinned + {(remote, conn)})
    {
      assert AddrCount(addrConnCount, remote, conn) == LiveAt(hist.live, remote, conn) + Pin(hist.pinned, remote, conn);
      if AddrCount(addrConnCount, remote, conn) <= 0 {
        PinKeepsAddresses(addrConnCount, hist, remote, conn);
        addrConnCount := addrConnCount[remote := addrConnCount[remote][conn := 1]];
        hist := hist.(pinned := hist.pinned + {(remote, conn)});
      }
    }

    /** `SetCachedPubAddrs`: preload the relay addresses of a remote, pinning those nothing holds yet. */
    method SetCachedPubAddrs(remote: Address, pubs: PubAddrs)
      requires Valid()
      modifies this
      ensures Valid() && hist == Step(old(hist), SetCached(remote, pubs))
      ensures pubAddrs == old(pubAddrs)[remote := pubs] && sessions == old(sessions) && hist.live == old(hist.live)
      ensures forall r, a :: (r, a) in hist.pinned <==>
                (r, a) in old(hist.pinned) || (r == remote && Lists(pubs.addrs, a) && !Held(old(hist), r, a))
    {
      NewPinsAreListed(hist, remote, pubs.addrs);
      ghost var before := hist.(cache := hist.cache[remote := pubs]);
      Preload(remote, pubs);
      HoldAll(remote, pubs.addrs);
      NewPinsIgnoreCache(old(hist), before, remote, pubs.addrs);
    }

    method Preload(remote: Address, pubs: PubAddrs)
      requires Valid()
      modifies this
      ensures Valid() && remote in addrConnCount
      ensures hist == old(hist).(cache := old(hist).cache[remote := pubs])
    {
      pubAddrs := pubAddrs[remote := pubs];
      if remote !in addrConnCount {
        EmptyEntryKeepsAddresses(addrConnCount, hist, remote);
        addrConnCount := addrConnCount[remote := map[]];
      }
      hist := hist.(cache := hist.cache[remote := pubs]);
    }

    method HoldAll(remote: Address, addrs: seq<Option<PubAddr>>)
      requires Valid() && remote in addrConnCount
      modifies this
      ensures Valid()
      ensures hist == old(hist).(pinned := old(hist).pinned + NewPins(old(hist), remote, addrs))
    {
      for i := 0 to |addrs|
        invariant Valid() && remote in addrConnCount
        invariant hist == old(hist).(pinned := old(hist).pinned + NewPins(old(hist), remote, addrs[..i]))
      {
        var addr := addrs[i];
        HoldNext(old(hist), remote, addrs, i, hist);
        if Usable(addr) {
          Hold(remote, HostPort(addr.value));
        }
      }
      assert addrs[..|addrs|] == addrs;
    }

    /**
     Caching in `getPubAddrsFromRemote`: a fetched answer is kept only when it lists a usable address.
     `nilEntry` is the fault of meeting a null entry before one.
     */
    method CacheFetchedPubAddrs(remote: Address, pubs: PubAddrs) returns (usable: bool, nilEntry: bool)
      requires Valid()
      modifies this
      ensures Valid()
      ensures usable <==> !pubs.sessionClosed && UsableFirst(pubs.addrs)
      ensures nilEntry <==> !pubs.sessionClosed && NullFirst(pubs.addrs)
      ensures !(usable && nilEntry)
      ensures hist == if usable then Step(old(hist), CacheFetched(remote, pubs)) else old(hist)
      ensures pubAddrs == if usable then old(pubAddrs)[remote := pubs] else old(pubAddrs)
    {
      if pubs.sessionClosed {
        return false, false;
      }
      for i := 0 to |pubs.addrs|
        invariant AllPresent(pubs.addrs[..i]) && NoneUsable(pubs.addrs[..i])
        invariant Valid() && hist == old(hist)
      {
        assert pubs.addrs[..i + 1] == pubs.addrs[..i] + [pubs.addrs[i]];
        if pubs.addrs[i].None? {
          assert forall k :: i < k < |pubs.addrs| ==> pubs.addrs[..k][i].None?;
          return false, true;
        }
        if Usable(pubs.addrs[i]) {
          assert forall k :: i < k < |pubs.addrs| ==> Usable(pubs.addrs[..k][i]);
          pubAddrs := pubAddrs[remote := pubs];
          hist := Step(hist, CacheFetched(remote, pubs));
          return true, false;
        }
      }
      assert pubs.addrs[..|pubs.addrs|] == pubs.addrs;
      return false, false;
    }

    /** `getCachedPubAddrs`: answers exactly when every listed address is live or pinned. */
    method GetCachedPubAddrs(remote: Address) returns (answer: Option<PubAddrs>)
      requires Valid()
      ensures answer.Some? <==>
        && remote in hist.cache
        && forall i :: 0 <= i < |hist.cache[remote].addrs| ==>
             hist.cache[remote].addrs[i].Some? && Held(hist, remote, HostPort(hist.cache[remote].addrs[i].value))
      ensures answer.Some? ==> answer.value == hist.cache[remote]
    {
      if remote !in pubAddrs {
        return None;
      }
      var cached := pubAddrs[remote];
      for i := 0 to |cached.addrs|
        invariant forall j :: 0 <= j < i ==> cached.addrs[j].Some? && Held(hist, remote, HostPort(cached.addrs[j].value))
      {
        if cached.addrs[i].None? {
          return None;
        }
        InUseMeansHeld(hist, remote, HostPort(cached.addrs[i].value));
        assert AddrCount(addrConnCount, remote, HostPort(cached.addrs[i].value)) > 0
          <==> InUse(hist, remote, HostPort(cached.addrs[i].value));
        if remote !in addrConnCount || AddrCount(addrConnCount, remote, HostPort(cached.addrs[i].value)) <= 0 {
          return None;
        }
      }
      return Some(cached);
    }

    /** `IsSessClosed`: a registered session answers for itself, any other key is closed once retired. */
    method IsSessClosed(key: Key, reportsClosed: bool) returns (closed: bool)
      requires Valid()
      ensures closed <==> if key in hist.open then reportsClosed else key in hist.retired
    {
      if key in sessions {
        return reportsClosed;
      }
      return key in closedSessionKey;
    }
  }
}

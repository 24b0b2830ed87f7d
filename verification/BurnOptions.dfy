/**
 Burn settings received from a contact (src/main/services/chat-service.ts): settings messages and the
 options attached to ordinary messages both carry a burn time and when it was set, and the newest wins.
 */
module BurnOptions {
  import opened Wrappers

  /** A contact's stored setting; a missing time counts as zero. */
  datatype Setting = Setting(burnAfterSeconds: int, burnUpdateAt: Option<int>)

  datatype Update =
    | FromMessage(deleteAfterSeconds: Option<int>, updateBurnAfterAt: Option<int>)
    | FromContactOptions(deleteAfterSeconds: Option<int>, updateBurnAfterAt: Option<int>)

  /** `?? 0`: what was never set counts as zero. */
  function OrZero(o: Option<int>): (n: int)
    ensures o == None ==> n == 0
    ensures forall v :: o == Some(v) ==> n == v
  {
    if o.Some? then o.value else 0
  }

  /** The strict test of `handleIncomingMessage` and the early return of `handleContactOptions`. */
  function Apply(s: Setting, u: Update): Setting {
    match u
    case FromMessage(seconds, at) =>
      if seconds.Some? && OrZero(s.burnUpdateAt) < OrZero(at) then Setting(seconds.value, Some(OrZero(at))) else s
    case FromContactOptions(seconds, at) =>
      if OrZero(s.burnUpdateAt) >= OrZero(at) then s else Setting(OrZero(seconds), Some(OrZero(at)))
  }

  function ApplyAll(s: Setting, us: seq<Update>): Setting {
    if us == [] then s else Apply(ApplyAll(s, us[..|us| - 1]), us[|us| - 1])
  }

  /** An update that says something, and is newer than what was stored at the start. */
  predicate Counts(s: Setting, u: Update) {
    Says(u) && OrZero(s.burnUpdateAt) < OrZero(u.updateBurnAfterAt)
  }

  function Carried(u: Update): Setting {
    Setting(OrZero(u.deleteAfterSeconds), Some(OrZero(u.updateBurnAfterAt)))
  }

  /** The setting in force: what some counting update carries, newer than or as new as all of them; or the old one. */
  ghost predicate Newest(s: Setting, us: seq<Update>, r: Setting) {
    && (r == s || exists i :: 0 <= i < |us| && Counts(s, us[i]) && r == Carried(us[i]))
    && (forall i :: 0 <= i < |us| && Counts(s, us[i]) ==> OrZero(us[i].updateBurnAfterAt) <= OrZero(r.burnUpdateAt))
    && OrZero(s.burnUpdateAt) <= OrZero(r.burnUpdateAt)
  }

  lemma {:induction false} NewestWins(s: Setting, us: seq<Update>)
    ensures Newest(s, us, ApplyAll(s, us))
  {
    if us != [] {
      var front, u := us[..|us| - 1], us[|us| - 1];
      NewestWins(s, front);
      var before, after := ApplyAll(s, front), ApplyAll(s, us);
      if after == before {
        if before != s {
          var i :| 0 <= i < |front| && Counts(s, front[i]) && before == Carried(front[i]);
          assert us[i] == front[i];
        }
      } else {
        assert after == Carried(u) && Counts(s, u);
      }
      forall i | 0 <= i < |us| && Counts(s, us[i])
        ensures OrZero(us[i].updateBurnAfterAt) <= OrZero(after.burnUpdateAt)
      {
        if i < |front| {
          assert front[i] == us[i];
        }
      }
    }
  }

  predicate Says(u: Update) {
    u.FromContactOptions? || u.deleteAfterSeconds.Some?
  }

  /** A counting update that no other counting update is newer than. */
  ghost predicate Top(s: Setting, us: seq<Update>, u: Update) {
    && u in us && Counts(s, u)
    && forall v :: v in us && Counts(s, v) ==> OrZero(v.updateBurnAfterAt) <= OrZero(u.updateBurnAfterAt)
  }

  /** The counting updates with the greatest time all carry one setting. */
  ghost predicate TopAgrees(s: Setting, us: seq<Update>) {
    forall u, v :: Top(s, us, u) && Top(s, us, v) ==> Carried(u) == Carried(v)
  }

  /** Distinct times are more than enough for that. */
  lemma DistinctTimesAgree(s: Setting, us: seq<Update>)
    requires forall u, v :: u in us && v in us && Says(u) && Says(v) && Carried(u).burnUpdateAt == Carried(v).burnUpdateAt ==>
               Carried(u) == Carried(v)
    ensures TopAgrees(s, us)
  {
  }

  lemma TopIsInForce(s: Setting, us: seq<Update>)
    ensures var r := ApplyAll(s, us);
            if exists u :: u in us && Counts(s, u) then exists u :: Top(s, us, u) && r == Carried(u) else r == s
  {
    var r := ApplyAll(s, us);
    NewestWins(s, us);
    assert forall u :: u in us && Counts(s, u) ==> OrZero(u.updateBurnAfterAt) <= OrZero(r.burnUpdateAt);
    if r != s {
      var i :| 0 <= i < |us| && Counts(s, us[i]) && r == Carried(us[i]);
      assert Top(s, us, us[i]);
    }
  }

  /**
   When the newest updates agree, the outcome depends only on which updates arrived: not on their order, nor
   on how often each was delivered.
   */
  lemma ArrivalOrderIrrelevant(s: Setting, us: seq<Update>, vs: seq<Update>)
    requires forall u :: u in us <==> u in vs
    requires TopAgrees(s, us)
    ensures ApplyAll(s, us) == ApplyAll(s, vs)
  {
    TopIsInForce(s, us);
    TopIsInForce(s, vs);
    assert forall u :: Top(s, us, u) <==> Top(s, vs, u);
  }

  /** An update that arrives first and is as new as all others stays in force. */
  lemma {:induction false} FirstTopStays(s: Setting, u: Update, rest: seq<Update>)
    requires Counts(s, u)
    requires forall v :: v in rest && Counts(s, v) ==> OrZero(v.updateBurnAfterAt) <= OrZero(u.updateBurnAfterAt)
    ensures ApplyAll(s, [u] + rest) == Carried(u)
  {
    if rest == [] {
      assert [u] + rest == [u] && [u][..0] == [];
    } else {
      var front, last := rest[..|rest| - 1], rest[|rest| - 1];
      FirstTopStays(s, u, front);
      assert ([u] + rest)[..|rest|] == [u] + front;
      assert last in rest;
    }
  }

  function ToFront(us: seq<Update>, i: nat): seq<Update>
    requires i < |us|
  {
    [us[i]] + (us[..i] + us[i + 1..])
  }

  lemma TopMovedToFront(s: Setting, us: seq<Update>, i: nat)
    requires i < |us| && Top(s, us, us[i])
    ensures multiset(ToFront(us, i)) == multiset(us) && ApplyAll(s, ToFront(us, i)) == Carried(us[i])
  {
    assert us == us[..i] + [us[i]] + us[i + 1..];
    assert forall v :: v in us[..i] + us[i + 1..] ==> v in us;
    FirstTopStays(s, us[i], us[..i] + us[i + 1..]);
  }

  /** Every arrangement of the updates leads to the same setting if and only if the newest ones agree. */
  lemma OrderIrrelevantIff(s: Setting, us: seq<Update>)
    ensures (forall vs :: multiset(vs) == multiset(us) ==> ApplyAll(s, vs) == ApplyAll(s, us)) <==> TopAgrees(s, us)
  {
    if TopAgrees(s, us) {
      forall vs | multiset(vs) == multiset(us)
        ensures ApplyAll(s, vs) == ApplyAll(s, us)
      {
        assert forall u :: (u in us <==> u in multiset(us)) && (u in vs <==> u in multiset(vs));
        ArrivalOrderIrrelevant(s, us, vs);
      }
    } else {
      var u, v :| Top(s, us, u) && Top(s, us, v) && Carried(u) != Carried(v);
      var i :| 0 <= i < |us| && us[i] == u;
      var j :| 0 <= j < |us| && us[j] == v;
      TopMovedToFront(s, us, i);
      TopMovedToFront(s, us, j);
    }
  }

  /** Two updates commute unless both count, were set at the same time, and say different things. */
  lemma SwapMattersIff(s: Setting, u: Update, v: Update)
    ensures ApplyAll(s, [u, v]) != ApplyAll(s, [v, u]) <==>
              && Counts(s, u) && Counts(s, v)
              && Carried(u).burnUpdateAt == Carried(v).burnUpdateAt && Carried(u) != Carried(v)
  {
    assert [u, v][..1] == [u] && [v, u][..1] == [v];
    assert ApplyAll(s, [u]) == Apply(s, u) && ApplyAll(s, [v]) == Apply(s, v) by {
      assert [u][..0] == [] && [v][..0] == [];
    }
  }

  class ContactBook {
    var contacts: map<string, Setting>

    constructor (contacts: map<string, Setting>)
      ensures this.contacts == contacts
    {
      this.contacts := contacts;
    }

    /** `updateBurnOptions`: an UPDATE statement, so an unknown contact stays unknown. */
    method UpdateBurnOptions(src: string, seconds: int, at: int)
      modifies this
      ensures contacts == if src in old(contacts) then old(contacts)[src := Setting(seconds, Some(at))] else old(contacts)
    {
      if src in contacts {
        contacts := contacts[src := Setting(seconds, Some(at))];
      }
    }

    /** The burn part of `handleIncomingMessage`. */
    method SyncFromMessage(src: string, deleteAfterSeconds: Option<int>, updateBurnAfterAt: Option<int>)
      modifies this
      ensures contacts.Keys == old(contacts).Keys
      ensures forall c :: c in contacts && c != src ==> contacts[c] == old(contacts)[c]
      ensures src in contacts ==>
                contacts[src] == if deleteAfterSeconds.Some? && OrZero(old(contacts)[src].burnUpdateAt) < OrZero(updateBurnAfterAt)
                                 then Setting(deleteAfterSeconds.value, Some(OrZero(updateBurnAfterAt)))
                                 else old(contacts)[src]
      ensures src in contacts ==>
                contacts[src] == Apply(old(contacts)[src], FromMessage(deleteAfterSeconds, updateBurnAfterAt))
    {
      if deleteAfterSeconds.Some? {
        var incomingBurnAt := OrZero(updateBurnAfterAt);
        if src in contacts && OrZero(contacts[src].burnUpdateAt) < incomingBurnAt {
          UpdateBurnOptions(src, deleteAfterSeconds.value, incomingBurnAt);
        }
      }
    }

    /** `handleContactOptions`, for option type 0. */
    method HandleContactOptions(src: string, deleteAfterSeconds: Option<int>, updateBurnAfterAt: Option<int>)
      modifies this
      ensures contacts.Keys == old(contacts).Keys
      ensures forall c :: c in contacts && c != src ==> contacts[c] == old(contacts)[c]
      ensures src in contacts ==>
                contacts[src] == if OrZero(old(contacts)[src].burnUpdateAt) < OrZero(updateBurnAfterAt)
                                 then Setting(OrZero(deleteAfterSeconds), Some(OrZero(updateBurnAfterAt)))
                                 else old(contacts)[src]
      ensures src in contacts ==>
                contacts[src] == Apply(old(contacts)[src], FromContactOptions(deleteAfterSeconds, updateBurnAfterAt))
    {
      var seconds, at := OrZero(deleteAfterSeconds), OrZero(updateBurnAfterAt);
      if src in contacts && OrZero(contacts[src].burnUpdateAt) >= at {
        return;
      }
      UpdateBurnOptions(src, seconds, at);
    }
  }
}

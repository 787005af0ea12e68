/**
 * The publish/subscribe bridge's local registry: channel name to the set of
 * listeners registered for it. Publishing fans a payload out to the
 * listeners of its channel; cancelling a listener's context removes it, and
 * the channel's entry goes when its last listener does.
 */
module PubSub {

  /** A listener's delivery channel, by identity. */
  type ListenerId = nat

  /** The listeners registered for `channel`; none when it has no entry. */
  function Listeners(subs: map<string, set<ListenerId>>, channel: string): set<ListenerId>
  {
    if channel in subs then subs[channel] else {}
  }

  /** No channel is kept with an empty listener set. */
  predicate NoEmptyEntries(subs: map<string, set<ListenerId>>)
  {
    forall ch :: ch in subs ==> subs[ch] != {}
  }

  /** The registry after `listener` subscribes to `channel`. */
  function Subscribed(subs: map<string, set<ListenerId>>, listener: ListenerId, channel: string)
    : (r: map<string, set<ListenerId>>)
    ensures NoEmptyEntries(subs) ==> NoEmptyEntries(r)
    ensures Listeners(r, channel) == Listeners(subs, channel) + {listener}
    ensures forall ch :: ch != channel ==> Listeners(r, ch) == Listeners(subs, ch)
  {
    subs[channel := Listeners(subs, channel) + {listener}]
  }

  /** The registry after `listener`'s cleanup for `channel`: the entry is deleted once it is empty. */
  function Unsubscribed(subs: map<string, set<ListenerId>>, listener: ListenerId, channel: string)
    : (r: map<string, set<ListenerId>>)
    ensures NoEmptyEntries(subs) ==> NoEmptyEntries(r)
    ensures Listeners(r, channel) == Listeners(subs, channel) - {listener}
    ensures Listeners(r, channel) == {} ==> channel !in r
    ensures forall ch :: ch != channel ==> Listeners(r, ch) == Listeners(subs, ch)
  {
    var rest := Listeners(subs, channel) - {listener};
    if rest == {} then subs - {channel} else subs[channel := rest]
  }

  /** Cleanup undoes a subscription by a listener that was not registered there. */
  lemma UnsubscribeUndoes(subs: map<string, set<ListenerId>>, listener: ListenerId, channel: string)
    requires NoEmptyEntries(subs) && listener !in Listeners(subs, channel)
    ensures Unsubscribed(Subscribed(subs, listener, channel), listener, channel) == subs
  {
    var r := Unsubscribed(Subscribed(subs, listener, channel), listener, channel);
    assert Listeners(subs, channel) + {listener} - {listener} == Listeners(subs, channel);
    assert forall ch :: ch in r <==> ch in subs;
  }

  /** A registry holding nothing but `channel`, whose last listener leaves, is empty. */
  lemma LastListenerLeavesNoKey(subs: map<string, set<ListenerId>>, listener: ListenerId, channel: string)
    requires subs.Keys == {channel} && subs[channel] == {listener}
    ensures Unsubscribed(subs, listener, channel) == map[]
  {
    assert subs.Keys - {channel} == {};
  }

  /** Every inbox after a publication: the channel's listeners get the payload appended, no one else changes. */
  function Delivered(inboxes: map<ListenerId, seq<string>>, to: set<ListenerId>, payload: string)
    : (r: map<ListenerId, seq<string>>)
    ensures r.Keys == inboxes.Keys + to
    ensures forall l :: l in to ==> r[l] == Inbox(inboxes, l) + [payload]
    ensures forall l :: l in inboxes && l !in to ==> r[l] == inboxes[l]
  {
    map l | l in inboxes.Keys + to :: if l in to then Inbox(inboxes, l) + [payload] else inboxes[l]
  }

  /** What a listener has received so far. */
  function Inbox(inboxes: map<ListenerId, seq<string>>, l: ListenerId): seq<string>
  {
    if l in inboxes then inboxes[l] else []
  }

  /** The registry and what each listener has been handed. */
  class Registry {
    var subs: map<string, set<ListenerId>>
    var inboxes: map<ListenerId, seq<string>>

    ghost predicate Valid()
      reads this
    {
      NoEmptyEntries(subs)
    }

    constructor ()
      ensures Valid() && subs == map[] && inboxes == map[]
    {
      subs := map[];
      inboxes := map[];
    }

    /** Registers `listener` for `channel`, creating the channel's entry for its first listener. */
    method Subscribe(listener: ListenerId, channel: string)
      requires Valid()
      modifies this`subs
      ensures Valid()
      ensures subs == Subscribed(old(subs), listener, channel)
    {
      var current := if channel in subs then subs[channel] else {};
      subs := subs[channel := current + {listener}];
    }

    /**
     * Publishes `payload` on `channel`. `busFails` is the bus's answer; when it
     * accepts, every listener of the channel is handed the payload.
     */
    method Publish(channel: string, payload: string, busFails: bool) returns (failed: bool)
      requires Valid()
      modifies this`inboxes
      ensures Valid()
      ensures failed == busFails
      ensures inboxes == if busFails then old(inboxes) else Delivered(old(inboxes), Listeners(subs, channel), payload)
    {
      failed := busFails;
      if !busFails {
        inboxes := Delivered(inboxes, Listeners(subs, channel), payload);
      }
    }

    /** The cleanup run when `listener`'s context is cancelled. */
    method Cancel(listener: ListenerId, channel: string)
      requires Valid()
      modifies this`subs
      ensures Valid()
      ensures subs == Unsubscribed(old(subs), listener, channel)
    {
      if channel in subs {
        var rest := subs[channel] - {listener};
        if rest == {} {
          subs := subs - {channel};
        } else {
          subs := subs[channel := rest];
        }
      }
    }
  }

  /**
   * The publish/subscribe round: one listener on `events:xd`, `pog` published
   * with the bus accepting it and received unchanged, then after cancellation no listener
   * and no channel entry remain.
   */
  method PublishSubscribeRound() returns (failed: bool, received: seq<string>, listenersLeft: nat, channelsLeft: nat)
    ensures !failed && received == ["pog"]
    ensures listenersLeft == 0 && channelsLeft == 0
  {
    var r := new Registry();
    var cb: ListenerId := 1;
    r.Subscribe(cb, "events:xd");
    failed := r.Publish("events:xd", "pog", false);
    received := Inbox(r.inboxes, cb);
    r.Cancel(cb, "events:xd");
    LastListenerLeavesNoKey(map["events:xd" := {cb}], cb, "events:xd");
    listenersLeft := |Listeners(r.subs, "events:xd")|;
    channelsLeft := |r.subs|;
  }

  /** Reference counting: of three listeners two leave and the entry keeps one; the last leaving removes it. */
  method ReferenceCounting() returns (afterTwo: nat, afterAll: nat, keyLeft: bool)
    ensures afterTwo == 1 && afterAll == 0 && !keyLeft
  {
    var r := new Registry();
    r.Subscribe(1, "events:x");
    r.Subscribe(2, "events:x");
    r.Subscribe(3, "events:x");
    r.Cancel(1, "events:x");
    r.Cancel(2, "events:x");
    assert Listeners(r.subs, "events:x") == {3};
    afterTwo := |Listeners(r.subs, "events:x")|;
    r.Cancel(3, "events:x");
    afterAll := |Listeners(r.subs, "events:x")|;
    keyLeft := "events:x" in r.subs;
  }
}

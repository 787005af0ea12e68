/**
 * Connection tracking: the active-connection counter, raised once a tracked
 * connection is ready and lowered once it has closed, and the shutdown
 * watcher that asks every live connection to close with the restart code.
 * The blocking waits of the tracking task become events delivered to the
 * server one at a time.
 */
module Tracker {
  import opened Common
  import WebSocket

  /** Where one connection's tracking task is. */
  datatype Task =
    | AwaitingReady          // blocked until the connection is ready
    | Live(watching: bool)   // counted; `watching` while its shutdown watcher is still waiting
    | Ended                  // closed and no longer counted

  /** A close request made by the shutdown watcher: the code and the grace period. */
  datatype CloseCall = CloseCall(code: WebSocket.CloseCode, grace: int)

  /** The identifiers of the connections that are ready and not yet closed. */
  function LiveIds(tasks: map<nat, Task>): (ids: set<nat>)
    ensures forall id :: id in ids <==> id in tasks && tasks[id].Live?
  {
    set id | id in tasks && tasks[id].Live?
  }

  /** Those whose shutdown watcher is still waiting. */
  function WatchingIds(tasks: map<nat, Task>): (ids: set<nat>)
    ensures forall id :: id in ids <==> id in tasks && tasks[id] == Live(true)
  {
    set id | id in tasks && tasks[id] == Live(true)
  }

  /** A connection becoming live adds exactly itself to the live set. */
  lemma LiveAdd(tasks: map<nat, Task>, id: nat, t: Task)
    requires id in tasks && !tasks[id].Live? && t.Live?
    ensures LiveIds(tasks[id := t]) == LiveIds(tasks) + {id}
    ensures |LiveIds(tasks[id := t])| == |LiveIds(tasks)| + 1
  {
    assert LiveIds(tasks[id := t]) == LiveIds(tasks) + {id};
  }

  /** A live connection ending removes exactly itself from the live set. */
  lemma LiveRemove(tasks: map<nat, Task>, id: nat)
    requires id in tasks && tasks[id].Live?
    ensures LiveIds(tasks[id := Ended]) == LiveIds(tasks) - {id}
    ensures |LiveIds(tasks[id := Ended])| == |LiveIds(tasks)| - 1
  {
    assert LiveIds(tasks[id := Ended]) == LiveIds(tasks) - {id};
  }

  /** The server's tracking state. */
  class Server {
    var activeConns: int
    var shutdownFired: bool
    var tasks: map<nat, Task>
    const restart: WebSocket.CloseCode

    /** The counter is the number of connections that became ready and have not closed. */
    ghost predicate Valid()
      reads this
    {
      activeConns == |LiveIds(tasks)|
    }

    constructor (restartCode: WebSocket.CloseCode)
      ensures Valid() && activeConns == 0 && tasks == map[] && !shutdownFired && restart == restartCode
    {
      activeConns := 0;
      shutdownFired := false;
      tasks := map[];
      restart := restartCode;
      assert LiveIds(map[]) == {};
    }

    /** `TrackConnection` begins: a nil connection is ignored, any other one waits for readiness. */
    method Track(id: nat, present: bool)
      requires Valid() && id !in tasks
      modifies this`tasks
      ensures Valid()
      ensures tasks == if present then old(tasks)[id := AwaitingReady] else old(tasks)
    {
      if !present {
        return;
      }
      assert LiveIds(tasks[id := AwaitingReady]) == LiveIds(tasks);
      tasks := tasks[id := AwaitingReady];
    }

    /**
     * The connection signalled readiness: the counter goes up once and the
     * shutdown watcher starts. If shutdown has already fired, the watcher
     * asks for a close with the restart code and no grace period at once.
     */
    method Ready(id: nat) returns (close: Option<CloseCall>)
      requires Valid() && id in tasks && tasks[id] == AwaitingReady
      modifies this`tasks, this`activeConns
      ensures Valid()
      ensures activeConns == old(activeConns) + 1
      ensures tasks == old(tasks)[id := Live(!shutdownFired)]
      ensures close == if shutdownFired then Some(CloseCall(restart, 0)) else None
    {
      LiveAdd(tasks, id, Live(!shutdownFired));
      activeConns := activeConns + 1;
      tasks := tasks[id := Live(!shutdownFired)];
      close := if shutdownFired then Some(CloseCall(restart, 0)) else None;
    }

    /**
     * The shutdown signal fires: every watcher still waiting asks its
     * connection to close with the restart code and no grace period, then exits.
     * The counter does not move: connections are counted down as they close.
     */
    method Shutdown() returns (closes: map<nat, CloseCall>)
      requires Valid() && !shutdownFired
      modifies this`tasks, this`shutdownFired
      ensures Valid() && shutdownFired
      ensures closes.Keys == WatchingIds(old(tasks))
      ensures forall id :: id in closes ==> closes[id] == CloseCall(restart, 0)
      ensures tasks.Keys == old(tasks).Keys
      ensures forall id :: id in tasks ==> tasks[id] == if old(tasks)[id] == Live(true) then Live(false) else old(tasks)[id]
    {
      closes := map id | id in WatchingIds(tasks) :: CloseCall(restart, 0);
      var next := map id | id in tasks :: if tasks[id] == Live(true) then Live(false) else tasks[id];
      assert LiveIds(next) == LiveIds(tasks);
      tasks := next;
      shutdownFired := true;
    }

    /** The connection's context finished first: its watcher exits without asking for a close. */
    method ContextDone(id: nat)
      requires Valid() && id in tasks
      modifies this`tasks
      ensures Valid()
      ensures tasks == if old(tasks)[id] == Live(true) then old(tasks)[id := Live(false)] else old(tasks)
    {
      if tasks[id] == Live(true) {
        assert LiveIds(tasks[id := Live(false)]) == LiveIds(tasks);
        tasks := tasks[id := Live(false)];
      }
    }

    /** The connection signalled that it has closed: the counter goes down once and tracking ends. */
    method Closed(id: nat)
      requires Valid() && id in tasks && tasks[id].Live?
      modifies this`tasks, this`activeConns
      ensures Valid()
      ensures activeConns == old(activeConns) - 1
      ensures tasks == old(tasks)[id := Ended]
    {
      LiveRemove(tasks, id);
      activeConns := activeConns - 1;
      tasks := tasks[id := Ended];
    }
  }

  /**
   * One connection's whole tracked life on a fresh server: the counter is 1
   * while it is live and back to 0 once it has closed; with shutdown in
   * between, exactly that connection is asked to close with the restart code.
   */
  method TrackedLifetime(restartCode: WebSocket.CloseCode, shutdownFirst: bool)
    returns (whileLive: int, afterClose: int, closes: map<nat, CloseCall>)
    ensures whileLive == 1 && afterClose == 0
    ensures shutdownFirst ==> closes == map[7 := CloseCall(restartCode, 0)]
    ensures !shutdownFirst ==> closes == map[]
  {
    var s := new Server(restartCode);
    s.Track(7, true);
    var early := s.Ready(7);
    whileLive := s.activeConns;
    closes := map[];
    if shutdownFirst {
      closes := s.Shutdown();
      assert WatchingIds(map[7 := Live(true)]) == {7};
    } else {
      s.ContextDone(7);
    }
    s.Closed(7);
    afterClose := s.activeConns;
  }
}

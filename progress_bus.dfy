/**
 * The progress bus of the router: per progress id, the latest event and the
 * list of open server-sent-event responses (`progressMap` and its
 * `<id>_connections` entries).
 */
module ProgressBus {

  /** The stages the pipeline reports, plus the synthetic greeting stage. */
  datatype Stage =
    | Connected | Uploaded | Reading | Scanning | Downloading
    | Downloaded | Embedding | Saving | Complete | Error

  /** One progress record; the ISO timestamp is not modelled. */
  datatype Event = Event(id: string, stage: Stage, message: string, percentage: int)

  /**
   * One SSE response as the bus sees it: `handle` stands for the response
   * object's identity, `finished` for `res.finished`, `outbox` for what
   * `res.write` has sent so far.
   */
  datatype Connection = Connection(handle: nat, finished: bool, outbox: seq<Event>)

  /** The greeting's message text, "connection established". */
  const ConnectedMessage: string := "\U{8FDE}\U{63A5}\U{5DF2}\U{5EFA}\U{7ACB}"

  /** `Math.min(100, Math.max(0, percentage))` */
  function Clamp(p: int): (r: int)
    ensures 0 <= r <= 100
    ensures 0 <= p <= 100 ==> r == p
    ensures p < 0 ==> r == 0
    ensures p > 100 ==> r == 100
  {
    if p < 0 then 0 else if p > 100 then 100 else p
  }

  /** The synthetic event a new subscriber receives first. */
  function ConnectedEvent(id: string): (e: Event)
    ensures e.stage == Connected && e.percentage == 0 && e.id == id
  {
    Event(id, Connected, ConnectedMessage, 0)
  }

  /** `connections.indexOf(res)`: the first position holding `handle`, or -1. */
  function IndexOf(conns: seq<Connection>, handle: nat): (r: int)
    ensures -1 <= r < |conns|
    ensures r == -1 <==> forall k | 0 <= k < |conns| :: conns[k].handle != handle
    ensures 0 <= r ==> conns[r].handle == handle && forall k | 0 <= k < r :: conns[k].handle != handle
  {
    if |conns| == 0 then -1
    else if conns[0].handle == handle then 0
    else
      var r := IndexOf(conns[1..], handle);
      if r == -1 then -1 else r + 1
  }

  /** No two connections of one list share a handle. */
  ghost predicate DistinctHandles(conns: seq<Connection>) {
    forall i, j | 0 <= i < j < |conns| :: conns[i].handle != conns[j].handle
  }

  /** `splice(index, 1)` on a list with distinct handles removes every trace of the handle. */
  lemma {:induction false} SpliceRemovesHandle(conns: seq<Connection>, handle: nat)
    requires DistinctHandles(conns)
    requires IndexOf(conns, handle) >= 0
    ensures var i := IndexOf(conns, handle);
            var rest := conns[..i] + conns[i + 1..];
            DistinctHandles(rest) && |rest| == |conns| - 1 &&
            forall k | 0 <= k < |rest| :: rest[k].handle != handle
  {
    var i := IndexOf(conns, handle);
    var rest := conns[..i] + conns[i + 1..];
    forall k | 0 <= k < |rest|
      ensures rest[k] == conns[if k < i then k else k + 1]
    {
    }
    forall a, c | 0 <= a < c < |rest|
      ensures rest[a].handle != rest[c].handle
    {
      assert rest[a] == conns[if a < i then a else a + 1];
      assert rest[c] == conns[if c < i then c else c + 1];
    }
    forall k | 0 <= k < |rest|
      ensures rest[k].handle != handle
    {
      var j := if k < i then k else k + 1;
      assert rest[k] == conns[j] && j != i;
    }
  }

  class Bus {
    /** `progressMap.get(id)`: the latest event per progress id. */
    var latest: map<string, Event>
    /** `progressMap.get(id + "_connections")`: the open responses per progress id. */
    var connections: map<string, seq<Connection>>
    /** The identity the next response object gets. */
    var nextHandle: nat

    ghost predicate Valid()
      reads this
    {
      forall id | id in connections ::
        DistinctHandles(connections[id]) &&
        forall k | 0 <= k < |connections[id]| :: connections[id][k].handle < nextHandle
    }

    /** What a new subscriber is sent at once: the greeting, then the latest event if any. */
    function Greeting(id: string): (g: seq<Event>)
      reads this`latest
      ensures 1 <= |g| <= 2 && g[0] == ConnectedEvent(id)
      ensures |g| == 2 <==> id in latest
      ensures id in latest ==> g[1] == latest[id]
    {
      [ConnectedEvent(id)] + if id in latest then [latest[id]] else []
    }

    /** `progressMap.get(key) || []` */
    function ListOf(id: string): seq<Connection>
      reads this`connections
    {
      if id in connections then connections[id] else []
    }

    constructor ()
      ensures Valid()
      ensures latest == map[] && connections == map[]
    {
      latest := map[];
      connections := map[];
      nextHandle := 0;
    }

    /**
     * `updateProgress`: store the clamped event as the latest for `id` and
     * write it to every connection of `id` that is not finished.
     */
    method UpdateProgress(id: string, stage: Stage, message: string, percentage: int)
      requires Valid()
      modifies this
      ensures Valid() && nextHandle == old(nextHandle)
      ensures latest == old(latest)[id := Event(id, stage, message, Clamp(percentage))]
      ensures connections.Keys == old(connections).Keys
      ensures forall other | other in connections && other != id :: connections[other] == old(connections)[other]
      ensures id in connections ==>
        var before, after := old(connections)[id], connections[id];
        |after| == |before| &&
        forall k | 0 <= k < |before| ::
          after[k].handle == before[k].handle && after[k].finished == before[k].finished &&
          after[k].outbox == (if before[k].finished then before[k].outbox
                              else before[k].outbox + [latest[id]])
    {
      var e := Event(id, stage, message, Clamp(percentage));
      latest := latest[id := e];
      if id in connections {
        var conns := connections[id];
        var sent: seq<Connection> := [];
        for k := 0 to |conns|
          invariant |sent| == k
          invariant forall j | 0 <= j < k ::
            sent[j].handle == conns[j].handle && sent[j].finished == conns[j].finished &&
            sent[j].outbox == (if conns[j].finished then conns[j].outbox else conns[j].outbox + [e])
        {
          var c := conns[k];
          if !c.finished {
            c := c.(outbox := c.outbox + [e]);
          }
          sent := sent + [c];
        }
        connections := connections[id := sent];
      }
    }

    /**
     * Opening `GET /progress/:id`: greet the new response with a `connected`
     * event at 0%, register it, then replay the latest event if there is one.
     */
    method Subscribe(id: string) returns (handle: nat)
      requires Valid()
      modifies this
      ensures Valid()
      ensures handle == old(nextHandle) && nextHandle == old(nextHandle) + 1
      ensures latest == old(latest)
      ensures connections == old(connections)[id := old(ListOf(id)) + [Connection(handle, false, Greeting(id))]]
    {
      handle := nextHandle;
      nextHandle := nextHandle + 1;
      var outbox := [ConnectedEvent(id)];
      var conns := ListOf(id);
      var c := Connection(handle, false, outbox);
      if id in latest {
        c := c.(outbox := c.outbox + [latest[id]]);
      }
      assert c.outbox == Greeting(id);
      assert conns == old(ListOf(id));
      connections := connections[id := conns + [c]];
    }

    /**
     * The response's `close` handler: drop the connection with `indexOf` and
     * `splice`; a handle no longer registered changes nothing.
     */
    method Close(id: string, handle: nat)
      requires Valid()
      modifies this
      ensures Valid() && nextHandle == old(nextHandle) && latest == old(latest)
      ensures var i := IndexOf(old(ListOf(id)), handle);
        connections == if i == -1 then old(connections)
                       else old(connections)[id := old(ListOf(id))[..i] + old(ListOf(id))[i + 1..]]
      ensures forall k | 0 <= k < |ListOf(id)| :: ListOf(id)[k].handle != handle
    {
      var conns := ListOf(id);
      var i := IndexOf(conns, handle);
      if i != -1 {
        SpliceRemovesHandle(conns, handle);
        connections := connections[id := conns[..i] + conns[i + 1..]];
      }
    }

    /**
     * The delayed clean-up after a run: end every connection that is not yet
     * finished and forget the list. The ended connections are returned.
     */
    method Teardown(id: string) returns (ended: seq<Connection>)
      requires Valid()
      modifies this
      ensures Valid() && nextHandle == old(nextHandle) && latest == old(latest)
      ensures connections == old(connections) - {id}
      ensures |ended| == |old(ListOf(id))|
      ensures forall k | 0 <= k < |ended| ::
        ended[k] == old(ListOf(id))[k].(finished := true)
    {
      var conns := ListOf(id);
      ended := [];
      for k := 0 to |conns|
        invariant |ended| == k
        invariant forall j | 0 <= j < k :: ended[j] == conns[j].(finished := true)
      {
        var c := conns[k];
        if !c.finished {
          c := c.(finished := true);
        }
        ended := ended + [c];
      }
      connections := connections - {id};
    }
  }

  /**
   * A subscriber that connects after a run completed receives the greeting
   * and then the stored `complete` snapshot, and nothing else.
   */
  method LateSubscriber(id: string) returns (outbox: seq<Event>)
    ensures outbox == [ConnectedEvent(id), Event(id, Complete, "done", 100)]
  {
    var bus := new Bus();
    bus.UpdateProgress(id, Complete, "done", 100);
    var h := bus.Subscribe(id);
    outbox := bus.connections[id][0].outbox;
  }

  /**
   * A subscriber registered before an update receives it; after closing, it is
   * gone, and closing it a second time changes nothing.
   */
  method CloseTwice(id: string) returns (delivered: seq<Event>, remaining: nat)
    ensures delivered == [ConnectedEvent(id), Event(id, Downloading, "m", 100)]
    ensures remaining == 0
  {
    var bus := new Bus();
    var h := bus.Subscribe(id);
    bus.UpdateProgress(id, Downloading, "m", 250);
    delivered := bus.connections[id][0].outbox;
    bus.Close(id, h);
    var afterOnce := bus.connections;
    bus.Close(id, h);
    assert bus.connections == afterOnce;
    remaining := |bus.ListOf(id)|;
  }
}

/**
 * The editor extension's life cycle: starting and stopping the language server, each request a work in the
 * queue of `Serials`, each work suspended wherever it awaits something.
 */
module Extensions {
  import opened Bytes
  import opened Serials

  datatype Request = StartServer | StopServer

  datatype ServerState = Disabled | Unavailable | Starting | Up | Stopped

  /** Where the running work is suspended: at a client's stop, at the probe, or at a client's start. */
  datatype Suspended = Nowhere | Stopping(client: nat, thenLaunch: bool) | Probing | Launching(client: nat)

  class Extension {
    const lifecycle: Serial
    var requests: seq<Request>
    var work: nat
    var at: Suspended
    var client: Option<nat>
    var state: ServerState
    /** The language servers that are running, by the client that launched them. */
    var live: set<nat>
    /** Those of them that a failed start or a failed stop left behind: nobody holds their clients any more. */
    ghost var strays: set<nat>
    var clients: nat

    /** The strays are running, and the client `c` is none of them. */
    ghost predicate Apart(c: nat)
      reads this
    {
      strays <= live && (forall s | s in strays :: s < clients) && c < clients && c !in strays
    }

    /** But for strays no server is running but that of `held`. */
    ghost predicate Alone(held: Option<nat>)
      reads this
    {
      match held
      case None => live == strays
      case Some(c) => live - strays <= {c}
    }

    /**
     * But for strays at most one server is running, and it is the one held in `client`, or the one being stopped;
     * no work is suspended but the one the queue says is running.
     */
    ghost predicate Valid()
      reads this, lifecycle
    {
      && lifecycle.Valid() && |requests| == lifecycle.Asked()
      && (at == Nowhere <==> lifecycle.running == map[])
      && (at != Nowhere ==> lifecycle.running.Keys == {work})
      && strays <= live && (forall s | s in strays :: s < clients)
      && (client.Some? ==> Apart(client.value))
      && (match at
          case Stopping(c, _) => client == None && Alone(Some(c)) && Apart(c)
          case Probing => client == None && Alone(None)
          case Launching(c) => client == Some(c) && Alone(client)
          case Nowhere => Alone(client))
    }

    constructor ()
      ensures Valid() && fresh(lifecycle) && live == strays == {} && at == Nowhere
    {
      lifecycle := new Serial();
      requests, work, at, client, state, live, strays, clients := [], 0, Nowhere, None, Stopped, {}, {}, 0;
    }

    /** A command, a changed setting or the end of the session asks for a start or a stop. */
    method Ask(request: Request) returns (started: nat)
      requires Valid()
      modifies this`requests, lifecycle
      ensures Valid() && requests == old(requests) + [request]
      ensures lifecycle.log == old(lifecycle.log) && started == Answer(|old(requests)|)
    {
      var k;
      k, started := lifecycle.Run();
      requests := requests + [request];
    }

    /** What holds while a work runs without being suspended. */
    ghost predicate Busy()
      reads this, lifecycle
    {
      && lifecycle.Valid() && |requests| == lifecycle.Asked() && lifecycle.running.Keys == {work}
      && strays <= live && (forall s | s in strays :: s < clients)
      && (client.Some? ==> Apart(client.value)) && Alone(client)
    }

    /** No server runs but strays, and none is held; the work is over, or waits for the probe if it is to launch one. */
    ghost predicate Down(thenLaunch: bool)
      reads this
    {
      client == None && Alone(None) && (at == Nowhere || (thenLaunch && at == Probing))
    }

    /** The event loop runs a reaction of the queue; if it launches a work, the work runs to its first await. */
    method Deliver(r: Reaction)
      requires Valid() && r in lifecycle.reactions && r.source < |lifecycle.promises|
      requires lifecycle.promises[r.source] != Pending
      modifies this, lifecycle
      ensures Valid() && requests == old(requests) && clients == old(clients) && strays == old(strays)
      ensures r.Launch? && old(client).Some? ==>
                client == None && at.Stopping? && at.client == old(client).value && live == old(live)
      ensures r.Launch? && old(client).None? ==> Down(r.work < |requests| && requests[r.work] == StartServer)
      ensures r.Absorb? ==>
                && client == old(client) && at == old(at) && live == old(live)
                && lifecycle.log == old(lifecycle.log)
    {
      lifecycle.Fire(r);
      if r.Launch? {
        work := r.work;
        var launches := r.work < |requests| && requests[r.work] == StartServer;
        ShutDown(launches);
      }
    }

    /** `shutdown`, up to its await: forget the client, and stop it. */
    method ShutDown(thenLaunch: bool)
      requires Busy()
      modifies this`client, this`at, this`state, lifecycle
      ensures Valid()
      ensures old(client).Some? ==> client == None && at == Stopping(old(client).value, thenLaunch)
      ensures old(client).None? ==> Down(thenLaunch)
    {
      var held := client;
      client := None;
      if held.Some? {
        at := Stopping(held.value, thenLaunch);
      } else {
        AfterShutDown(thenLaunch);
      }
    }

    /** ... and behind it. */
    method AfterShutDown(thenLaunch: bool)
      requires Busy() && client == None
      modifies this`at, this`state, lifecycle
      ensures Valid() && Down(thenLaunch)
    {
      state := Stopped;
      if thenLaunch { Launch(); } else { Finish(true); }
    }

    /** `launch`, up to the probe of the binary. */
    method Launch()
      requires Busy() && client == None
      modifies this`at, this`state, lifecycle
      ensures Valid() && Down(true)
      ensures at == Nowhere ==> state == Disabled
    {
      var enabled: bool := *;
      if enabled {
        at := Probing;
      } else {
        state := Disabled;
        Finish(true);
      }
    }

    /** The work is over, and answers whoever asked for it. */
    method Finish(ok: bool)
      requires Busy()
      modifies this`at, lifecycle
      ensures Valid() && at == Nowhere && lifecycle.log == old(lifecycle.log) + [End(work, ok)]
    {
      at := Nowhere;
      lifecycle.Settle(work, ok);
    }

    /** `client.stop()` settles, well or not, which makes no difference; `leaves`: its server is not gone. */
    method StopSettles(leaves: bool)
      requires Valid() && at.Stopping?
      modifies this`live, this`strays, this`at, this`state, lifecycle
      ensures Valid() && Down(old(at).thenLaunch)
      ensures strays == old(strays) + (if leaves then old({at.client} * live) else {})
    {
      LeaveOrLose(at.client, leaves);
      AfterShutDown(at.thenLaunch);
    }

    /** A client is given up: its server is gone, or left behind. */
    method LeaveOrLose(c: nat, leaves: bool)
      requires Alone(Some(c)) && Apart(c)
      modifies this`live, this`strays
      ensures Alone(None) && strays <= live
      ensures strays == old(strays) + (if leaves then {c} * old(live) else {})
      ensures live == if leaves then old(live) else old(live) - {c}
    {
      SubsetOfOne(live - strays, {c});
      if leaves { strays := strays + {c} * live; } else { live := live - {c}; }
      assert live == strays;
    }

    /** The probe answers, or throws, and then the work is rejected. */
    method ProbeSettles(threw: bool, found: bool)
      requires Valid() && at.Probing?
      modifies this`client, this`clients, this`at, this`state, lifecycle
      ensures Valid()
      ensures if threw || !found then Down(false) && lifecycle.log == old(lifecycle.log) + [End(work, !threw)]
              else client == Some(old(clients)) && clients == old(clients) + 1 && at == Launching(old(clients))
    {
      if threw {
        Finish(false);
      } else if !found {
        state := Unavailable;
        Finish(true);
      } else {
        client := Some(clients);
        clients := clients + 1;
        state := Starting;
        at := Launching(client.value);
      }
    }

    /** The process of a client that is being started comes up. */
    method ServerComesUp()
      requires Valid() && at.Launching?
      modifies this`live
      ensures Valid() && live == old(live) + {at.client}
    {
      live := live + {at.client};
    }

    /**
     * `client.start()` settles. A client whose start failed is forgotten and never stopped; `leaves`: its server
     * runs on.
     */
    method StartSettles(ok: bool, leaves: bool)
      requires Valid() && at.Launching?
      modifies this`live, this`strays, this`client, this`at, this`state, lifecycle
      ensures Valid() && at == Nowhere && lifecycle.log == old(lifecycle.log) + [End(work, true)]
      ensures if ok then client == old(client) && live == old(live) && strays == old(strays) && state == Up
              else client == None && live == strays
                   && strays == old(strays) + (if leaves then old({at.client} * live) else {})
    {
      if ok {
        state := Up;
      } else {
        LeaveOrLose(at.client, leaves);
        client := None;
        state := Stopped;
      }
      Finish(true);
    }

    /** A server dies of itself, at any time. */
    method ServerDies(c: nat)
      requires Valid()
      modifies this`live, this`strays, this`state
      ensures Valid() && live == old(live) - {c} && strays == old(strays) - {c}
    {
      live, strays := live - {c}, strays - {c};
      state := Stopped;
    }

    /**
     * But for strays at most one language server is ever running. Whenever no work is running there is none but the
     * one `client` holds, if and only if no failed start or stop left one behind that is still running.
     */
    lemma {:induction false} AtMostOneServer()
      requires Valid()
      ensures |live - strays| <= 1 && (strays == {} ==> |live| <= 1)
      ensures lifecycle.running == map[] ==>
                (live == {} || (client.Some? && live == {client.value}) <==> strays == {})
    {
      var held := match at
        case Stopping(c, _) => {c}
        case Probing => {}
        case Launching(c) => {c}
        case Nowhere => if client.Some? then {client.value} else {};
      SubsetOfOne(live - strays, held);
      if strays == {} { assert live - strays == live; }
    }
  }

  lemma {:induction false} SubsetOfOne(a: set<nat>, b: set<nat>)
    requires a <= b && |b| <= 1
    ensures |a| <= 1 && (a == {} || a == b)
  {
    if a != {} {
      var x :| x in a;
      assert x in b && |b - {x}| == |b| - 1;
      assert b - {x} == {};
      assert b == {x} && a == {x};
    }
  }
}

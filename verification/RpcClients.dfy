/**
 * The JSON-RPC client cache (plugin/platformcaps/platformcapsdatarpc.cpp). getClient activates a
 * plugin through the Controller's client, which it gets by calling itself.
 */
module RpcClients {
  import opened Wrappers

  const CONTROLLER := "Controller"

  /** A created client is told apart by its number; an entry is None between emplace and Create. */
  type Client = nat

  /** An activation sent through the Controller; `before` is the number of clients created by then. */
  datatype Activation = Activation(callsign: string, before: nat)

  datatype Cache = Cache(clients: map<string, Option<Client>>, created: nat, activated: seq<Activation>)

  const EMPTY := Cache(map[], 0, [])

  predicate Activatable(callsign: string) {
    callsign != "" && callsign != CONTROLLER
  }

  /** Every entry holds a client of its own. */
  ghost predicate Distinct(c: Cache) {
    && (forall a :: a in c.clients ==> c.clients[a].Some? && c.clients[a].value < c.created)
    && (forall a, b :: a in c.clients && b in c.clients && a != b ==> c.clients[a] != c.clients[b])
  }

  ghost function Callsigns(activated: seq<Activation>): (callsigns: seq<string>)
    ensures |callsigns| == |activated|
    ensures forall i :: 0 <= i < |activated| ==> callsigns[i] == activated[i].callsign
  {
    seq(|activated|, i requires 0 <= i < |activated| => activated[i].callsign)
  }

  ghost predicate NoRepeats(s: seq<string>) {
    forall i, j :: 0 <= i < j < |s| ==> s[i] != s[j]
  }

  /** Exactly the activatable callsigns with an entry were activated, once each, through the Controller. */
  ghost predicate ActivatedOnce(c: Cache) {
    && (forall a :: a in Callsigns(c.activated) <==> a in c.clients && Activatable(a))
    && NoRepeats(Callsigns(c.activated))
    && (c.activated != [] ==> CONTROLLER in c.clients)
  }

  ghost predicate Valid(c: Cache) {
    Distinct(c) && ActivatedOnce(c)
  }

  ghost function WithClient(c: Cache, callsign: string): Cache {
    if callsign in c.clients then c
    else c.(clients := c.clients[callsign := Some(c.created)], created := c.created + 1)
  }

  /** The cache after getClient: the Controller's client comes first, then the activation, then the client. */
  ghost function AfterGet(c: Cache, callsign: string): Cache {
    if callsign in c.clients || !Activatable(callsign) then WithClient(c, callsign)
    else
      var ready := WithClient(c, CONTROLLER);
      WithClient(ready.(activated := ready.activated + [Activation(callsign, ready.created)]), callsign)
  }

  class JsonRpc {
    var clients: map<string, Option<Client>>
    var created: nat
    ghost var activated: seq<Activation>

    ghost function State(): Cache
      reads this
    {
      Cache(clients, created, activated)
    }

    constructor ()
      ensures State() == EMPTY && Valid(State())
    {
      clients, created, activated := map[], 0, [];
    }

    method CreateClient() returns (client: Client)
      modifies `created
      ensures client == old(created) && created == old(created) + 1
    {
      client := created;
      created := created + 1;
    }

    /** No empty entry stands in the way of a lookup. */
    ghost predicate Ready(callsign: string)
      reads this
    {
      callsign in clients ==> clients[callsign].Some?
    }

    method Activate(callsign: string)
      requires Ready(CONTROLLER)
      modifies this
      ensures State() == var ready := WithClient(old(State()), CONTROLLER);
                         ready.(activated := ready.activated + [Activation(callsign, ready.created)])
      decreases 1
    {
      var _ := GetClient(CONTROLLER);
      activated := activated + [Activation(callsign, created)];
    }

    method GetClient(callsign: string) returns (client: Client)
      requires Ready(callsign) && Ready(CONTROLLER)
      modifies this
      ensures State() == AfterGet(old(State()), callsign)
      ensures callsign in clients && clients[callsign] == Some(client)
      decreases if Activatable(callsign) then 2 else 0
    {
      if callsign !in clients {
        clients := clients[callsign := None];
        if callsign != "" && callsign != CONTROLLER {
          Activate(callsign);
        }
        var proxy := CreateClient();
        clients := clients[callsign := Some(proxy)];
      }
      client := clients[callsign].value;
    }
  }

  // ---------------------------------------------------------------------------------------------
  // Runs
  // ---------------------------------------------------------------------------------------------

  ghost function Run(requests: seq<string>): Cache
    decreases |requests|
  {
    if requests == [] then EMPTY else AfterGet(Run(requests[..|requests| - 1]), requests[|requests| - 1])
  }

  lemma WithClientKeepsDistinct(c: Cache, callsign: string)
    requires Distinct(c)
    ensures Distinct(WithClient(c, callsign))
  {
  }

  lemma GetKeepsValid(c: Cache, callsign: string)
    requires Valid(c)
    ensures Valid(AfterGet(c, callsign))
  {
    if callsign in c.clients || !Activatable(callsign) {
      WithClientKeepsDistinct(c, callsign);
    } else {
      var ready := WithClient(c, CONTROLLER);
      var sent := ready.(activated := ready.activated + [Activation(callsign, ready.created)]);
      WithClientKeepsDistinct(c, CONTROLLER);
      WithClientKeepsDistinct(sent, callsign);
      assert Callsigns(sent.activated) == Callsigns(c.activated) + [callsign];
    }
  }

  lemma GetKeepsClients(c: Cache, callsign: string)
    ensures var after := AfterGet(c, callsign).clients;
            && callsign in after
            && forall other :: other in c.clients ==> other in after && after[other] == c.clients[other]
  {
  }

  /** The activatable callsigns of the requests, each at its first appearance. */
  ghost function FirstRequests(requests: seq<string>): seq<string>
    decreases |requests|
  {
    if requests == [] then []
    else
      var front, last := requests[..|requests| - 1], requests[|requests| - 1];
      FirstRequests(front) + if last != "" && last != "Controller" && last !in front then [last] else []
  }

  lemma {:induction false} FirstRequestsMembers(requests: seq<string>)
    ensures forall callsign :: callsign in FirstRequests(requests) <==>
              callsign in requests && callsign != "" && callsign != "Controller"
    decreases |requests|
  {
    if requests != [] {
      FirstRequestsMembers(requests[..|requests| - 1]);
    }
  }

  lemma {:induction false} ClientsAreRequested(requests: seq<string>)
    ensures forall callsign :: callsign in requests ==> callsign in Run(requests).clients
    ensures forall callsign :: callsign in Run(requests).clients ==> callsign in requests || callsign == CONTROLLER
    decreases |requests|
  {
    if requests != [] {
      var front, last := requests[..|requests| - 1], requests[|requests| - 1];
      ClientsAreRequested(front);
      GetKeepsClients(Run(front), last);
    }
  }

  lemma {:induction false} FirstRequestsAreActivated(requests: seq<string>)
    ensures Valid(Run(requests))
    ensures Callsigns(Run(requests).activated) == FirstRequests(requests)
    decreases |requests|
  {
    if requests != [] {
      var front, last := requests[..|requests| - 1], requests[|requests| - 1];
      FirstRequestsAreActivated(front);
      GetKeepsValid(Run(front), last);
      ClientsAreRequested(front);
    }
  }

  /** Each distinct callsign but "" and the Controller's is activated exactly once, in order of first request. */
  lemma ActivatedOnceEach(requests: seq<string>)
    ensures Valid(Run(requests))
    ensures Callsigns(Run(requests).activated) == FirstRequests(requests)
    ensures forall callsign :: callsign in FirstRequests(requests) <==>
              callsign in requests && callsign != "" && callsign != "Controller"
    ensures forall callsign :: callsign in requests ==> callsign in Run(requests).clients
    ensures forall callsign :: callsign in Run(requests).clients ==> callsign in requests || callsign == CONTROLLER
  {
    FirstRequestsAreActivated(requests);
    FirstRequestsMembers(requests);
    ClientsAreRequested(requests);
  }

  /** Each activation found the Controller's client there, and the plugin's own client was created next. */
  ghost predicate ActivatedInTime(c: Cache) {
    forall i :: 0 <= i < |c.activated| ==>
      var Activation(callsign, before) := c.activated[i];
      && CONTROLLER in c.clients && c.clients[CONTROLLER].Some? && c.clients[CONTROLLER].value < before
      && callsign in c.clients && c.clients[callsign] == Some(before)
  }

  lemma GetActivatesInTime(c: Cache, callsign: string)
    requires Valid(c) && ActivatedInTime(c)
    ensures ActivatedInTime(AfterGet(c, callsign))
  {
    GetKeepsClients(c, callsign);
    var after := AfterGet(c, callsign);
    forall i | 0 <= i < |c.activated|
      ensures after.activated[i] == c.activated[i]
    {
    }
  }

  /** Over all runs a plugin is activated after the Controller's client is created and just before its own. */
  lemma {:induction false} ActivationComesFirst(requests: seq<string>)
    ensures ActivatedInTime(Run(requests))
    decreases |requests|
  {
    if requests != [] {
      var front, last := requests[..|requests| - 1], requests[|requests| - 1];
      ActivationComesFirst(front);
      FirstRequestsAreActivated(front);
      GetActivatesInTime(Run(front), last);
    }
  }

  /** A client handed out stays the one stored for its callsign in every longer run. */
  lemma {:induction false} ClientsStay(requests: seq<string>, more: seq<string>, callsign: string)
    requires callsign in Run(requests).clients
    ensures callsign in Run(requests + more).clients
    ensures Run(requests + more).clients[callsign] == Run(requests).clients[callsign]
    decreases |more|
  {
    if more == [] {
      assert requests + more == requests;
    } else {
      var front := more[..|more| - 1];
      assert (requests + more)[..|requests + more| - 1] == requests + front;
      ClientsStay(requests, front, callsign);
      GetKeepsClients(Run(requests + front), more[|more| - 1]);
    }
  }
}

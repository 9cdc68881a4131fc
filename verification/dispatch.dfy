/** The request loop shared by the daemon revisions that forward: every question is classified
    into an action (skip it, answer it from the local table, or forward it to the server a label
    names), local answers are collected in question order, forwarded questions are batched per
    server, each batch is exchanged once, and the reply is the local answers followed by the
    Answer sections of the exchanges that succeeded. */
module Dispatch {
  import opened Results
  import opened Text
  import opened Dns
  import opened IPNet
  import opened MapOrder

  /** The client policy the revisions share: a client may have questions forwarded when its
      address string is a loopback address with a port. */
  predicate IsLoopbackClient(remoteAddr: string)
  {
    HasPrefix(remoteAddr, "[::1]:") || HasPrefix(remoteAddr, "127.0.0.1:")
  }

  datatype Action = Skip | Local(answers: seq<RR>) | Forward(server: Address)

  /** What the question loop leaves behind: the answers found locally and the batches of
      questions to forward, keyed by server address. */
  datatype Plan = Plan(local: seq<RR>, batches: map<Address, seq<Question>>)

  /** One exchange with a remote server; `None` stands for any transport or protocol error. */
  type Exchange = (Address, seq<Question>) -> Option<seq<RR>>

  // ---------------------------------------------------------------------------------------------
  // Reference definitions: what the loop should produce, read off the per-question actions

  /** All local answers, question by question. */
  function LocalAnswers(actions: seq<Action>): seq<RR>
  {
    if |actions| == 0 then []
    else (if actions[0].Local? then actions[0].answers else []) + LocalAnswers(actions[1..])
  }

  /** The questions forwarded to `s`, in question order. */
  function Batch(qs: seq<Question>, actions: seq<Action>, s: Address): seq<Question>
    requires |qs| == |actions|
  {
    if |qs| == 0 then []
    else (if actions[0] == Forward(s) then [qs[0]] else []) + Batch(qs[1..], actions[1..], s)
  }

  predicate ForwardsTo(actions: seq<Action>, s: Address)
  {
    exists i :: 0 <= i < |actions| && actions[i] == Forward(s)
  }

  // ---------------------------------------------------------------------------------------------
  // The loop

  /** The batch queued so far for `s` (Go's zero value, the empty slice, when there is none). */
  function Queued(plan: Plan, s: Address): seq<Question>
  {
    if s in plan.batches then plan.batches[s] else []
  }

  /** One iteration: append the local answers, or append the question to its server's batch. */
  function Step(plan: Plan, q: Question, a: Action): Plan
  {
    match a
    case Skip => plan
    case Local(answers) => plan.(local := plan.local + answers)
    case Forward(s) => plan.(batches := plan.batches[s := Queued(plan, s) + [q]])
  }

  lemma ForwardsToCons(actions: seq<Action>, s: Address)
    requires |actions| > 0
    ensures ForwardsTo(actions, s) <==> actions[0] == Forward(s) || ForwardsTo(actions[1..], s)
  {
    if ForwardsTo(actions, s) && actions[0] != Forward(s) {
      var i :| 0 <= i < |actions| && actions[i] == Forward(s);
      assert actions[1..][i - 1] == Forward(s);
    }
    if ForwardsTo(actions[1..], s) {
      var i :| 0 <= i < |actions[1..]| && actions[1..][i] == Forward(s);
      assert actions[i + 1] == Forward(s);
    }
  }

  /** The loop from an intermediate state: the local answers it adds are the reference ones. */
  function CollectFrom(qs: seq<Question>, actions: seq<Action>, plan: Plan): (r: Plan)
    requires |qs| == |actions|
    ensures r.local == plan.local + LocalAnswers(actions)
    decreases |qs|
  {
    if |qs| == 0 then plan
    else CollectFrom(qs[1..], actions[1..], Step(plan, qs[0], actions[0]))
  }

  /** The loop opens a batch for exactly the servers some question is forwarded to. */
  lemma {:induction false} CollectFromKeys(qs: seq<Question>, actions: seq<Action>, plan: Plan, s: Address)
    requires |qs| == |actions|
    ensures s in CollectFrom(qs, actions, plan).batches <==> s in plan.batches || ForwardsTo(actions, s)
    decreases |qs|
  {
    if |qs| > 0 {
      CollectFromKeys(qs[1..], actions[1..], Step(plan, qs[0], actions[0]), s);
      ForwardsToCons(actions, s);
    }
  }

  /** The loop appends to each server's batch exactly the reference batch. */
  lemma {:induction false} CollectFromQueued(qs: seq<Question>, actions: seq<Action>, plan: Plan, s: Address)
    requires |qs| == |actions|
    ensures Queued(CollectFrom(qs, actions, plan), s) == Queued(plan, s) + Batch(qs, actions, s)
    decreases |qs|
  {
    if |qs| > 0 {
      var next := Step(plan, qs[0], actions[0]);
      CollectFromQueued(qs[1..], actions[1..], next, s);
      var x := if actions[0] == Forward(s) then [qs[0]] else [];
      assert Queued(next, s) == Queued(plan, s) + x;
      assert Batch(qs, actions, s) == x + Batch(qs[1..], actions[1..], s);
    } else {
      assert Batch(qs, actions, s) == [];
    }
  }

  lemma CollectBatches(qs: seq<Question>, actions: seq<Action>)
    requires |qs| == |actions|
    ensures forall s :: s in CollectFrom(qs, actions, Plan([], map[])).batches <==> ForwardsTo(actions, s)
    ensures forall s :: s in CollectFrom(qs, actions, Plan([], map[])).batches ==>
                         CollectFrom(qs, actions, Plan([], map[])).batches[s] == Batch(qs, actions, s)
  {
    var r := CollectFrom(qs, actions, Plan([], map[]));
    forall s
      ensures s in r.batches <==> ForwardsTo(actions, s)
      ensures s in r.batches ==> r.batches[s] == Batch(qs, actions, s)
    {
      CollectFromKeys(qs, actions, Plan([], map[]), s);
      CollectFromQueued(qs, actions, Plan([], map[]), s);
    }
  }

  /** The question loop of `handleRequest`, given each question's action. */
  function Collect(qs: seq<Question>, actions: seq<Action>): (r: Plan)
    requires |qs| == |actions|
    ensures r.local == LocalAnswers(actions)
    ensures forall s :: s in r.batches <==> ForwardsTo(actions, s)
    ensures forall s :: s in r.batches ==> r.batches[s] == Batch(qs, actions, s)
  {
    CollectBatches(qs, actions);
    CollectFrom(qs, actions, Plan([], map[]))
  }

  /** Each question's action under a classification of single questions. */
  function ActionsOf(qs: seq<Question>, classify: Question -> Action): (actions: seq<Action>)
    ensures |actions| == |qs|
    ensures forall i :: 0 <= i < |qs| ==> actions[i] == classify(qs[i])
  {
    seq(|qs|, i requires 0 <= i < |qs| => classify(qs[i]))
  }

  /** The state after the question loop of a request whose questions are classified by
      `classify` (which sees one snapshot of the server's configuration). */
  function PlanOf(qs: seq<Question>, classify: Question -> Action): Plan
  {
    Collect(qs, ActionsOf(qs, classify))
  }

  /** A question is in the batch for `s` exactly when some occurrence of it was forwarded there. */
  lemma {:induction false} BatchMembers(qs: seq<Question>, actions: seq<Action>, s: Address, q: Question)
    requires |qs| == |actions|
    ensures q in Batch(qs, actions, s) <==> exists i :: 0 <= i < |qs| && qs[i] == q && actions[i] == Forward(s)
  {
    if |qs| > 0 {
      BatchMembers(qs[1..], actions[1..], s, q);
      if q in Batch(qs[1..], actions[1..], s) {
        var i :| 0 <= i < |qs| - 1 && qs[1..][i] == q && actions[1..][i] == Forward(s);
        assert qs[i + 1] == q && actions[i + 1] == Forward(s);
      }
      if exists i :: 0 <= i < |qs| && qs[i] == q && actions[i] == Forward(s) {
        var i :| 0 <= i < |qs| && qs[i] == q && actions[i] == Forward(s);
        if i > 0 {
          assert qs[1..][i - 1] == q && actions[1..][i - 1] == Forward(s);
        }
      }
    }
  }

  /** A local answer comes from some question's local action, and all of them are kept. */
  lemma {:induction false} LocalAnswersMembers(actions: seq<Action>, x: RR)
    ensures x in LocalAnswers(actions) <==> exists i :: 0 <= i < |actions| && actions[i].Local? && x in actions[i].answers
  {
    if |actions| > 0 {
      LocalAnswersMembers(actions[1..], x);
      if exists i :: 0 <= i < |actions| && actions[i].Local? && x in actions[i].answers {
        var i :| 0 <= i < |actions| && actions[i].Local? && x in actions[i].answers;
        if i > 0 {
          assert actions[1..][i - 1] == actions[i];
        }
      }
      if x in LocalAnswers(actions[1..]) {
        var i :| 0 <= i < |actions| - 1 && actions[1..][i].Local? && x in actions[1..][i].answers;
        assert actions[i + 1] == actions[1..][i];
      }
    }
  }

  /** Forwarding, request-wide: a question is queued for `s` exactly when it is one of the
      request's questions and its classification forwards it to `s`. */
  lemma PlanForwardIff(qs: seq<Question>, classify: Question -> Action, q: Question, s: Address)
    ensures (s in PlanOf(qs, classify).batches && q in PlanOf(qs, classify).batches[s])
        <==> q in qs && classify(q) == Forward(s)
  {
    var actions := ActionsOf(qs, classify);
    BatchMembers(qs, actions, s, q);
    if q in qs && classify(q) == Forward(s) {
      var i :| 0 <= i < |qs| && qs[i] == q;
      assert actions[i] == Forward(s);
    }
  }

  /** Local answers, request-wide: a record is answered locally exactly when some question of the
      request is classified as local with that record among its answers. */
  lemma PlanLocalIff(qs: seq<Question>, classify: Question -> Action, x: RR)
    ensures x in PlanOf(qs, classify).local
        <==> exists i :: 0 <= i < |qs| && classify(qs[i]).Local? && x in classify(qs[i]).answers
  {
    LocalAnswersMembers(ActionsOf(qs, classify), x);
  }

  /** The local answers are the per-question answers concatenated in question order. */
  lemma {:induction false} PlanLocalOrder(qs: seq<Question>, classify: Question -> Action)
    requires |qs| > 0
    ensures PlanOf(qs, classify).local == AnswersOf(classify(qs[0])) + PlanOf(qs[1..], classify).local
  {
    assert ActionsOf(qs, classify)[1..] == ActionsOf(qs[1..], classify);
  }

  function AnswersOf(a: Action): seq<RR>
  {
    if a.Local? then a.answers else []
  }

  // ---------------------------------------------------------------------------------------------
  // Forwarding and the reply

  /** What one exchange contributes: its Answer section, or nothing when it failed. */
  function Outcome(exchange: Exchange, s: Address, batch: seq<Question>): seq<RR>
  {
    match exchange(s, batch)
    case Some(answers) => answers
    case None => []
  }

  /** The forwarding loop over the batches in map iteration order `order`, no retries. */
  function Forwarded(order: seq<Address>, batches: map<Address, seq<Question>>, exchange: Exchange): seq<RR>
    requires forall i :: 0 <= i < |order| ==> order[i] in batches
  {
    if |order| == 0 then []
    else Outcome(exchange, order[0], batches[order[0]]) + Forwarded(order[1..], batches, exchange)
  }

  /** The answers the exchanges with the servers in `keys` contribute, counted with multiplicity
      and independent of any order: one Answer section per successful server. */
  ghost function OutcomesOf(exchange: Exchange, batches: map<Address, seq<Question>>, keys: set<Address>): multiset<RR>
    requires keys <= batches.Keys
    decreases keys
  {
    if keys == {} then multiset{}
    else
      var s :| s in keys;
      multiset(Outcome(exchange, s, batches[s])) + OutcomesOf(exchange, batches, keys - {s})
  }

  /** Any server of the set may be taken out first. */
  lemma {:induction false} OutcomesOfRemove(exchange: Exchange, batches: map<Address, seq<Question>>, keys: set<Address>, t: Address)
    requires keys <= batches.Keys && t in keys
    ensures OutcomesOf(exchange, batches, keys) == multiset(Outcome(exchange, t, batches[t])) + OutcomesOf(exchange, batches, keys - {t})
    decreases keys
  {
    var s :| s in keys && OutcomesOf(exchange, batches, keys) == multiset(Outcome(exchange, s, batches[s])) + OutcomesOf(exchange, batches, keys - {s});
    if s != t {
      OutcomesOfRemove(exchange, batches, keys - {s}, t);
      OutcomesOfRemove(exchange, batches, keys - {t}, s);
      assert keys - {s} - {t} == keys - {t} - {s};
    }
  }

  /** The forwarding loop, in any iteration order, contributes each successful server's Answer
      section exactly once. */
  lemma {:induction false} ForwardedIsOutcomes(order: seq<Address>, batches: map<Address, seq<Question>>, keys: set<Address>, exchange: Exchange)
    requires IsOrderOf(order, keys) && keys <= batches.Keys
    ensures multiset(Forwarded(order, batches, exchange)) == OutcomesOf(exchange, batches, keys)
  {
    EmptyOrder(order, keys);
    if |order| > 0 {
      var s := order[0];
      RestIsOrder(order, keys);
      ForwardedIsOutcomes(order[1..], batches, keys - {s}, exchange);
      OutcomesOfRemove(exchange, batches, keys, s);
    }
  }

  /** The reply: local answers first, then the Answer sections of the successful exchanges. */
  function Respond(plan: Plan, order: seq<Address>, exchange: Exchange): (reply: seq<RR>)
    requires IsOrderOf(order, plan.batches.Keys)
    ensures |plan.local| <= |reply| && reply[..|plan.local|] == plan.local
    ensures (forall s :: s in plan.batches ==> exchange(s, plan.batches[s]).None?) ==> reply == plan.local
    ensures forall s :: s in plan.batches && exchange(s, plan.batches[s]).Some? ==>
              multiset(exchange(s, plan.batches[s]).value) <= multiset(reply)
    ensures forall x :: x in reply ==>
              x in plan.local || exists s :: s in plan.batches && exchange(s, plan.batches[s]).Some? && x in exchange(s, plan.batches[s]).value
    ensures multiset(reply) == multiset(plan.local) + OutcomesOf(exchange, plan.batches, plan.batches.Keys)
  {
    ForwardedSummary(order, plan.batches, exchange);
    ForwardedIsOutcomes(order, plan.batches, plan.batches.Keys, exchange);
    forall x | x in Forwarded(order, plan.batches, exchange)
      ensures exists s :: s in plan.batches && exchange(s, plan.batches[s]).Some? && x in exchange(s, plan.batches[s]).value
    {
      ForwardedOnly(order, plan.batches, exchange, x);
    }
    plan.local + Forwarded(order, plan.batches, exchange)
  }

  lemma ForwardedSummary(order: seq<Address>, batches: map<Address, seq<Question>>, exchange: Exchange)
    requires IsOrderOf(order, batches.Keys)
    ensures (forall s :: s in batches ==> exchange(s, batches[s]).None?) ==> Forwarded(order, batches, exchange) == []
    ensures forall s :: s in batches && exchange(s, batches[s]).Some? ==>
              multiset(exchange(s, batches[s]).value) <= multiset(Forwarded(order, batches, exchange))
  {
    if forall s :: s in batches ==> exchange(s, batches[s]).None? {
      ForwardedFailures(order, batches, exchange);
    }
    forall s | s in batches && exchange(s, batches[s]).Some?
      ensures multiset(exchange(s, batches[s]).value) <= multiset(Forwarded(order, batches, exchange))
    {
      var k :| 0 <= k < |order| && order[k] == s;
      ForwardedContains(order, batches, exchange, k);
    }
  }

  lemma {:induction false} ForwardedFailures(order: seq<Address>, batches: map<Address, seq<Question>>, exchange: Exchange)
    requires forall i :: 0 <= i < |order| ==> order[i] in batches
    requires forall s :: s in batches ==> exchange(s, batches[s]).None?
    ensures Forwarded(order, batches, exchange) == []
  {
    if |order| > 0 {
      ForwardedFailures(order[1..], batches, exchange);
    }
  }

  lemma {:induction false} ForwardedContains(order: seq<Address>, batches: map<Address, seq<Question>>, exchange: Exchange, k: nat)
    requires forall i :: 0 <= i < |order| ==> order[i] in batches
    requires k < |order|
    ensures multiset(Outcome(exchange, order[k], batches[order[k]])) <= multiset(Forwarded(order, batches, exchange))
  {
    if k > 0 {
      ForwardedContains(order[1..], batches, exchange, k - 1);
    }
  }

  /** Every forwarded answer comes from a successful exchange with one of the listed servers. */
  lemma {:induction false} ForwardedOnly(order: seq<Address>, batches: map<Address, seq<Question>>, exchange: Exchange, x: RR)
    requires forall i :: 0 <= i < |order| ==> order[i] in batches
    requires x in Forwarded(order, batches, exchange)
    ensures exists s :: s in batches && exchange(s, batches[s]).Some? && x in exchange(s, batches[s]).value
  {
    var s := order[0];
    if x in Outcome(exchange, s, batches[s]) {
      assert exchange(s, batches[s]).Some? && x in exchange(s, batches[s]).value;
    } else {
      ForwardedOnly(order[1..], batches, exchange, x);
    }
  }

  /** Taking the batch at position `k` out of the iteration order removes exactly its answers. */
  lemma {:induction false} ForwardedRemove(order: seq<Address>, batches: map<Address, seq<Question>>, exchange: Exchange, k: nat)
    requires forall i :: 0 <= i < |order| ==> order[i] in batches
    requires k < |order|
    ensures multiset(Forwarded(order, batches, exchange))
         == multiset(Outcome(exchange, order[k], batches[order[k]])) + multiset(Forwarded(order[..k] + order[k + 1..], batches, exchange))
  {
    if k > 0 {
      ForwardedRemove(order[1..], batches, exchange, k - 1);
      DropCons(order, k);
    } else {
      assert order[..k] + order[k + 1..] == order[1..];
    }
  }

  lemma DropCons(order: seq<Address>, k: nat)
    requires 0 < k < |order|
    ensures order[..k] + order[k + 1..] == [order[0]] + (order[1..][..k - 1] + order[1..][k..])
  {
    assert order[..k] == [order[0]] + order[1..][..k - 1];
    assert order[k + 1..] == order[1..][k..];
  }

  /** The reply holds the same answers, with the same multiplicities, whatever the map iteration
      order: only the order of forwarded Answer sections can differ. */
  lemma {:induction false} ForwardedOrderIrrelevant(o1: seq<Address>, o2: seq<Address>, batches: map<Address, seq<Question>>, keys: set<Address>, exchange: Exchange)
    requires IsOrderOf(o1, keys) && IsOrderOf(o2, keys)
    requires forall s :: s in keys ==> s in batches
    ensures multiset(Forwarded(o1, batches, exchange)) == multiset(Forwarded(o2, batches, exchange))
    decreases |o1|
  {
    EmptyOrder(o1, keys);
    EmptyOrder(o2, keys);
    if |o1| > 0 {
      var s := o1[0];
      assert s in o2;
      var k :| 0 <= k < |o2| && o2[k] == s;
      var o2r := o2[..k] + o2[k + 1..];
      ForwardedRemove(o2, batches, exchange, k);
      RestIsOrder(o1, keys);
      RemoveIsOrder(o2, keys, k);
      ForwardedOrderIrrelevant(o1[1..], o2r, batches, keys - {s}, exchange);
    }
  }

  lemma RemoveIsOrder(order: seq<Address>, keys: set<Address>, k: nat)
    requires IsOrderOf(order, keys) && k < |order|
    ensures IsOrderOf(order[..k] + order[k + 1..], keys - {order[k]})
  {
    var r := order[..k] + order[k + 1..];
    assert forall i :: 0 <= i < |r| ==> r[i] == if i < k then order[i] else order[i + 1];
    forall t ensures t in r <==> t in keys - {order[k]} {
      if t in keys - {order[k]} {
        var j :| 0 <= j < |order| && order[j] == t;
        if j < k { assert r[j] == t; } else { assert r[j - 1] == t; }
      }
    }
  }

  lemma RespondOrderIrrelevant(plan: Plan, o1: seq<Address>, o2: seq<Address>, exchange: Exchange)
    requires IsOrderOf(o1, plan.batches.Keys) && IsOrderOf(o2, plan.batches.Keys)
    ensures multiset(Respond(plan, o1, exchange)) == multiset(Respond(plan, o2, exchange))
  {
    ForwardedOrderIrrelevant(o1, o2, plan.batches, plan.batches.Keys, exchange);
  }
}

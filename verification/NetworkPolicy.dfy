/** Network policies: a list kept sorted by falling priority, scanned for the first match.
    Evaluation looks at protocol and port only; source and destination play no part. */
module NetworkPolicy {
  import opened Machine
  import opened StableOrder

  datatype Protocol = Tcp | Udp | Icmp | Any
  datatype Action = Allow | Deny | Log

  datatype Policy = Policy(
    name: string, priority: nat, protocol: Option<Protocol>, ports: Option<seq<nat>>, action: Action)

  predicate Matches(policy: Policy, protocol: Protocol, port: nat) {
    && (policy.protocol.Some? ==> policy.protocol.value == protocol || policy.protocol.value == Any)
    && (policy.ports.Some? ==> port in policy.ports.value)
  }

  /** The protocols that a policy is for: all, unless it names one other than `Any`. */
  function ProtocolsOf(policy: Policy): set<Protocol> {
    match policy.protocol
    case None => {Tcp, Udp, Icmp, Any}
    case Some(Any) => {Tcp, Udp, Icmp, Any}
    case Some(p) => {p}
  }

  /** A policy applies to a packet by protocol, and by port if it lists ports. */
  ghost predicate Applies(policy: Policy, protocol: Protocol, port: nat) {
    protocol in ProtocolsOf(policy) &&
    (policy.ports == None || exists i :: 0 <= i < |policy.ports.value| && policy.ports.value[i] == port)
  }

  lemma MatchesIffApplies(policy: Policy, protocol: Protocol, port: nat)
    ensures Matches(policy, protocol, port) <==> Applies(policy, protocol, port)
  {
  }

  function Matcher(protocol: Protocol, port: nat): Policy -> bool {
    (policy: Policy) => Matches(policy, protocol, port)
  }

  /** Sorting by this key puts the highest priority first. */
  function Rank(): Policy -> int {
    (policy: Policy) => -(policy.priority as int)
  }

  function Evaluate(policies: seq<Policy>, protocol: Protocol, port: nat): Action {
    var m := FirstMatch(policies, Matcher(protocol, port));
    if m.Some? then m.value.action else Allow
  }

  class NetworkManager {
    var policies: seq<Policy>

    constructor ()
      ensures policies == AfterPushes([], Rank())
    {
      policies := [];
    }

    method AddPolicy(policy: Policy)
      modifies this
      ensures policies == Sort(old(policies) + [policy], Rank())
    {
      policies := policies + [policy];
      policies := Sort(policies, Rank());
    }

    method EvaluatePolicy(protocol: Protocol, port: nat) returns (action: Action)
      ensures action == Evaluate(policies, protocol, port)
    {
      for i := 0 to |policies|
        invariant Evaluate(policies, protocol, port) == Evaluate(policies[i..], protocol, port)
      {
        var policy := policies[i];
        assert policies[i..][1..] == policies[i + 1..];
        if policy.protocol.Some? && policy.protocol.value != protocol && policy.protocol.value != Any {
          continue;
        }
        if policy.ports.Some? && port !in policy.ports.value {
          continue;
        }
        return policy.action;
      }
      return Allow;
    }
  }

  /** Policy `i` of the history decides: it applies, no policy that applies has a higher
      priority, and none of the same priority was added earlier. */
  ghost predicate Decides(history: seq<Policy>, i: nat, protocol: Protocol, port: nat) {
    && i < |history| && Applies(history[i], protocol, port)
    && forall j :: 0 <= j < |history| && Applies(history[j], protocol, port) ==>
         history[j].priority < history[i].priority || (history[j].priority == history[i].priority && i <= j)
  }

  /** After any history of additions, evaluation returns the action of the deciding policy,
      and Allow when nothing applies. */
  lemma EvaluationPicksDeciding(history: seq<Policy>, protocol: Protocol, port: nat)
    ensures
      var action := Evaluate(AfterPushes(history, Rank()), protocol, port);
      || (exists i: nat :: Decides(history, i, protocol, port) && action == history[i].action)
      || (action == Allow && forall i :: 0 <= i < |history| ==> !Applies(history[i], protocol, port))
  {
    var p := Matcher(protocol, port);
    forall i | 0 <= i < |history|
      ensures p(history[i]) <==> Applies(history[i], protocol, port)
    {
      MatchesIffApplies(history[i], protocol, port);
    }
    FirstMatchIsBest(history, p, Rank());
    var m := FirstMatch(AfterPushes(history, Rank()), p);
    if m.Some? {
      var i: nat :| IsBest(history, p, Rank(), i) && history[i] == m.value;
      assert Decides(history, i, protocol, port) by {
        forall j | 0 <= j < |history| && Applies(history[j], protocol, port)
          ensures history[j].priority < history[i].priority || (history[j].priority == history[i].priority && i <= j)
        {
          assert p(history[j]);
        }
      }
    } else {
      forall i | 0 <= i < |history|
        ensures !Applies(history[i], protocol, port)
      {
        assert !p(history[i]);
      }
    }
  }
}

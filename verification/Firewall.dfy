/**
 The firewall: an ordered table of rules, of which the first enabled match decides a packet,
 and default deny. The class RuleTable keeps the table in a fixed array and is proved against
 the functions on FwState.
 */
module Firewall {
  import opened Machine

  const MAX_RULES := 256

  datatype Action = Allow | Deny

  datatype Protocol = AnyProtocol | Tcp | Udp | Icmp

  datatype Direction = Inbound | Outbound | Both

  datatype Rule = Rule(
    id: uint32, action: Action, protocol: Protocol, direction: Direction,
    srcIp: uint32, dstIp: uint32, srcPort: uint16, dstPort: uint16, enabled: bool)

  datatype Packet = Packet(
    protocol: Protocol, direction: Direction,
    srcIp: uint32, dstIp: uint32, srcPort: uint16, dstPort: uint16)

  datatype Stats = Stats(blocked: uint32, allowed: uint32, total: uint32, lastBlockedIp: uint32)

  datatype FwState = FwState(rules: seq<Rule>, nextId: uint32, on: bool, stats: Stats)

  // ----- what the rules say

  predicate Matches(r: Rule, p: Packet) {
    && (r.protocol == AnyProtocol || r.protocol == p.protocol)
    && (r.direction == Both || r.direction == p.direction)
    && (r.srcIp == 0 || r.srcIp == p.srcIp)
    && (r.dstIp == 0 || r.dstIp == p.dstIp)
    && (r.srcPort == 0 || r.srcPort == p.srcPort)
    && (r.dstPort == 0 || r.dstPort == p.dstPort)
  }

  predicate Applies(r: Rule, p: Packet) {
    r.enabled && Matches(r, p)
  }

  /** The position of the first enabled rule that matches, or -1. */
  function FirstMatch(rules: seq<Rule>, p: Packet): (r: int)
    ensures r == -1 <==> forall i :: 0 <= i < |rules| ==> !Applies(rules[i], p)
    ensures r != -1 ==> 0 <= r < |rules| && Applies(rules[r], p) && forall i :: 0 <= i < r ==> !Applies(rules[i], p)
  {
    if rules == [] then -1
    else if Applies(rules[0], p) then 0
    else
      var r := FirstMatch(rules[1..], p);
      if r == -1 then -1 else r + 1
  }

  /** Whether the packet passes: the first match decides, and nothing matching means no. */
  predicate Passes(rules: seq<Rule>, p: Packet) {
    FirstMatch(rules, p) != -1 && rules[FirstMatch(rules, p)].action == Allow
  }

  // ----- what each operation does to the state

  /** The state after firewall_add_rule, and the id it returns: 0 when the table is full. The id of r is not used. */
  function AddRule(s: FwState, r: Rule): (FwState, uint32) {
    if |s.rules| >= MAX_RULES then (s, 0)
    else (s.(rules := s.rules + [r.(id := s.nextId, enabled := true)], nextId := Add32(s.nextId, 1)), s.nextId)
  }

  function IndexOf(rules: seq<Rule>, id: uint32): (r: int)
    ensures r == -1 <==> forall i :: 0 <= i < |rules| ==> rules[i].id != id
    ensures r != -1 ==> 0 <= r < |rules| && rules[r].id == id && forall i :: 0 <= i < r ==> rules[i].id != id
  {
    if rules == [] then -1
    else if rules[0].id == id then 0
    else
      var r := IndexOf(rules[1..], id);
      if r == -1 then -1 else r + 1
  }

  function DeleteAt(rules: seq<Rule>, i: nat): seq<Rule>
    requires i < |rules|
  {
    rules[..i] + rules[i + 1..]
  }

  function Remove(rules: seq<Rule>, id: uint32): seq<Rule> {
    if IndexOf(rules, id) == -1 then rules else DeleteAt(rules, IndexOf(rules, id))
  }

  /** The statistics after a packet; only a matching rule records the address it blocked. */
  function Count(st: Stats, rules: seq<Rule>, p: Packet): Stats {
    if Passes(rules, p) then st.(total := Add32(st.total, 1), allowed := Add32(st.allowed, 1))
    else st.(total := Add32(st.total, 1), blocked := Add32(st.blocked, 1),
             lastBlockedIp := if FirstMatch(rules, p) == -1 then st.lastBlockedIp else p.srcIp)
  }

  /** The state after firewall_check_packet, and its verdict. A disabled firewall passes everything uncounted. */
  function CheckPacket(s: FwState, p: Packet): (FwState, bool) {
    if !s.on then (s, true) else (s.(stats := Count(s.stats, s.rules, p)), Passes(s.rules, p))
  }

  function InboundTcp(port: uint16): Rule {
    Rule(0, Allow, Tcp, Inbound, 0, 0, 0, port, true)
  }

  const BLANK := FwState([], 1, true, Stats(0, 0, 0, 0))

  function InitState(): FwState {
    AddRule(AddRule(AddRule(AddRule(BLANK, InboundTcp(22)).0, InboundTcp(80)).0, InboundTcp(443)).0, InboundTcp(8080)).0
  }

  // ----- the table itself

  class RuleTable {
    const rules: array<Rule>
    var ruleCount: nat
    var nextRuleId: uint32
    var enabled: bool
    var stats: Stats

    ghost predicate Valid()
      reads this
    {
      rules.Length == MAX_RULES && ruleCount <= MAX_RULES
    }

    ghost function State(): (s: FwState)
      requires Valid()
      reads this, rules
    {
      FwState(rules[..ruleCount], nextRuleId, enabled, stats)
    }

    constructor ()
      ensures Valid() && State() == BLANK && fresh(rules)
    {
      rules := new Rule[MAX_RULES](_ => InboundTcp(0));
      ruleCount, nextRuleId, enabled, stats := 0, 1, true, Stats(0, 0, 0, 0);
      new;
      assert rules[..0] == [];
    }

    method AddFirewallRule(r: Rule) returns (id: uint32)
      requires Valid()
      modifies this`ruleCount, this`nextRuleId, rules
      ensures Valid() && (State(), id) == AddRule(old(State()), r)
    {
      if ruleCount >= MAX_RULES {
        return 0;
      }
      id := nextRuleId;
      nextRuleId := Add32(nextRuleId, 1);
      rules[ruleCount] := r.(id := id, enabled := true);
      ruleCount := ruleCount + 1;
      assert rules[..ruleCount] == old(rules[..ruleCount]) + [rules[ruleCount - 1]];
    }

    method Init()
      requires Valid()
      modifies this, rules
      ensures Valid() && State() == InitState()
    {
      ruleCount, nextRuleId, enabled, stats := 0, 1, true, Stats(0, 0, 0, 0);
      assert State() == BLANK;
      var _ := AddFirewallRule(InboundTcp(22));
      var _ := AddFirewallRule(InboundTcp(80));
      var _ := AddFirewallRule(InboundTcp(443));
      var _ := AddFirewallRule(InboundTcp(8080));
    }

    method RemoveAt(i: nat)
      requires Valid() && i < ruleCount
      modifies this`ruleCount, rules
      ensures Valid() && State() == old(State()).(rules := DeleteAt(old(State()).rules, i))
    {
      ghost var before := rules[..ruleCount];
      for j := i to ruleCount - 1
        invariant ruleCount == |before|
        invariant forall m :: 0 <= m < i ==> rules[m] == before[m]
        invariant forall m :: i <= m < j ==> rules[m] == before[m + 1]
        invariant forall m :: j <= m < ruleCount ==> rules[m] == before[m]
      {
        rules[j] := rules[j + 1];
      }
      ruleCount := ruleCount - 1;
      assert rules[..ruleCount] == DeleteAt(before, i);
    }

    method RemoveFirewallRule(id: uint32) returns (r: int)
      requires Valid()
      modifies this`ruleCount, rules
      ensures Valid() && State() == old(State()).(rules := Remove(old(State()).rules, id))
      ensures r == if IndexOf(old(State()).rules, id) == -1 then -1 else 0
    {
      hide IndexOf, DeleteAt;
      for i := 0 to ruleCount
        invariant State() == old(State())
        invariant forall m :: 0 <= m < i ==> rules[m].id != id
      {
        if rules[i].id == id {
          assert IndexOf(State().rules, id) == i;
          RemoveAt(i);
          return 0;
        }
      }
      return -1;
    }

    method Check(p: Packet) returns (pass: bool)
      requires Valid()
      modifies this`stats
      ensures Valid() && (State(), pass) == CheckPacket(old(State()), p)
    {
      if !enabled {
        return true;
      }
      stats := stats.(total := Add32(stats.total, 1));
      ghost var table := rules[..ruleCount];
      for i := 0 to ruleCount
        invariant forall m :: 0 <= m < i ==> !Applies(rules[m], p)
      {
        assert rules[i] == table[i];
        if rules[i].enabled {
          var matches := true;
          if rules[i].protocol != AnyProtocol && rules[i].protocol != p.protocol {
            matches := false;
          }
          if rules[i].direction != Both && rules[i].direction != p.direction {
            matches := false;
          }
          if rules[i].srcIp != 0 && rules[i].srcIp != p.srcIp {
            matches := false;
          }
          if rules[i].dstIp != 0 && rules[i].dstIp != p.dstIp {
            matches := false;
          }
          if rules[i].srcPort != 0 && rules[i].srcPort != p.srcPort {
            matches := false;
          }
          if rules[i].dstPort != 0 && rules[i].dstPort != p.dstPort {
            matches := false;
          }
          if matches {
            assert FirstMatch(table, p) == i;
            if rules[i].action == Allow {
              stats := stats.(allowed := Add32(stats.allowed, 1));
              return true;
            } else {
              stats := stats.(blocked := Add32(stats.blocked, 1), lastBlockedIp := p.srcIp);
              return false;
            }
          }
        }
      }
      assert FirstMatch(table, p) == -1;
      stats := stats.(blocked := Add32(stats.blocked, 1));
      return false;
    }

    method SetEnabled(on: bool)
      requires Valid()
      modifies this`enabled
      ensures Valid() && State() == old(State()).(on := on)
    {
      enabled := on;
    }
  }
}

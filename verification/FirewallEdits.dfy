/**
 What editing the rule table does to the verdict of every packet, and what runs of the firewall keep.
 */
module FirewallEdits {
  import opened Machine
  import opened Firewall

  // ----- shadowed rules

  /** Field by field, the earlier rule has a wildcard or the value of the later one. */
  predicate Covers(early: Rule, late: Rule) {
    && (early.protocol == AnyProtocol || early.protocol == late.protocol)
    && (early.direction == Both || early.direction == late.direction)
    && (early.srcIp == 0 || early.srcIp == late.srcIp)
    && (early.dstIp == 0 || early.dstIp == late.dstIp)
    && (early.srcPort == 0 || early.srcPort == late.srcPort)
    && (early.dstPort == 0 || early.dstPort == late.dstPort)
  }

  /** A value that a field with value v matches and a field with another value w, not a wildcard, does not. */
  function Outside(v: int, w: int): int {
    if v != 0 then v else if w == 1 then 2 else 1
  }

  /** A packet that the later rule matches, and the earlier one only if it covers the later one. */
  function Witness(early: Rule, late: Rule): Packet {
    Packet(
      if late.protocol != AnyProtocol then late.protocol else if early.protocol == Tcp then Udp else Tcp,
      if late.direction != Both then late.direction else if early.direction == Inbound then Outbound else Inbound,
      Outside(late.srcIp, early.srcIp), Outside(late.dstIp, early.dstIp),
      Outside(late.srcPort, early.srcPort), Outside(late.dstPort, early.dstPort))
  }

  /** The field-wise test decides whether the earlier rule matches every packet the later one matches. */
  lemma CoversIff(early: Rule, late: Rule)
    ensures Covers(early, late) <==> forall p :: Matches(late, p) ==> Matches(early, p)
  {
    var p := Witness(early, late);
    assert Matches(late, p);
  }

  lemma MatchOfParts(a: seq<Rule>, b: seq<Rule>, p: Packet)
    ensures FirstMatch(a + b, p) ==
            if FirstMatch(a, p) != -1 then FirstMatch(a, p)
            else if FirstMatch(b, p) != -1 then |a| + FirstMatch(b, p) else -1
    ensures Passes(a + b, p) == if FirstMatch(a, p) != -1 then Passes(a, p) else Passes(b, p)
  {
    var r := FirstMatch(a + b, p);
    assert forall i :: 0 <= i < |a| ==> (a + b)[i] == a[i];
    assert forall i :: 0 <= i < |b| ==> (a + b)[|a| + i] == b[i];
    if FirstMatch(a, p) != -1 {
      assert Applies((a + b)[FirstMatch(a, p)], p);
    } else if FirstMatch(b, p) != -1 {
      assert Applies((a + b)[|a| + FirstMatch(b, p)], p);
    }
  }

  /** Removing rule j changes the verdict only of packets it decided, and to that of the rules behind it. */
  lemma RemovalEffect(rules: seq<Rule>, j: nat, p: Packet)
    requires j < |rules|
    ensures Passes(DeleteAt(rules, j), p) ==
            if FirstMatch(rules, p) == j then Passes(rules[j + 1..], p) else Passes(rules, p)
  {
    hide Applies;
    var a, b := rules[..j], rules[j + 1..];
    assert rules == (a + [rules[j]]) + b;
    MatchOfParts(a + [rules[j]], b, p);
    MatchOfParts(a, [rules[j]], p);
    MatchOfParts(a, b, p);
  }

  /** Ids increase along the table and lie below the next one. */
  ghost predicate IdOrder(s: FwState) {
    && (forall i, j :: 0 <= i < j < |s.rules| ==> s.rules[i].id < s.rules[j].id)
    && (forall i :: 0 <= i < |s.rules| ==> 0 < s.rules[i].id < s.nextId)
  }

  /** With ids in order, removal by id deletes exactly the rule named and keeps the order of the rest. */
  lemma RemoveIsDeleteAt(s: FwState, j: nat)
    requires IdOrder(s) && j < |s.rules|
    ensures Remove(s.rules, s.rules[j].id) == DeleteAt(s.rules, j)
  {
  }

  /** A rule covered by an earlier enabled one can be removed by id without changing any verdict. */
  lemma ShadowedRuleIsRedundant(s: FwState, i: nat, j: nat, p: Packet)
    requires IdOrder(s) && i < j < |s.rules|
    requires s.rules[i].enabled && Covers(s.rules[i], s.rules[j])
    ensures Passes(Remove(s.rules, s.rules[j].id), p) == Passes(s.rules, p)
  {
    RemoveIsDeleteAt(s, j);
    RemovalEffect(s.rules, j, p);
    assert Applies(s.rules[j], p) ==> Applies(s.rules[i], p);
  }

  /** Appending a rule only decides packets nothing matched before: it can let one through, but block none. */
  lemma AppendEffect(s: FwState, r: Rule, p: Packet)
    ensures var rules := AddRule(s, r).0.rules;
            Passes(rules, p) <==>
            Passes(s.rules, p) ||
            (|s.rules| < MAX_RULES && FirstMatch(s.rules, p) == -1 && Matches(r, p) && r.action == Allow)
  {
    if |s.rules| < MAX_RULES {
      var last := r.(id := s.nextId, enabled := true);
      MatchOfParts(s.rules, [last], p);
    }
  }

  // ----- runs

  datatype Op = AddOp(r: Rule) | RemoveOp(id: uint32) | CheckOp(p: Packet) | EnableOp(on: bool)

  function Step(s: FwState, op: Op): FwState {
    match op
    case AddOp(r) => AddRule(s, r).0
    case RemoveOp(id) => s.(rules := Remove(s.rules, id))
    case CheckOp(p) => CheckPacket(s, p).0
    case EnableOp(on) => s.(on := on)
  }

  function Run(ops: seq<Op>): FwState {
    if ops == [] then InitState() else Step(Run(ops[..|ops| - 1]), ops[|ops| - 1])
  }

  /** Every counted packet is either allowed or blocked. */
  ghost predicate Balanced(st: Stats) {
    Add32(st.allowed, st.blocked) == st.total
  }

  lemma AddTail(x: int, b: uint32)
    ensures (x % TWO_32 + b) % TWO_32 == (x + b) % TWO_32
  {
  }

  lemma IncrementOne(a: uint32, b: uint32)
    ensures Add32(Add32(a, 1), b) == Add32(Add32(a, b), 1)
    ensures Add32(b, Add32(a, 1)) == Add32(Add32(b, a), 1)
  {
    AddTail(a + 1, b);
    AddTail(a + b, 1);
  }

  lemma CountBalanced(st: Stats, rules: seq<Rule>, p: Packet)
    requires Balanced(st)
    ensures Balanced(Count(st, rules, p))
  {
    hide Passes, FirstMatch, Add32;
    IncrementOne(st.allowed, st.blocked);
    IncrementOne(st.blocked, st.allowed);
  }

  lemma InitBalanced()
    ensures Balanced(InitState().stats)
  {
  }

  lemma {:induction false} RunBalanced(ops: seq<Op>)
    ensures Balanced(Run(ops).stats)
  {
    hide Balanced;
    if ops == [] {
      InitBalanced();
    } else {
      RunBalanced(ops[..|ops| - 1]);
      var s := Run(ops[..|ops| - 1]);
      if ops[|ops| - 1].CheckOp? {
        CountBalanced(s.stats, s.rules, ops[|ops| - 1].p);
      }
    }
  }

  lemma StepIdOrder(s: FwState, op: Op)
    requires IdOrder(s) && 1 <= s.nextId < TWO_32 - 1
    ensures IdOrder(Step(s, op)) && s.nextId <= Step(s, op).nextId <= s.nextId + 1
  {
    hide Passes;
  }

  lemma BlankIds()
    ensures IdOrder(BLANK)
  {
  }

  lemma InitIds()
    ensures IdOrder(InitState()) && 1 <= InitState().nextId <= 5
  {
    hide IdOrder;
    var s1 := AddRule(BLANK, InboundTcp(22)).0;
    var s2 := AddRule(s1, InboundTcp(80)).0;
    var s3 := AddRule(s2, InboundTcp(443)).0;
    BlankIds();
    StepIdOrder(BLANK, AddOp(InboundTcp(22)));
    StepIdOrder(s1, AddOp(InboundTcp(80)));
    StepIdOrder(s2, AddOp(InboundTcp(443)));
    StepIdOrder(s3, AddOp(InboundTcp(8080)));
  }

  /** In every run of fewer than 2^32 - 6 calls the ids increase in table order. */
  lemma {:induction false} RunIdOrder(ops: seq<Op>)
    requires |ops| < TWO_32 - 6
    ensures IdOrder(Run(ops)) && 1 <= Run(ops).nextId <= |ops| + 5
  {
    if ops != [] {
      RunIdOrder(ops[..|ops| - 1]);
      StepIdOrder(Run(ops[..|ops| - 1]), ops[|ops| - 1]);
    } else {
      InitIds();
    }
  }

  /** After firewall_init exactly inbound TCP to the four service ports passes. */
  lemma DefaultPolicy(p: Packet)
    ensures Passes(InitState().rules, p) <==>
            p.protocol == Tcp && p.direction == Inbound && p.dstPort in {22, 80, 443, 8080}
  {
    var s1 := AddRule(BLANK, InboundTcp(22)).0;
    var s2 := AddRule(s1, InboundTcp(80)).0;
    var s3 := AddRule(s2, InboundTcp(443)).0;
    AppendEffect(BLANK, InboundTcp(22), p);
    AppendEffect(s1, InboundTcp(80), p);
    AppendEffect(s2, InboundTcp(443), p);
    AppendEffect(s3, InboundTcp(8080), p);
  }
}
